/**
  * The in-place byte patch `patch_ramdisk` of jni/init/magiskinit.c
  * applies to the mapped `/init` binary, and the `strend` suffix test of
  * the same file.
  *
  * The patch renames the first reference to the stock
  * `plat_sepolicy.cil` to a `.xxx` name of the same length, so the file
  * keeps its size and layout.
  */
module InitPatch {
  import opened Strings

  const CIL: string := "/system/etc/selinux/plat_sepolicy.cil"
  const XXX: string := "/system/etc/selinux/plat_sepolicy.xxx"

  /** The 37 bytes at offset `i` of `s` are the stock policy path. */
  predicate MatchAt(s: string, i: int)
  {
    0 <= i && i + |CIL| <= |s| && s[i..i + |CIL|] == CIL
  }

  /** The first offset at or after `k` where the path occurs, or `|s|`. */
  function FirstMatchFrom(s: string, k: nat): (i: nat)
    requires k <= |s|
    ensures k <= i <= |s|
    ensures i < |s| ==> MatchAt(s, i)
    ensures forall j :: k <= j < i ==> !MatchAt(s, j)
    decreases |s| - k
  {
    if k == |s| then |s| else if MatchAt(s, k) then k else FirstMatchFrom(s, k + 1)
  }

  function FirstMatch(s: string): (i: nat)
    ensures i <= |s|
    ensures i < |s| ==> MatchAt(s, i)
    ensures forall j :: 0 <= j < i ==> !MatchAt(s, j)
  {
    FirstMatchFrom(s, 0)
  }

  /** The first occurrence is determined by its defining properties. */
  lemma {:induction false} FirstMatchIs(s: string, i: nat)
    requires i <= |s| && (i < |s| ==> MatchAt(s, i))
    requires forall j :: 0 <= j < i ==> !MatchAt(s, j)
    ensures FirstMatch(s) == i
  {
  }

  /** `/init` after the patch: the first occurrence renamed, all else kept. */
  function Patched(s: string): (r: string)
    ensures |r| == |s|
  {
    var i := FirstMatch(s);
    if i == |s| then s else s[..i] + XXX + s[i + |CIL|..]
  }

  /** Only the three bytes of the extension of the first occurrence change;
      without an occurrence nothing does. */
  lemma {:induction false} PatchedKeeps(s: string)
    ensures var i, r := FirstMatch(s), Patched(s);
      (i == |s| <==> r == s) &&
      (forall k :: 0 <= k < |s| && r[k] != s[k] ==> i + 34 <= k < i + |CIL|)
  {
    var i := FirstMatch(s);
    if i < |s| {
      RenameAt(s, i, Patched(s));
    }
  }

  /** Renaming an occurrence at `i` changes its extension and nothing else. */
  lemma {:induction false} RenameAt(s: string, i: nat, r: string)
    requires MatchAt(s, i) && r == s[..i] + XXX + s[i + |CIL|..]
    ensures r != s
    ensures forall k :: 0 <= k < |s| && r[k] != s[k] ==> i + 34 <= k < i + |CIL|
  {
    assert r[i + 34] == 'x' != s[i + 34] by {
      assert s[i..i + |CIL|][34] == s[i + 34];
    }
    forall k | 0 <= k < |s| && !(i + 34 <= k < i + |CIL|)
      ensures r[k] == s[k]
    {
      if i <= k < i + 34 {
        assert s[i..i + |CIL|][k - i] == s[k];
      }
    }
  }

  /** The extension `cil` holds no `x`, so no window whose extension takes
      in a renamed byte can match. */
  lemma {:induction false} NoMatchOverX(r: string, j: nat, k: nat)
    requires j + 34 <= k < j + |CIL| && k < |r| && r[k] == 'x'
    ensures !MatchAt(r, j)
  {
    if j + |CIL| <= |r| {
      assert r[j..j + |CIL|][k - j] == 'x';
      assert CIL[34] == 'c' && CIL[35] == 'i' && CIL[36] == 'l';
    }
  }

  /** A window that ends before the renamed bytes reads the same as before. */
  lemma {:induction false} SameWindow(s: string, j: nat)
    requires FirstMatch(s) < |s| && j + |CIL| <= FirstMatch(s) + 34
    ensures Patched(s)[j..j + |CIL|] == s[j..j + |CIL|]
  {
    var i, r := FirstMatch(s), Patched(s);
    forall k | j <= k < j + |CIL|
      ensures r[k] == s[k]
    {
      if k >= i {
        assert s[i..i + |CIL|][k - i] == s[k];
      }
    }
  }

  /** The renamed occurrence is gone and no earlier one appears: patching
      again would rename the next occurrence. */
  lemma {:induction false} PatchedMovesOn(s: string)
    requires FirstMatch(s) < |s|
    ensures FirstMatch(Patched(s)) > FirstMatch(s)
  {
    var i, r := FirstMatch(s), Patched(s);
    assert r[i + 34] == 'x';
    forall j | 0 <= j <= i
      ensures !MatchAt(r, j)
    {
      if j + |CIL| <= i + 34 {
        SameWindow(s, j);
        assert !MatchAt(s, j);
      } else {
        NoMatchOverX(r, j, i + 34);
      }
    }
  }

  /** `memcpy(addr + i, XXX, 37)`. */
  method Rename(a: array<char>, i: nat)
    requires i + |CIL| <= a.Length
    modifies a
    ensures a[..] == old(a[..])[..i] + XXX + old(a[..])[i + |CIL|..]
  {
    forall k | 0 <= k < |XXX| {
      a[i + k] := XXX[k];
    }
    assert forall k :: 0 <= k < a.Length ==> a[k] == (if i <= k < i + |CIL| then XXX[k - i] else old(a[k]));
  }

  /** The byte-patch loop of `patch_ramdisk` over the mapped `/init`. */
  method PatchInit(a: array<char>)
    modifies a
    ensures a[..] == Patched(old(a[..]))
  {
    var i := 0;
    while i < a.Length
      invariant 0 <= i <= a.Length
      invariant a[..] == old(a[..])
      invariant forall j :: 0 <= j < i ==> !MatchAt(a[..], j)
    {
      if i + |CIL| <= a.Length && a[i..i + |CIL|] == CIL {
        FirstMatchIs(a[..], i);
        Rename(a, i);
        return;
      }
      i := i + 1;
    }
    FirstMatchIs(a[..], a.Length);
  }

  /** `strend(s1, s2)`: `strcmp` of the last `strlen(s2)` bytes of `s1`
      against `s2`; the address arithmetic needs `s2` to be no longer. */
  function Strend(s1: string, s2: string): (r: int)
    requires |s2| <= |s1|
    ensures r == 0 <==> exists p :: s1 == p + s2
  {
    var k := |s1| - |s2|;
    assert s1 == s1[..k] + s1[k..];
    assert forall p :: s1 == p + s2 ==> s1[k..] == s2;
    Cmp(s1[k..], s2)
  }
}
