/**
  * The C-string primitives the ramdisk editor is built on, over byte
  * strings modelled as `seq<char>` (one char per byte). Every scan is
  * bounded by the end of its string.
  */
module Strings {

  const NUL: char := '\0'

  /** The order of C `strcmp` on strings that hold no NUL: byte by byte,
      a proper prefix before every longer string. */
  predicate Less(a: string, b: string)
    decreases |a|
  {
    |b| > 0 && (|a| == 0 || a[0] < b[0] || (a[0] == b[0] && Less(a[1..], b[1..])))
  }

  lemma {:induction false} LessIrreflexive(a: string)
    ensures !Less(a, a)
    decreases |a|
  {
    if |a| > 0 { LessIrreflexive(a[1..]); }
  }

  lemma {:induction false} LessAsymmetric(a: string, b: string)
    ensures !(Less(a, b) && Less(b, a))
    decreases |a|
  {
    if |a| > 0 && |b| > 0 && a[0] == b[0] { LessAsymmetric(a[1..], b[1..]); }
  }

  lemma {:induction false} LessTransitive(a: string, b: string, c: string)
    requires Less(a, b) && Less(b, c)
    ensures Less(a, c)
    decreases |a|
  {
    if |a| > 0 && a[0] == b[0] && b[0] == c[0] { LessTransitive(a[1..], b[1..], c[1..]); }
  }

  lemma {:induction false} LessTotal(a: string, b: string)
    ensures a == b || Less(a, b) || Less(b, a)
    decreases |a|
  {
    if |a| > 0 && |b| > 0 && a[0] == b[0] {
      LessTotal(a[1..], b[1..]);
      if a[1..] == b[1..] {
        assert a == [a[0]] + a[1..] && b == [b[0]] + b[1..];
      }
    }
  }

  /** The sign of C `strcmp(a, b)`. */
  function Cmp(a: string, b: string): (r: int)
    ensures r == 0 <==> a == b
    ensures r < 0 <==> Less(a, b)
    ensures r > 0 <==> Less(b, a)
  {
    LessIrreflexive(a);
    LessAsymmetric(a, b);
    LessTotal(a, b);
    if a == b then 0 else if Less(a, b) then -1 else 1
  }

  /** `strcmp(a, b) == 0`, compared byte by byte. */
  predicate Same(a: string, b: string)
    decreases |a|
  {
    |a| == |b| && (|a| == 0 || (a[0] == b[0] && Same(a[1..], b[1..])))
  }

  lemma {:induction false} SameIsEqual(a: string, b: string)
    ensures Same(a, b) <==> a == b
    decreases |a|
  {
    if |a| > 0 && |a| == |b| {
      SameIsEqual(a[1..], b[1..]);
      assert a == [a[0]] + a[1..] && b == [b[0]] + b[1..];
    }
  }

  /** `strncmp(s, p, strlen(p)) == 0`: `s` starts with `p`. */
  predicate HasPrefix(p: string, s: string)
  {
    |p| <= |s| && s[..|p|] == p
  }

  /** `strstr(s, t) != NULL`: `t` occurs somewhere in `s`. */
  predicate Contains(s: string, t: string)
    decreases |s|
  {
    HasPrefix(t, s) || (|s| > 0 && Contains(s[1..], t))
  }

  /** `Contains` is the usual "occurs at some offset". */
  lemma {:induction false} ContainsAt(s: string, t: string)
    ensures Contains(s, t) <==> exists k :: 0 <= k <= |s| && HasPrefix(t, s[k..])
    decreases |s|
  {
    assert s[0..] == s;
    if |s| > 0 {
      ContainsAt(s[1..], t);
      if Contains(s[1..], t) {
        var k :| 0 <= k <= |s| - 1 && HasPrefix(t, s[1..][k..]);
        assert s[1..][k..] == s[k + 1..];
      }
      if exists k :: 0 <= k <= |s| && HasPrefix(t, s[k..]) {
        var k :| 0 <= k <= |s| && HasPrefix(t, s[k..]);
        if k > 0 {
          assert s[1..][k - 1..] == s[k..];
          assert Contains(s[1..], t);
        }
      }
    } else {
      assert s[0..] == s;
    }
  }

  /** A string shorter than `t` does not contain it. */
  lemma {:induction false} ShortMisses(s: string, t: string)
    requires |s| < |t|
    ensures !Contains(s, t)
  {
    ContainsAt(s, t);
  }

  /** `strchr`-like search, bounded: the first index of `c` in `s`, or |s|. */
  function Find(s: string, c: char): (k: nat)
    ensures k <= |s|
    ensures k < |s| ==> s[k] == c
    ensures forall j :: 0 <= j < k ==> s[j] != c
    decreases |s|
  {
    if |s| == 0 then 0 else if s[0] == c then 0 else 1 + Find(s[1..], c)
  }

  /** `Find` is characterised by its postcondition. */
  lemma {:induction false} FindAt(s: string, c: char, k: nat)
    requires k <= |s| && (k < |s| ==> s[k] == c)
    requires forall j :: 0 <= j < k ==> s[j] != c
    ensures Find(s, c) == k
    decreases |s|
  {
    if k > 0 {
      assert s[0] != c;
      FindAt(s[1..], c, k - 1);
    }
  }

  /** The pieces `strsep(&p, "c")` returns one after another: every
      separator splits, so a trailing separator yields a final empty piece. */
  function Split(s: string, c: char): (r: seq<string>)
    ensures |r| >= 1
    decreases |s|
  {
    var k := Find(s, c);
    if k == |s| then [s] else [s[..k]] + Split(s[k + 1..], c)
  }

  /** The inverse of `Split`: the pieces with one separator between neighbours. */
  function Join(ls: seq<string>, c: char): string
  {
    if |ls| == 0 then [] else if |ls| == 1 then ls[0] else ls[0] + [c] + Join(ls[1..], c)
  }

  lemma {:induction false} JoinSplit(s: string, c: char)
    ensures Join(Split(s, c), c) == s
    decreases |s|
  {
    var k := Find(s, c);
    if k < |s| {
      var rest := Split(s[k + 1..], c);
      assert Split(s, c) == [s[..k]] + rest;
      JoinSplit(s[k + 1..], c);
      JoinCons(s[..k], rest, c);
      assert s == s[..k] + [c] + s[k + 1..];
    } else {
      assert Split(s, c) == [s];
    }
  }

  /** One unfolding of `Join` in front of a non-empty list. */
  lemma {:induction false} JoinCons(a: string, rest: seq<string>, c: char)
    requires |rest| >= 1
    ensures Join([a] + rest, c) == a + [c] + Join(rest, c)
  {
    assert ([a] + rest)[1..] == rest;
  }

  lemma {:induction false} SplitPiecesFree(s: string, c: char)
    ensures forall i :: 0 <= i < |Split(s, c)| ==> c !in Split(s, c)[i]
    decreases |s|
  {
    var k := Find(s, c);
    if k < |s| {
      SplitPiecesFree(s[k + 1..], c);
      var r := Split(s, c);
      forall i | 0 <= i < |r| ensures c !in r[i] {
        if i > 0 { assert r[i] == Split(s[k + 1..], c)[i - 1]; }
      }
    }
  }

  lemma {:induction false} SplitJoin(ls: seq<string>, c: char)
    requires |ls| >= 1
    requires forall i :: 0 <= i < |ls| ==> c !in ls[i]
    ensures Split(Join(ls, c), c) == ls
    decreases |ls|
  {
    if |ls| == 1 {
      assert Find(ls[0], c) == |ls[0]|;
    } else {
      var s := Join(ls, c);
      assert s == ls[0] + [c] + Join(ls[1..], c);
      assert s[|ls[0]|] == c;
      assert Find(s, c) == |ls[0]|;
      assert s[|ls[0]| + 1..] == Join(ls[1..], c);
      assert s[..|ls[0]|] == ls[0];
      SplitJoin(ls[1..], c);
    }
  }

  /** The pieces `strtok` returns: the pieces of `Split` that are not empty. */
  function NonEmpty(ls: seq<string>): (r: seq<string>)
    ensures |r| <= |ls|
    ensures forall i :: 0 <= i < |r| ==> r[i] != [] && r[i] in ls
  {
    if |ls| == 0 then []
    else if ls[0] == [] then NonEmpty(ls[1..])
    else [ls[0]] + NonEmpty(ls[1..])
  }

  function Tokens(s: string, c: char): seq<string>
  {
    NonEmpty(Split(s, c))
  }

  /** The isspace set that `%s` and `%ld` in `sscanf` skip and stop at. */
  predicate IsSpace(c: char)
  {
    c == ' ' || c == '\t' || c == '\n' || c == '\U{B}' || c == '\U{C}' || c == '\r'
  }

  predicate IsDigit(c: char)
  {
    '0' <= c <= '9'
  }
}
