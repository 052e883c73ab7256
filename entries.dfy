/**
  * One archive member (`cpio_file` of jni/magiskboot/cpio.c) and the
  * name order the entry vector is kept in.
  *
  * The C record keeps a `filesize` beside a `data` buffer; only the first
  * `filesize` bytes are ever written back, so an entry here holds exactly
  * those bytes and its size is `|data|`. The name is held without its
  * terminating NUL, and its `namesize` is taken to be `|name| + 1`: a name
  * field with bytes after its first NUL, which the C record keeps and
  * writes back, is not represented.
  */
module Entries {
  import opened Strings

  type u32 = x: int | 0 <= x < 0x1_0000_0000

  const S_IFMT: bv32 := 0xF000
  const S_IFDIR: bv32 := 0x4000
  const S_IFREG: bv32 := 0x8000

  datatype Entry = Entry(name: string, mode: u32, uid: u32, gid: u32, data: seq<char>, remove: bool)

  /** `S_ISREG(mode)`. */
  predicate IsReg(mode: u32)
  {
    (mode as bv32) & S_IFMT == S_IFREG
  }

  /** `kind | perm` on 32-bit modes, as `cpio_mkdir` and `cpio_add` build them. */
  function WithKind(kind: bv32, perm: u32): (m: u32)
    ensures (m as bv32) & kind == kind
  {
    var b := kind | perm as bv32;
    BitsRoundTrip(b);
    OrKeepsBits(kind, perm as bv32);
    b as int
  }

  lemma {:induction false} BitsRoundTrip(b: bv32)
    ensures (b as int) as bv32 == b
  {
  }

  lemma {:induction false} OrKeepsBits(a: bv32, b: bv32)
    ensures (a | b) & a == a
  {
  }

  /** An entry of the given kind and permission bits with owner 0:0. */
  function NewEntry(kind: bv32, perm: u32, name: string, data: seq<char>): (e: Entry)
    ensures e.name == name && e.data == data && !e.remove && e.uid == 0 && e.gid == 0
    ensures (e.mode as bv32) & kind == kind
  {
    Entry(name, WithKind(kind, perm), 0, 0, data, false)
  }

  /** Names in non-decreasing `strcmp` order: what sorting the vector yields. */
  ghost predicate Sorted(es: seq<Entry>)
  {
    forall i, j :: 0 <= i < j < |es| ==> !Less(es[j].name, es[i].name)
  }

  /** Names in strictly increasing `strcmp` order: no name twice. */
  ghost predicate StrictlySorted(es: seq<Entry>)
  {
    forall i, j :: 0 <= i < j < |es| ==> Less(es[i].name, es[j].name)
  }

  lemma {:induction false} StrictlySortedIsSorted(es: seq<Entry>)
    requires StrictlySorted(es)
    ensures Sorted(es)
  {
    forall i, j | 0 <= i < j < |es| ensures !Less(es[j].name, es[i].name) {
      LessAsymmetric(es[i].name, es[j].name);
    }
  }

  /** "a <= b" in name order is transitive. */
  lemma {:induction false} NotLessTransitive(a: string, b: string, c: string)
    ensures !Less(b, a) && !Less(c, b) ==> !Less(c, a)
  {
    LessTotal(a, b);
    LessTotal(b, c);
    if !Less(b, a) && !Less(c, b) && Less(c, a) {
      if a == b {
      } else if b == c {
      } else {
        LessTransitive(a, b, c);
        LessAsymmetric(a, c);
      }
    }
  }

  lemma {:induction false} SortedCons(x: Entry, es: seq<Entry>)
    requires Sorted(es)
    requires forall k :: 0 <= k < |es| ==> !Less(es[k].name, x.name)
    ensures Sorted([x] + es)
  {
    var r := [x] + es;
    forall i, j | 0 <= i < j < |r| ensures !Less(r[j].name, r[i].name) {
      if i > 0 { assert r[i] == es[i - 1] && r[j] == es[j - 1]; }
      else { assert r[j] == es[j - 1]; }
    }
  }

  /** Insert `x` before the first entry whose name is greater than its own. */
  function InsertByName(x: Entry, es: seq<Entry>): (r: seq<Entry>)
    ensures multiset(r) == multiset(es) + multiset{x}
    ensures |r| == |es| + 1
  {
    if |es| == 0 then [x]
    else if Less(x.name, es[0].name) then [x] + es
    else
      var r := [es[0]] + InsertByName(x, es[1..]);
      assert es == [es[0]] + es[1..];
      r
  }

  lemma {:induction false} InsertByNameSorted(x: Entry, es: seq<Entry>)
    requires Sorted(es)
    ensures Sorted(InsertByName(x, es))
    decreases |es|
  {
    if |es| == 0 {
    } else if Less(x.name, es[0].name) {
      forall k | 0 <= k < |es| ensures !Less(es[k].name, x.name) {
        LessAsymmetric(x.name, es[0].name);
        if k > 0 {
          LessTotal(es[0].name, es[k].name);
          if es[0].name != es[k].name { LessTransitive(x.name, es[0].name, es[k].name); }
          LessAsymmetric(x.name, es[k].name);
        }
      }
      SortedCons(x, es);
    } else {
      var rest := InsertByName(x, es[1..]);
      InsertByNameSorted(x, es[1..]);
      forall k | 0 <= k < |rest| ensures !Less(rest[k].name, es[0].name) {
        assert rest[k] in multiset(rest);
        if rest[k] != x {
          assert rest[k] in multiset(es[1..]);
          var m :| 0 <= m < |es[1..]| && es[1..][m] == rest[k];
          assert es[m + 1] == rest[k];
        }
      }
      SortedCons(es[0], rest);
    }
  }

  lemma {:induction false} InsertByNameLast(x: Entry, es: seq<Entry>)
    requires forall k :: 0 <= k < |es| ==> !Less(x.name, es[k].name)
    ensures InsertByName(x, es) == es + [x]
    decreases |es|
  {
    if |es| > 0 {
      InsertByNameLast(x, es[1..]);
      assert es == [es[0]] + es[1..];
    }
  }

  /** The vector after `vec_sort(v, cpio_compare)`: a stable sort by name
      (C's `qsort` leaves the order of equal names unspecified). */
  function SortByName(es: seq<Entry>): (r: seq<Entry>)
    ensures multiset(r) == multiset(es)
    ensures |r| == |es|
  {
    if |es| == 0 then []
    else
      var init, x := es[..|es| - 1], es[|es| - 1];
      assert es == init + [x];
      assert multiset(es) == multiset(init) + multiset{x};
      InsertByName(x, SortByName(init))
  }

  lemma {:induction false} SortByNameSorted(es: seq<Entry>)
    ensures Sorted(SortByName(es))
    decreases |es|
  {
    if |es| > 0 {
      SortByNameSorted(es[..|es| - 1]);
      InsertByNameSorted(es[|es| - 1], SortByName(es[..|es| - 1]));
    }
  }

  /** Sorting a sorted vector leaves it as it is. */
  lemma {:induction false} SortByNameSortedIdentity(es: seq<Entry>)
    requires Sorted(es)
    ensures SortByName(es) == es
    decreases |es|
  {
    if |es| > 0 {
      var init, x := es[..|es| - 1], es[|es| - 1];
      SortedInit(es, init);
      SortedLastMax(es, init, x);
      SortByNameSortedIdentity(init);
      InsertByNameLast(x, init);
      IdentityStep(es, init, x);
    }
  }

  /** The last entry, inserted into the unchanged rest, goes back to the end. */
  lemma {:induction false} IdentityStep(es: seq<Entry>, init: seq<Entry>, x: Entry)
    requires |es| > 0 && init == es[..|es| - 1] && x == es[|es| - 1]
    requires SortByName(init) == init && InsertByName(x, init) == init + [x]
    ensures SortByName(es) == es
  {
    LastSplit(es);
    SortByNameSnoc(es, init, x);
  }

  /** A non-empty sequence is its front followed by its last element. */
  lemma {:induction false} LastSplit<T>(s: seq<T>)
    requires |s| > 0
    ensures s == s[..|s| - 1] + [s[|s| - 1]]
  {
  }

  lemma {:induction false} SortedInit(es: seq<Entry>, init: seq<Entry>)
    requires Sorted(es) && |es| > 0 && init == es[..|es| - 1]
    ensures Sorted(init)
  {
    forall i, j | 0 <= i < j < |init| ensures !Less(init[j].name, init[i].name) {
      assert init[i] == es[i] && init[j] == es[j];
    }
  }

  /** In a sorted vector no name sorts after the last one. */
  lemma {:induction false} SortedLastMax(es: seq<Entry>, init: seq<Entry>, x: Entry)
    requires Sorted(es) && |es| > 0 && init == es[..|es| - 1] && x == es[|es| - 1]
    ensures forall k :: 0 <= k < |init| ==> !Less(x.name, init[k].name)
  {
    forall k | 0 <= k < |init| ensures !Less(x.name, init[k].name) {
      assert init[k] == es[k];
    }
  }

  /** One unfolding of the sort: the last entry is inserted into the sorted rest. */
  lemma {:induction false} SortByNameSnoc(es: seq<Entry>, init: seq<Entry>, x: Entry)
    requires |es| > 0 && init == es[..|es| - 1] && x == es[|es| - 1]
    ensures SortByName(es) == InsertByName(x, SortByName(init))
  {
  }

  /** The entries `dump_cpio` writes: those not tombstoned, in order. */
  function Live(es: seq<Entry>): (r: seq<Entry>)
    ensures |r| <= |es|
    ensures forall k :: 0 <= k < |r| ==> !r[k].remove
  {
    if |es| == 0 then []
    else if es[0].remove then Live(es[1..])
    else [es[0]] + Live(es[1..])
  }

  /** Where the `k`-th live entry sits in the vector. */
  function LiveIndex(es: seq<Entry>, k: nat): (i: nat)
    requires k < |Live(es)|
    ensures i < |es| && es[i] == Live(es)[k]
  {
    if es[0].remove then 1 + LiveIndex(es[1..], k)
    else if k == 0 then 0
    else 1 + LiveIndex(es[1..], k - 1)
  }
}
