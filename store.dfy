/**
  * The entry vector of jni/magiskboot/cpio.c and the operations that edit
  * it in place: `cpio_vec_insert` (insert or replace in name order),
  * `cpio_rm` (tombstoning), `cpio_mkdir`, `cpio_add`, and the two read-only
  * scans `cpio_extract` and `cpio_test`.
  */
module Store {
  import opened Strings
  import opened Results
  import opened Entries

  /** Where the scan of `cpio_vec_insert` stops: the first entry whose name
      is not below `name`, or the end of the vector. */
  function InsertAt(es: seq<Entry>, name: string): (k: nat)
    ensures k <= |es|
    ensures forall j :: 0 <= j < k ==> Less(es[j].name, name)
    ensures k < |es| ==> !Less(es[k].name, name)
    decreases |es|
  {
    if |es| == 0 || !Less(es[0].name, name) then 0 else 1 + InsertAt(es[1..], name)
  }

  /** The vector after `cpio_vec_insert(v, n)`: `n` replaces the entry where
      the scan stops when that entry has the same name; otherwise it goes in
      there and the entries from there on move up one place. */
  function Inserted(es: seq<Entry>, n: Entry): (r: seq<Entry>)
    ensures n in r
  {
    var k := InsertAt(es, n.name);
    if k < |es| && es[k].name == n.name then
      var r := es[k := n];
      assert r[k] == n;
      r
    else
      var r := es[..k] + [n] + es[k..];
      assert r[k] == n;
      r
  }

  /** On a sorted vector an entry of the same name is replaced where the first
      of that name stands, and the length does not change. */
  lemma {:induction false} InsertedExisting(es: seq<Entry>, n: Entry, j: nat)
    requires Sorted(es)
    requires j < |es| && es[j].name == n.name
    ensures var i := InsertAt(es, n.name);
      i <= j && es[i].name == n.name && Inserted(es, n) == es[i := n]
    ensures |Inserted(es, n)| == |es|
  {
    var i := InsertAt(es, n.name);
    LessIrreflexive(n.name);
    assert i <= j;
    LessTotal(es[i].name, n.name);
    if i < j {
      assert !Less(es[j].name, es[i].name);
    }
  }

  /** A new name goes before the first greater name: the vector grows by one
      and, taking the new entry out again, the old vector is left in order. */
  lemma {:induction false} InsertedNew(es: seq<Entry>, n: Entry)
    requires Sorted(es)
    requires forall j :: 0 <= j < |es| ==> es[j].name != n.name
    ensures var r := Inserted(es, n);
      |r| == |es| + 1 &&
      exists i :: 0 <= i < |r| && r[i] == n && r[..i] + r[i + 1..] == es &&
        (forall j :: 0 <= j < i ==> Less(es[j].name, n.name)) &&
        (forall j :: i <= j < |es| ==> Less(n.name, es[j].name))
  {
    var k := InsertAt(es, n.name);
    var r := Inserted(es, n);
    assert r == es[..k] + [n] + es[k..];
    assert r[k] == n;
    assert r[..k] + r[k + 1..] == es by {
      assert r[..k] == es[..k] && r[k + 1..] == es[k..];
    }
    forall j | k <= j < |es| ensures Less(n.name, es[j].name) {
      LessTotal(es[k].name, n.name);
      if j > k {
        LessTotal(es[k].name, es[j].name);
        if es[k].name != es[j].name {
          LessTransitive(n.name, es[k].name, es[j].name);
        }
      }
    }
    assert (forall j :: 0 <= j < k ==> Less(es[j].name, n.name));
  }

  /** Inserting keeps a sorted vector sorted. */
  lemma {:induction false} InsertedSorted(es: seq<Entry>, n: Entry)
    requires Sorted(es)
    ensures Sorted(Inserted(es, n))
  {
    var k := InsertAt(es, n.name);
    var r := Inserted(es, n);
    if k < |es| && es[k].name == n.name {
      forall i, j | 0 <= i < j < |r| ensures !Less(r[j].name, r[i].name) {
        assert r[i].name == es[i].name && r[j].name == es[j].name;
      }
    } else {
      forall j | k <= j < |es| ensures !Less(es[j].name, n.name) {
        NotLessTransitive(n.name, es[k].name, es[j].name);
      }
      forall i, j | 0 <= i < j < |r| ensures !Less(r[j].name, r[i].name) {
        if j < k {
          assert r[i] == es[i] && r[j] == es[j];
        } else if j == k {
          assert r[i] == es[i];
          LessAsymmetric(es[i].name, n.name);
        } else if i < k {
          assert r[i] == es[i] && r[j] == es[j - 1];
          LessAsymmetric(es[i].name, n.name);
          NotLessTransitive(es[i].name, n.name, es[j - 1].name);
        } else if i == k {
          assert r[j] == es[j - 1];
        } else {
          assert r[i] == es[i - 1] && r[j] == es[j - 1];
        }
      }
    }
  }

  /** The three outcomes of `Inserted`: replace, insert before, append. */
  lemma {:induction false} InsertedReplace(es: seq<Entry>, n: Entry)
    ensures var k := InsertAt(es, n.name);
      k < |es| && es[k].name == n.name ==> Inserted(es, n) == es[k := n]
  {
  }

  lemma {:induction false} InsertedBefore(es: seq<Entry>, n: Entry)
    ensures var k := InsertAt(es, n.name);
      k < |es| && es[k].name != n.name ==> Inserted(es, n) == es[..k] + [n] + es[k..]
  {
  }

  lemma {:induction false} InsertedLast(es: seq<Entry>, n: Entry)
    ensures InsertAt(es, n.name) == |es| ==> Inserted(es, n) == es + [n]
  {
    assert es[..|es|] == es && es[|es|..] == [];
  }

  /** One comparison of the scan: a smaller name moves the stopping point
      past `i`, any other name stops the scan at `i`. */
  lemma {:induction false} ScanStep(o: seq<Entry>, name: string, i: nat)
    requires i <= InsertAt(o, name) && i < |o|
    ensures Less(o[i].name, name) ==> i + 1 <= InsertAt(o, name)
    ensures !Less(o[i].name, name) ==> i == InsertAt(o, name)
  {
  }

  /** The state of the shifting phase of `cpio_vec_insert`: `n` sits at `k`,
      the entries from `k` up to `i - 1` sit one place up, and `t` carries
      the one displaced from slot `i - 1`. */
  ghost predicate Shifting(o: seq<Entry>, e: seq<Entry>, n: Entry, k: nat, i: nat, t: Entry)
  {
    k < i <= |o| == |e| && e[..i] == o[..k] + [n] + o[k..i - 1] && e[i..] == o[i..] && t == o[i - 1]
  }

  lemma {:induction false} ShiftStart(o: seq<Entry>, n: Entry, k: nat)
    requires k < |o|
    ensures Shifting(o, o[k := n], n, k, k + 1, o[k])
  {
    assert o[k := n][..k + 1] == o[..k] + [n];
  }

  lemma {:induction false} ShiftStep(o: seq<Entry>, e: seq<Entry>, n: Entry, k: nat, i: nat, t: Entry)
    requires Shifting(o, e, n, k, i, t) && i < |e|
    ensures Shifting(o, e[i := t], n, k, i + 1, e[i])
  {
    var e2 := e[i := t];
    assert e2[..i + 1] == e[..i] + [t];
    assert o[k..i] == o[k..i - 1] + [o[i - 1]];
    assert e[i] == o[i];
  }

  lemma {:induction false} ShiftEnd(o: seq<Entry>, e: seq<Entry>, n: Entry, k: nat, t: Entry)
    requires Shifting(o, e, n, k, |e|, t)
    ensures e + [t] == o[..k] + [n] + o[k..]
  {
    assert e == e[..|e|];
    assert o[k..] == o[k..|o| - 1] + [o[|o| - 1]];
  }

  /** The test of `cpio_rm`: a raw byte prefix when recursive, else equality. */
  predicate Matches(recursive: bool, entry: string, name: string)
  {
    (recursive && HasPrefix(entry, name)) || name == entry
  }

  /** Whether `cpio_rm` reaches and marks the `k`-th entry: every match when
      recursive, only the first exact match otherwise. */
  predicate Marked(es: seq<Entry>, recursive: bool, entry: string, k: nat)
    requires k < |es|
  {
    if recursive then HasPrefix(entry, es[k].name)
    else es[k].name == entry && forall j :: 0 <= j < k ==> es[j].name != entry
  }

  /** The vector after `cpio_rm(recursive, entry, v)`. */
  function Removed(es: seq<Entry>, recursive: bool, entry: string): (r: seq<Entry>)
    ensures |r| == |es|
    decreases |es|
  {
    if |es| == 0 then []
    else if Matches(recursive, entry, es[0].name) then
      [es[0].(remove := true)] + (if recursive then Removed(es[1..], recursive, entry) else es[1..])
    else [es[0]] + Removed(es[1..], recursive, entry)
  }

  /** Only `remove` flags change, and an entry ends up marked exactly when it
      was already marked or the scan reaches it as a match. */
  lemma {:induction false} RemovedMarks(es: seq<Entry>, recursive: bool, entry: string)
    ensures var r := Removed(es, recursive, entry);
      forall k :: 0 <= k < |r| ==>
        r[k] == es[k].(remove := r[k].remove) && (r[k].remove <==> es[k].remove || Marked(es, recursive, entry, k))
    decreases |es|
  {
    if |es| > 0 {
      var r := Removed(es, recursive, entry);
      var t := es[1..];
      RemovedMarks(t, recursive, entry);
      if Matches(recursive, entry, es[0].name) {
        forall k | 1 <= k < |es| ensures Marked(es, recursive, entry, k) == (recursive && Marked(t, recursive, entry, k - 1)) {
          if !recursive { assert es[0].name == entry; }
        }
      } else {
        forall k | 1 <= k < |es| ensures Marked(es, recursive, entry, k) == Marked(t, recursive, entry, k - 1) {
          if !recursive {
            if Marked(t, recursive, entry, k - 1) {
              forall j | 0 <= j < k ensures es[j].name != entry {
                if j > 0 { assert es[j] == t[j - 1]; }
              }
            }
          }
        }
      }
      forall k | 0 <= k < |r| ensures r[k] == es[k].(remove := r[k].remove) &&
        (r[k].remove <==> es[k].remove || Marked(es, recursive, entry, k))
      {
        if k > 0 { assert es[k] == t[k - 1]; }
      }
    }
  }

  /** Removing twice marks nothing more than removing once. */
  lemma {:induction false} RemovedIdempotent(es: seq<Entry>, recursive: bool, entry: string)
    ensures Removed(Removed(es, recursive, entry), recursive, entry) == Removed(es, recursive, entry)
  {
    var r := Removed(es, recursive, entry);
    var r2 := Removed(r, recursive, entry);
    RemovedMarks(es, recursive, entry);
    RemovedMarks(r, recursive, entry);
    forall k | 0 <= k < |r| ensures r2[k] == r[k] {
      assert Marked(r, recursive, entry, k) == Marked(es, recursive, entry, k);
    }
  }

  /** Removal changes no name, so a sorted vector stays sorted. */
  lemma {:induction false} RemovedSorted(es: seq<Entry>, recursive: bool, entry: string)
    requires Sorted(es)
    ensures Sorted(Removed(es, recursive, entry))
  {
    var r := Removed(es, recursive, entry);
    RemovedMarks(es, recursive, entry);
    forall i, j | 0 <= i < j < |r| ensures !Less(r[j].name, r[i].name) {
      assert r[i].name == es[i].name && r[j].name == es[j].name;
    }
  }

  /** One step of the scan of `cpio_rm` at index `i`, in the terms of its loop:
      marking a match and moving on, stopping after an exact match, or
      passing a non-match. */
  lemma {:induction false} RemovedStep(es: seq<Entry>, i: nat, recursive: bool, entry: string)
    requires i < |es|
    ensures var x := es[i].(remove := true);
      Matches(recursive, entry, es[i].name) && recursive ==>
        es[i := x][..i + 1] + Removed(es[i := x][i + 1..], recursive, entry) == es[..i] + Removed(es[i..], recursive, entry)
    ensures Matches(recursive, entry, es[i].name) && !recursive ==>
      es[i := es[i].(remove := true)] == es[..i] + Removed(es[i..], recursive, entry)
    ensures !Matches(recursive, entry, es[i].name) ==>
      es[..i + 1] + Removed(es[i + 1..], recursive, entry) == es[..i] + Removed(es[i..], recursive, entry)
  {
    if Matches(recursive, entry, es[i].name) {
      if recursive {
        RemovedMarkAll(es, i, entry);
      } else {
        RemovedMarkFirst(es, i, entry);
      }
    } else {
      RemovedPass(es, i, recursive, entry);
    }
  }

  /** Marking an entry that is already marked changes nothing. */
  lemma {:induction false} MarkedAlready(es: seq<Entry>, i: nat)
    requires i < |es| && es[i].remove
    ensures es[i := es[i].(remove := true)] == es
  {
  }

  lemma {:induction false} RemovedMarkAll(es: seq<Entry>, i: nat, entry: string)
    requires i < |es| && Matches(true, entry, es[i].name)
    ensures var x := es[i].(remove := true);
      es[i := x][..i + 1] + Removed(es[i := x][i + 1..], true, entry) == es[..i] + Removed(es[i..], true, entry)
  {
    var x := es[i].(remove := true);
    var t := es[i..];
    assert t[0] == es[i] && t[1..] == es[i + 1..];
    assert Removed(t, true, entry) == [x] + Removed(es[i + 1..], true, entry);
    var es2 := es[i := x];
    assert es2[..i + 1] == es[..i] + [x];
    assert es2[i + 1..] == es[i + 1..];
  }

  lemma {:induction false} RemovedMarkFirst(es: seq<Entry>, i: nat, entry: string)
    requires i < |es| && Matches(false, entry, es[i].name)
    ensures es[i := es[i].(remove := true)] == es[..i] + Removed(es[i..], false, entry)
  {
    var x := es[i].(remove := true);
    var t := es[i..];
    assert t[0] == es[i] && t[1..] == es[i + 1..];
    assert Removed(t, false, entry) == [x] + es[i + 1..];
    assert es[i := x] == es[..i] + [x] + es[i + 1..];
  }

  lemma {:induction false} RemovedPass(es: seq<Entry>, i: nat, recursive: bool, entry: string)
    requires i < |es| && !Matches(recursive, entry, es[i].name)
    ensures es[..i + 1] + Removed(es[i + 1..], recursive, entry) == es[..i] + Removed(es[i..], recursive, entry)
  {
    var t := es[i..];
    assert t[0] == es[i] && t[1..] == es[i + 1..];
    assert Removed(t, recursive, entry) == [es[i]] + Removed(es[i + 1..], recursive, entry);
    assert es[..i + 1] == es[..i] + [es[i]];
  }

  /** Some entry of the vector has exactly this name. */
  predicate HasName(es: seq<Entry>, name: string)
  {
    exists k :: 0 <= k < |es| && es[k].name == name
  }

  const OTHER_LIST: seq<string> := ["sbin/launch_daemonsu.sh", "sbin/su", "init.xposed.rc", "init.supersu.rc"]
  const MAGISK_RC: string := "init.magisk.rc"
  const MAGISK_PATCH: bv8 := 1
  const OTHER_PATCH: bv8 := 2

  /** Some name of `OTHER_LIST` is present: the ramdisk was patched by another tool. */
  predicate OtherPatched(es: seq<Entry>)
  {
    exists i :: 0 <= i < |OTHER_LIST| && HasName(es, OTHER_LIST[i])
  }

  /** The status `cpio_test` exits with. */
  function TestStatus(es: seq<Entry>): int
  {
    if OtherPatched(es) then 2 else if HasName(es, MAGISK_RC) then 1 else 0
  }

  /** The vector as an object whose operations edit it in place. */
  class Ramdisk {
    var entries: seq<Entry>

    constructor(es: seq<Entry>)
      ensures entries == es
    {
      entries := es;
    }

    /** `cpio_vec_insert`: scan for the place, then shift the rest up one
        slot, carrying the displaced entry in `t`. */
    method Insert(n: Entry)
      modifies this
      ensures entries == Inserted(old(entries), n)
    {
      ghost var o := entries;
      var shift := false;
      var t := n;
      var i := 0;
      ghost var k := 0;
      while i < |entries|
        invariant 0 <= i <= |entries|
        invariant !shift ==> entries == o && i <= InsertAt(o, n.name)
        invariant shift ==> Shifting(o, entries, n, k, i, t) && k == InsertAt(o, n.name) && o[k].name != n.name
      {
        var f := entries[i];
        if shift {
          ShiftStep(o, entries, n, k, i, t);
          entries := entries[i := t];
          t := f;
        } else {
          t := f;
          var c := Cmp(f.name, n.name);
          ScanStep(o, n.name, i);
          if c == 0 {
            LessIrreflexive(n.name);
            InsertedReplace(o, n);
            entries := entries[i := n];
            return;
          } else if c > 0 {
            LessAsymmetric(n.name, f.name);
            ShiftStart(o, n, i);
            entries := entries[i := n];
            t := f;
            shift := true;
            k := i;
          }
        }
        i := i + 1;
      }
      if shift {
        ShiftEnd(o, entries, n, k, t);
        InsertedBefore(o, n);
        entries := entries + [t];
      } else {
        InsertedLast(o, n);
        entries := entries + [n];
      }
    }

    /** `cpio_rm`: mark matching entries; without `recursive`, stop at the first. */
    method Rm(recursive: bool, entry: string)
      modifies this
      ensures entries == Removed(old(entries), recursive, entry)
    {
      ghost var goal := Removed(entries, recursive, entry);
      var i := 0;
      while i < |entries|
        invariant 0 <= i <= |entries|
        invariant entries[..i] + Removed(entries[i..], recursive, entry) == goal
      {
        var f := entries[i];
        RemovedStep(entries, i, recursive, entry);
        if (recursive && HasPrefix(entry, f.name)) || Cmp(f.name, entry) == 0 {
          if !f.remove {
            entries := entries[i := f.(remove := true)];
          } else {
            MarkedAlready(entries, i);
          }
          if !recursive {
            return;
          }
        }
        i := i + 1;
      }
    }

    /** `cpio_mkdir`: a directory entry with no payload, inserted by name. */
    method Mkdir(perm: u32, name: string)
      modifies this
      ensures entries == Inserted(old(entries), NewEntry(S_IFDIR, perm, name, []))
    {
      Insert(NewEntry(S_IFDIR, perm, name, []));
    }

    /** `cpio_add`: a regular entry holding the bytes of the source file. */
    method Add(perm: u32, name: string, data: seq<char>)
      modifies this
      ensures entries == Inserted(old(entries), NewEntry(S_IFREG, perm, name, data))
    {
      Insert(NewEntry(S_IFREG, perm, name, data));
    }

    /** The lookup of `cpio_extract`: the first regular entry of that name. */
    method Extract(name: string) returns (r: Result<Entry>)
      ensures r.Ok? <==> exists k :: 0 <= k < |entries| && entries[k].name == name && IsReg(entries[k].mode)
      ensures r.Ok? ==> r.value.name == name && IsReg(r.value.mode)
      ensures r.Ok? ==> exists k ::
        0 <= k < |entries| && entries[k] == r.value && forall j :: 0 <= j < k ==> !(entries[j].name == name && IsReg(entries[j].mode))
      ensures r.Err? ==> r.error == NotFound
    {
      var i := 0;
      while i < |entries|
        invariant 0 <= i <= |entries|
        invariant forall j :: 0 <= j < i ==> !(entries[j].name == name && IsReg(entries[j].mode))
      {
        var f := entries[i];
        if Cmp(f.name, name) == 0 && IsReg(f.mode) {
          return Ok(f);
        }
        i := i + 1;
      }
      return Err(NotFound);
    }

    /** `cpio_test`: collect the two flags over all entries, then decide. */
    method Test() returns (status: int)
      ensures status == TestStatus(entries)
    {
      var ret: bv8 := 0;
      var i := 0;
      while i < |entries|
        invariant 0 <= i <= |entries|
        invariant ret & !(MAGISK_PATCH | OTHER_PATCH) == 0
        invariant (ret & OTHER_PATCH != 0) <==> OtherPatched(entries[..i])
        invariant (ret & MAGISK_PATCH != 0) <==> HasName(entries[..i], MAGISK_RC)
      {
        var f := entries[i];
        ret := FlagOther(ret, f.name);
        if Cmp(f.name, MAGISK_RC) == 0 {
          ret := ret | MAGISK_PATCH;
        }
        PrefixNames(entries, i);
        i := i + 1;
      }
      assert entries[..i] == entries;
      status := if ret & OTHER_PATCH != 0 then 2 else (ret & MAGISK_PATCH) as int;
    }
  }

  /** The inner loop of `cpio_test`: sets the other-tool flag when the name
      is in `OTHER_LIST`, and leaves the Magisk flag as it is. */
  method FlagOther(ret: bv8, name: string) returns (r: bv8)
    requires ret & !(MAGISK_PATCH | OTHER_PATCH) == 0
    ensures r & !(MAGISK_PATCH | OTHER_PATCH) == 0
    ensures (r & MAGISK_PATCH != 0) <==> (ret & MAGISK_PATCH != 0)
    ensures (r & OTHER_PATCH != 0) <==>
      (ret & OTHER_PATCH != 0 || exists x :: 0 <= x < |OTHER_LIST| && name == OTHER_LIST[x])
  {
    r := ret;
    var m := 0;
    while m < |OTHER_LIST|
      invariant 0 <= m <= |OTHER_LIST|
      invariant r & !(MAGISK_PATCH | OTHER_PATCH) == 0
      invariant (r & MAGISK_PATCH != 0) <==> (ret & MAGISK_PATCH != 0)
      invariant (r & OTHER_PATCH != 0) <==>
        (ret & OTHER_PATCH != 0 || exists x :: 0 <= x < m && name == OTHER_LIST[x])
    {
      if Cmp(name, OTHER_LIST[m]) == 0 {
        r := r | OTHER_PATCH;
      }
      m := m + 1;
    }
  }

  /** Names present in a prefix one longer. */
  lemma {:induction false} PrefixNames(es: seq<Entry>, i: nat)
    requires i < |es|
    ensures forall name :: HasName(es[..i + 1], name) <==> HasName(es[..i], name) || es[i].name == name
    ensures OtherPatched(es[..i + 1]) <==> OtherPatched(es[..i]) || exists x :: 0 <= x < |OTHER_LIST| && es[i].name == OTHER_LIST[x]
  {
    var p := es[..i + 1];
    assert p[i] == es[i];
    assert forall k :: 0 <= k < i ==> p[k] == es[..i][k];
  }
}
