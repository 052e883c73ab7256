/**
  * The backup protocol of jni/magiskboot/cpio.c: `cpio_backup` walks a
  * pristine archive and the working one side by side in name order, saving
  * under `.backup/` every pristine entry the working archive lost or
  * changed and listing in `.backup/.rmlist` every name the working archive
  * added; `cpio_restore` undoes that.
  */
module Backup {
  import opened Strings
  import opened Entries
  import opened Store

  const BACKUP: string := ".backup"
  const BACKUP_PREFIX: string := ".backup/"
  const RMLIST: string := ".backup/.rmlist"

  /** What the walk produces: the renamed pristine entries, in walk order,
      and the payload of `.backup/.rmlist`. */
  datatype Diff = Diff(backups: seq<Entry>, rmlist: string)

  /** A pristine entry renamed to `.backup/<name>` (its `namesize` grows by 8). */
  function Backed(m: Entry): Entry
  {
    m.(name := BACKUP_PREFIX + m.name)
  }

  /** The merge walk of `cpio_backup` over the pristine entries `o` and the
      working entries `v`: a pristine name that sorts first is backed up, a
      working name that sorts first is listed unless tombstoned, and an
      entry on both sides is backed up when its payloads differ. */
  function Walk(o: seq<Entry>, v: seq<Entry>): (d: Diff)
    decreases |o| + |v|
  {
    if |o| == 0 && |v| == 0 then Diff([], [])
    else if |v| == 0 || (|o| > 0 && Less(o[0].name, v[0].name)) then
      var d := Walk(o[1..], v);
      Diff([Backed(o[0])] + d.backups, d.rmlist)
    else if |o| == 0 || Less(v[0].name, o[0].name) then
      var d := Walk(o, v[1..]);
      Diff(d.backups, (if v[0].remove then [] else v[0].name + [NUL]) + d.rmlist)
    else
      var d := Walk(o[1..], v[1..]);
      if o[0].data == v[0].data then d else Diff([Backed(o[0])] + d.backups, d.rmlist)
  }

  // ----- what the walk computes -----

  /** The working archive holds an entry of the same name and payload. */
  predicate Unchanged(m: Entry, v: seq<Entry>)
  {
    exists k :: 0 <= k < |v| && v[k].name == m.name && v[k].data == m.data
  }

  /** The pristine entries the working archive lost or changed, renamed. */
  function Changed(o: seq<Entry>, v: seq<Entry>): (r: seq<Entry>)
    ensures |r| <= |o|
  {
    if |o| == 0 then []
    else (if Unchanged(o[0], v) then [] else [Backed(o[0])]) + Changed(o[1..], v)
  }

  /** The names of the live working entries the pristine archive lacks. */
  function AddedNames(v: seq<Entry>, o: seq<Entry>): (r: seq<string>)
    ensures |r| <= |v|
  {
    if |v| == 0 then []
    else (if v[0].remove || HasName(o, v[0].name) then [] else [v[0].name]) + AddedNames(v[1..], o)
  }

  /** Names laid end to end, each followed by a NUL. */
  function Terminated(ns: seq<string>): (s: string)
  {
    if |ns| == 0 then [] else ns[0] + [NUL] + Terminated(ns[1..])
  }

  /** On two archives in strict name order the walk backs up exactly the
      pristine entries whose name is missing from the working archive or
      whose payload differs there, and lists exactly the live working names
      the pristine archive lacks, each in order. Mode and owner are not
      compared. */
  lemma {:induction false} WalkDiff(o: seq<Entry>, v: seq<Entry>)
    requires StrictlySorted(o) && StrictlySorted(v)
    ensures Walk(o, v) == Diff(Changed(o, v), Terminated(AddedNames(v, o)))
    decreases |o| + |v|
  {
    if |o| == 0 && |v| == 0 {
    } else if |v| == 0 || (|o| > 0 && Less(o[0].name, v[0].name)) {
      StrictTail(o);
      WalkDiff(o[1..], v);
      if |v| > 0 { BelowFirst(v, o[0].name); }
      assert !Unchanged(o[0], v);
      forall k | 0 <= k < |v| ensures HasName(o, v[k].name) == HasName(o[1..], v[k].name) {
        HasNameTail(o, v[k].name);
      }
      AddedNamesSame(v, o, o[1..]);
    } else if |o| == 0 || Less(v[0].name, o[0].name) {
      StrictTail(v);
      WalkDiff(o, v[1..]);
      if |o| > 0 { BelowFirst(o, v[0].name); }
      assert !HasName(o, v[0].name);
      forall k | 0 <= k < |o| ensures Unchanged(o[k], v) == Unchanged(o[k], v[1..]) {
        UnchangedTail(o[k], v);
      }
      ChangedSame(o, v, v[1..]);
      TerminatedCons(AddedNames(v, o), v[0].name, AddedNames(v[1..], o), !v[0].remove);
    } else {
      LessTotal(o[0].name, v[0].name);
      StrictTail(o);
      StrictTail(v);
      WalkDiff(o[1..], v[1..]);
      WalkDiffSame(o, v);
    }
  }

  /** The case of the walk where both sides hold the same name. */
  lemma {:induction false} WalkDiffSame(o: seq<Entry>, v: seq<Entry>)
    requires StrictlySorted(o) && StrictlySorted(v)
    requires |o| > 0 && |v| > 0 && o[0].name == v[0].name
    ensures Changed(o, v) == (if o[0].data == v[0].data then [] else [Backed(o[0])]) + Changed(o[1..], v[1..])
    ensures AddedNames(v, o) == AddedNames(v[1..], o[1..])
  {
    AfterFirst(o);
    AfterFirst(v);
    assert Unchanged(o[0], v) <==> o[0].data == v[0].data by {
      if Unchanged(o[0], v) {
        var k :| 0 <= k < |v| && v[k].name == o[0].name && v[k].data == o[0].data;
        assert k == 0;
      }
    }
    var o1, v1 := o[1..], v[1..];
    forall k | 0 <= k < |o1| ensures Unchanged(o1[k], v) == Unchanged(o1[k], v1) {
      assert o1[k] == o[k + 1];
      UnchangedTail(o1[k], v);
    }
    ChangedSame(o1, v, v1);
    assert HasName(o, v[0].name) by { assert o[0].name == v[0].name; }
    forall k | 0 <= k < |v1| ensures HasName(o, v1[k].name) == HasName(o1, v1[k].name) {
      assert v1[k] == v[k + 1];
      HasNameTail(o, v1[k].name);
    }
    AddedNamesSame(v1, o, o1);
  }

  lemma {:induction false} StrictTail(s: seq<Entry>)
    requires StrictlySorted(s) && |s| > 0
    ensures StrictlySorted(s[1..])
  {
    assert forall i :: 0 <= i < |s| - 1 ==> s[1..][i] == s[i + 1];
  }

  /** Nothing in a strictly sorted vector has a name below its first. */
  lemma {:induction false} BelowFirst(s: seq<Entry>, x: string)
    requires StrictlySorted(s) && |s| > 0 && Less(x, s[0].name)
    ensures forall k :: 0 <= k < |s| ==> s[k].name != x
  {
    forall k | 0 <= k < |s| ensures s[k].name != x {
      if k > 0 { LessTransitive(x, s[0].name, s[k].name); }
      LessIrreflexive(x);
    }
  }

  /** The first name of a strictly sorted vector occurs nowhere after it. */
  lemma {:induction false} AfterFirst(s: seq<Entry>)
    requires StrictlySorted(s) && |s| > 0
    ensures forall k :: 1 <= k < |s| ==> s[k].name != s[0].name
  {
    forall k | 1 <= k < |s| ensures s[k].name != s[0].name {
      LessIrreflexive(s[0].name);
    }
  }

  lemma {:induction false} HasNameTail(o: seq<Entry>, name: string)
    requires |o| > 0 && o[0].name != name
    ensures HasName(o, name) == HasName(o[1..], name)
  {
    if HasName(o, name) {
      var k :| 0 <= k < |o| && o[k].name == name;
      assert o[1..][k - 1] == o[k];
    }
    if HasName(o[1..], name) {
      var k :| 0 <= k < |o[1..]| && o[1..][k].name == name;
      assert o[k + 1] == o[1..][k];
    }
  }

  lemma {:induction false} UnchangedTail(m: Entry, v: seq<Entry>)
    requires |v| > 0 && v[0].name != m.name
    ensures Unchanged(m, v) == Unchanged(m, v[1..])
  {
    if Unchanged(m, v) {
      var k :| 0 <= k < |v| && v[k].name == m.name && v[k].data == m.data;
      assert v[1..][k - 1] == v[k];
    }
    if Unchanged(m, v[1..]) {
      var k :| 0 <= k < |v[1..]| && v[1..][k].name == m.name && v[1..][k].data == m.data;
      assert v[k + 1] == v[1..][k];
    }
  }

  lemma {:induction false} ChangedSame(o: seq<Entry>, v: seq<Entry>, v': seq<Entry>)
    requires forall k :: 0 <= k < |o| ==> Unchanged(o[k], v) == Unchanged(o[k], v')
    ensures Changed(o, v) == Changed(o, v')
    decreases |o|
  {
    if |o| > 0 {
      assert forall k :: 0 <= k < |o[1..]| ==> o[1..][k] == o[k + 1];
      ChangedSame(o[1..], v, v');
    }
  }

  lemma {:induction false} AddedNamesSame(v: seq<Entry>, o: seq<Entry>, o': seq<Entry>)
    requires forall k :: 0 <= k < |v| ==> HasName(o, v[k].name) == HasName(o', v[k].name)
    ensures AddedNames(v, o) == AddedNames(v, o')
    decreases |v|
  {
    if |v| > 0 {
      assert forall k :: 0 <= k < |v[1..]| ==> v[1..][k] == v[k + 1];
      AddedNamesSame(v[1..], o, o');
    }
  }

  lemma {:induction false} TerminatedCons(ns: seq<string>, n: string, rest: seq<string>, keep: bool)
    requires ns == (if keep then [n] else []) + rest
    ensures Terminated(ns) == (if keep then n + [NUL] else []) + Terminated(rest)
  {
    if keep {
      assert ns[0] == n && ns[1..] == rest;
      assert Terminated(ns) == n + [NUL] + Terminated(rest);
    } else {
      assert ns == rest;
      assert [] + Terminated(rest) == Terminated(rest);
    }
  }

  // ----- the archive after `cpio_backup` -----

  const DIR_MODE: u32 := S_IFDIR as int
  const REG_MODE: u32 := S_IFREG as int

  /** The working entries followed by what `cpio_backup` pushes: the
      `.backup` directory, `.backup/.rmlist`, then the backups, the first
      two tombstoned when there is nothing to record. */
  function WithBackups(v: seq<Entry>, d: Diff): (r: seq<Entry>)
    ensures |r| == |v| + 2 + |d.backups|
  {
    var empty := d.rmlist == [];
    v + ([Entry(BACKUP, DIR_MODE, 0, 0, [], empty && d.backups == []), Entry(RMLIST, REG_MODE, 0, 0, d.rmlist, empty)] + d.backups)
  }

  /** The vector after `cpio_backup(orig, v)`, with `o` the parsed `orig`. */
  function BackupResult(v: seq<Entry>, o: seq<Entry>): (r: seq<Entry>)
  {
    var v1 := Removed(v, true, BACKUP);
    SortByName(WithBackups(v1, Walk(Removed(o, true, BACKUP), v1)))
  }

  /** Tombstoning changes no name, so strict order survives it. */
  lemma {:induction false} RemovedStrictlySorted(es: seq<Entry>, recursive: bool, entry: string)
    requires StrictlySorted(es)
    ensures StrictlySorted(Removed(es, recursive, entry))
  {
    RemovedMarks(es, recursive, entry);
  }

  /** On archives in strict name order, the result is sorted and holds
      exactly the working entries (older backups tombstoned), the directory
      and list entries, and the pristine entries lost or changed, renamed;
      the list names the live working entries the pristine archive lacks. */
  lemma {:induction false} BackupResultContents(v: seq<Entry>, o: seq<Entry>)
    requires StrictlySorted(o) && StrictlySorted(v)
    ensures Sorted(BackupResult(v, o))
    ensures var v1, o1 := Removed(v, true, BACKUP), Removed(o, true, BACKUP);
      multiset(BackupResult(v, o)) == multiset(WithBackups(v1, Diff(Changed(o1, v1), Terminated(AddedNames(v1, o1)))))
  {
    var v1, o1 := Removed(v, true, BACKUP), Removed(o, true, BACKUP);
    RemovedStrictlySorted(v, true, BACKUP);
    RemovedStrictlySorted(o, true, BACKUP);
    WalkDiff(o1, v1);
    SortByNameSorted(WithBackups(v1, Walk(o1, v1)));
  }

  /** `cpio_backup`: `orig` stands for the entries `parse_cpio` reads from
      the pristine archive file. */
  method BackupRamdisk(rd: Ramdisk, orig: seq<Entry>)
    modifies rd
    ensures rd.entries == BackupResult(old(rd.entries), orig)
  {
    var o := new Ramdisk(orig);
    o.Rm(true, BACKUP);
    rd.Rm(true, BACKUP);
    var os, vs := o.entries, rd.entries;
    var bak, rem := WalkLoop(os, vs);
    var dir := Entry(BACKUP, DIR_MODE, 0, 0, [], false);
    var list := Entry(RMLIST, REG_MODE, 0, 0, rem, false);
    if |rem| == 0 {
      list := list.(remove := true);
      if |bak| == 0 {
        dir := dir.(remove := true);
      }
    }
    rd.entries := rd.entries + ([dir, list] + bak);
    rd.entries := SortByName(rd.entries);
  }

  /** The two-index loop of `cpio_backup` over the two vectors. */
  method WalkLoop(os: seq<Entry>, vs: seq<Entry>) returns (bak: seq<Entry>, rem: string)
    ensures Diff(bak, rem) == Walk(os, vs)
  {
    ghost var goal := Walk(os, vs);
    bak, rem := [], [];
    var i, j := 0, 0;
    while i != |os| || j != |vs|
      invariant i <= |os| && j <= |vs|
      invariant Diff(bak + Walk(os[i..], vs[j..]).backups, rem + Walk(os[i..], vs[j..]).rmlist) == goal
      decreases |os| - i + |vs| - j
    {
      ghost var bak0, rem0, i0, j0 := bak, rem, i, j;
      var res;
      if i != |os| && j != |vs| {
        res := Cmp(os[i].name, vs[j].name);
      } else if i == |os| {
        res := 1;
      } else {
        res := -1;
      }
      if res < 0 {
        bak := bak + [Backed(os[i])];
        i := i + 1;
      } else if res == 0 {
        if os[i].data != vs[j].data {
          bak := bak + [Backed(os[i])];
        }
        i, j := i + 1, j + 1;
      } else {
        if !vs[j].remove {
          rem := rem + (vs[j].name + [NUL]);
        }
        j := j + 1;
      }
      WalkIter(os, vs, i0, j0, i, j, bak0, rem0, bak, rem, goal);
    }
    assert os[i..] == [] && vs[j..] == [];
  }

  /** One turn of the walk loop keeps its invariant. */
  lemma {:induction false} WalkIter(o: seq<Entry>, v: seq<Entry>, i0: nat, j0: nat, i: nat, j: nat,
                                    bak0: seq<Entry>, rem0: string, bak: seq<Entry>, rem: string, goal: Diff)
    requires i0 <= |o| && j0 <= |v| && (i0 < |o| || j0 < |v|)
    requires Diff(bak0 + Walk(o[i0..], v[j0..]).backups, rem0 + Walk(o[i0..], v[j0..]).rmlist) == goal
    requires i0 < |o| && (j0 == |v| || Less(o[i0].name, v[j0].name)) ==>
      i == i0 + 1 && j == j0 && bak == bak0 + [Backed(o[i0])] && rem == rem0
    requires j0 < |v| && (i0 == |o| || Less(v[j0].name, o[i0].name)) ==>
      i == i0 && j == j0 + 1 && bak == bak0 && rem == rem0 + (if v[j0].remove then [] else v[j0].name + [NUL])
    requires i0 < |o| && j0 < |v| && o[i0].name == v[j0].name ==>
      i == i0 + 1 && j == j0 + 1 && rem == rem0 && bak == bak0 + (if o[i0].data == v[j0].data then [] else [Backed(o[i0])])
    ensures i <= |o| && j <= |v| && (|o| - i) + (|v| - j) < (|o| - i0) + (|v| - j0)
    ensures Diff(bak + Walk(o[i..], v[j..]).backups, rem + Walk(o[i..], v[j..]).rmlist) == goal
  {
    var a, b := o[i0..], v[j0..];
    if i0 < |o| { assert a[0] == o[i0] && a[1..] == o[i0 + 1..]; }
    if j0 < |v| { assert b[0] == v[j0] && b[1..] == v[j0 + 1..]; }
    if i0 < |o| && j0 < |v| { LessTotal(o[i0].name, v[j0].name); }
    var d := Walk(o[i..], v[j..]);
    if i0 < |o| && (j0 == |v| || Less(o[i0].name, v[j0].name)) {
      assert Walk(a, b) == Diff([Backed(o[i0])] + d.backups, d.rmlist);
      Regroup(bak0, [Backed(o[i0])], d.backups);
    } else if j0 < |v| && (i0 == |o| || Less(v[j0].name, o[i0].name)) {
      var x := if v[j0].remove then [] else v[j0].name + [NUL];
      assert Walk(a, b) == Diff(d.backups, x + d.rmlist);
      Regroup(rem0, x, d.rmlist);
    } else {
      var x := if o[i0].data == v[j0].data then [] else [Backed(o[i0])];
      assert Walk(a, b) == Diff(x + d.backups, d.rmlist);
      Regroup(bak0, x, d.backups);
    }
  }

  lemma {:induction false} Regroup<T>(p: seq<T>, q: seq<T>, t: seq<T>)
    ensures p + (q + t) == (p + q) + t
  {
  }
}
