/**
  * `cpio_restore` of jni/magiskboot/cpio.c: every entry whose name contains
  * `.backup` is tombstoned; `.backup/.rmlist` names entries to remove, and
  * any other such entry is put back live under its name without the first
  * 8 bytes. The loop runs over the vector it inserts into.
  */
module Restore {
  import opened Strings
  import opened Entries
  import opened Store
  import opened Backup

  /** The entry names `.backup` occurs in. */
  predicate IsBackup(e: Entry)
  {
    Contains(e.name, BACKUP)
  }

  /** The entries put back: the backups other than the directory and the list. */
  predicate Restorable(e: Entry)
  {
    IsBackup(e) && e.name != BACKUP && e.name != RMLIST
  }

  /** A restorable name comes back as a name that sorts after it and holds
      no `.backup`, so the re-insertion lands past the loop position and is
      never visited as a backup itself. */
  predicate Safe(name: string)
  {
    |name| >= 8 && Less(name, name[8..]) && !Contains(name[8..], BACKUP)
  }

  /** What the loop needs from position `i` on. */
  ghost predicate Ready(es: seq<Entry>, i: nat)
  {
    Sorted(es) && forall k :: i <= k < |es| && Restorable(es[k]) ==> Safe(es[k].name)
  }

  /** The entry a backup is restored as: the name from its ninth byte on, live. */
  function Restored(f: Entry): (n: Entry)
    requires |f.name| >= 8
    ensures n.data == f.data && n.mode == f.mode && n.uid == f.uid && n.gid == f.gid && !n.remove
    ensures BACKUP_PREFIX + n.name == f.name <== f.name[..8] == BACKUP_PREFIX
  {
    f.(name := f.name[8..], remove := false)
  }

  /** The names the `.rmlist` loop visits: one NUL-terminated name at a
      time, the last one ending at the payload end. */
  function RmNames(s: string): (ns: seq<string>)
    decreases |s|
  {
    if |s| == 0 then []
    else
      var k := Find(s, NUL);
      [s[..k]] + (if k < |s| then RmNames(s[k + 1..]) else [])
  }

  /** Reading the list back gives the names written into it. */
  lemma {:induction false} RmNamesTerminated(ns: seq<string>)
    requires forall k :: 0 <= k < |ns| ==> NUL !in ns[k]
    ensures RmNames(Terminated(ns)) == ns
    decreases |ns|
  {
    if |ns| > 0 {
      var s := Terminated(ns);
      var n := ns[0];
      assert s == n + [NUL] + Terminated(ns[1..]);
      FindAt(s, NUL, |n|);
      assert s[..|n|] == n && s[|n| + 1..] == Terminated(ns[1..]);
      assert forall k :: 0 <= k < |ns[1..]| ==> ns[1..][k] == ns[k + 1];
      RmNamesTerminated(ns[1..]);
    }
  }

  /** Whether the `k`-th entry is the first one with its name. */
  predicate FirstOf(es: seq<Entry>, k: nat)
    requires k < |es|
  {
    forall j :: 0 <= j < k ==> es[j].name != es[k].name
  }

  /** The vector after `cpio_rm(0, n, v)` for every listed name `n`: the
      first entry of each listed name is marked, nothing else changes. */
  function RmAll(es: seq<Entry>, ns: seq<string>): (r: seq<Entry>)
    ensures |r| == |es|
  {
    seq(|es|, k requires 0 <= k < |es| => es[k].(remove := es[k].remove || (es[k].name in ns && FirstOf(es, k))))
  }

  /** The body of the loop at position `i`. */
  function RestoreStep(es: seq<Entry>, i: nat): (r: seq<Entry>)
    requires i < |es|
  {
    var f := es[i];
    if !IsBackup(f) then es
    else
      var es1 := es[i := f.(remove := true)];
      if f.name == BACKUP then es1
      else if f.name == RMLIST then RmAll(es1, RmNames(f.data))
      else
        BackupLength(f.name);
        Inserted(es1, Restored(f))
  }

  /** A name holding `.backup` other than `.backup` itself is at least 8 long. */
  lemma {:induction false} BackupLength(name: string)
    requires Contains(name, BACKUP) && name != BACKUP
    ensures |name| >= 8
  {
    ContainsAt(name, BACKUP);
    var k :| 0 <= k <= |name| && HasPrefix(BACKUP, name[k..]);
  }

  /** How many entries from the loop position on name a backup. */
  function Count(es: seq<Entry>): (c: nat)
    ensures c <= |es|
  {
    if |es| == 0 then 0 else (if IsBackup(es[0]) then 1 else 0) + Count(es[1..])
  }

  /** The loop of `cpio_restore` from position `i`. */
  function RestoreFrom(es: seq<Entry>, i: nat): (r: seq<Entry>)
    requires i <= |es| && Ready(es, i)
    decreases Count(es[i..]), |es| - i
  {
    if i == |es| then es
    else
      StepReady(es, i);
      RestoreFrom(RestoreStep(es, i), i + 1)
  }

  /** What one turn at position `i` leaves behind when it turned `es` into
      `r`: the loop is ready at the next position, the names up to the
      position stand where they stood, and as many backups lie ahead. */
  ghost predicate StepPost(es: seq<Entry>, i: nat, r: seq<Entry>)
  {
    i < |es| && i < |r| && Ready(r, i + 1) && SameNames(r[..i + 1], es[..i + 1]) &&
    Count(r[i + 1..]) == Count(es[i + 1..])
  }

  /** One turn keeps the loop ready and makes progress: fewer backups lie
      ahead or, with as many, fewer entries. */
  lemma {:induction false} StepReady(es: seq<Entry>, i: nat)
    requires i < |es| && Ready(es, i)
    ensures var r := RestoreStep(es, i);
      StepPost(es, i, r) &&
      (Count(r[i + 1..]) < Count(es[i..]) || (Count(r[i + 1..]) == Count(es[i..]) && |r| - (i + 1) < |es| - i))
  {
    assert es[i..][0] == es[i] && es[i..][1..] == es[i + 1..];
    var f := es[i];
    if !IsBackup(f) {
      ReadyLater(es, i);
      SameNamesRefl(es[..i + 1]);
    } else {
      var es1 := es[i := f.(remove := true)];
      TombstonePost(es, i);
      if f.name == BACKUP {
      } else if f.name == RMLIST {
        RmAllNames(es1, RmNames(f.data));
        SameNamesPost(es, i, es1, RmAll(es1, RmNames(f.data)));
      } else {
        BackupLength(f.name);
        InsertPost(es, i, es1, Restored(f));
      }
    }
  }

  lemma {:induction false} SameNamesRefl(a: seq<Entry>)
    ensures SameNames(a, a)
  {
  }

  lemma {:induction false} TombstonePost(es: seq<Entry>, i: nat)
    requires i < |es| && Ready(es, i)
    ensures StepPost(es, i, es[i := es[i].(remove := true)])
  {
    var es1 := es[i := es[i].(remove := true)];
    assert SameNames(es, es1);
    SameNamesReady(es, es1, i + 1);
    SameNamesCount(es[i + 1..], es1[i + 1..]);
    assert SameNames(es1[..i + 1], es[..i + 1]) by {
      assert forall k :: 0 <= k <= i ==> es1[..i + 1][k] == es1[k] && es[..i + 1][k] == es[k];
    }
  }

  lemma {:induction false} SameNamesPost(es: seq<Entry>, i: nat, es1: seq<Entry>, r: seq<Entry>)
    requires StepPost(es, i, es1) && SameNames(es1, r)
    ensures StepPost(es, i, r)
  {
    SameNamesReady(es1, r, i + 1);
    SameNamesCount(es1[i + 1..], r[i + 1..]);
    assert SameNames(r[..i + 1], es[..i + 1]) by {
      assert forall k :: 0 <= k <= i ==> r[..i + 1][k] == r[k] && es1[..i + 1][k] == es1[k];
    }
  }

  lemma {:induction false} InsertPost(es: seq<Entry>, i: nat, es1: seq<Entry>, n: Entry)
    requires StepPost(es, i, es1) && i < |es1| && es1[i].name == es[i].name
    requires Restorable(es[i]) && Safe(es[i].name) && n.name == es[i].name[8..]
    ensures StepPost(es, i, Inserted(es1, n))
  {
    assert es1[..i + 1][i] == es1[i];
    InsertReady(es1, i, n);
  }

  lemma {:induction false} ReadyLater(es: seq<Entry>, i: nat)
    requires i < |es| && Ready(es, i)
    ensures Ready(es, i + 1)
  {
  }

  /** The same names in the same places. */
  ghost predicate SameNames(a: seq<Entry>, b: seq<Entry>)
  {
    |a| == |b| && forall k :: 0 <= k < |a| ==> a[k].name == b[k].name
  }

  lemma {:induction false} SameNamesReady(a: seq<Entry>, b: seq<Entry>, i: nat)
    requires SameNames(a, b) && Ready(a, i) && i <= |a|
    ensures Ready(b, i) && SameNames(a[i..], b[i..])
  {
    forall x, y | 0 <= x < y < |b| ensures !Less(b[y].name, b[x].name) {
      assert a[x].name == b[x].name && a[y].name == b[y].name;
    }
    forall k | i <= k < |b| && Restorable(b[k]) ensures Safe(b[k].name) {
      assert a[k].name == b[k].name;
    }
    forall k | 0 <= k < |a| - i ensures a[i..][k].name == b[i..][k].name {
      assert a[i..][k] == a[i + k] && b[i..][k] == b[i + k];
    }
  }

  lemma {:induction false} SameNamesCount(a: seq<Entry>, b: seq<Entry>)
    requires SameNames(a, b)
    ensures Count(a) == Count(b)
    decreases |a|
  {
    if |a| > 0 {
      SameNamesCount(a[1..], b[1..]);
    }
  }

  /** Removal by name changes flags only. */
  lemma {:induction false} RmAllNames(es: seq<Entry>, ns: seq<string>)
    ensures SameNames(es, RmAll(es, ns))
  {
  }

  lemma {:induction false} CountAppend(a: seq<Entry>, b: seq<Entry>)
    ensures Count(a + b) == Count(a) + Count(b)
    decreases |a|
  {
    if |a| > 0 {
      assert (a + b)[1..] == a[1..] + b;
      CountAppend(a[1..], b);
    } else {
      assert a + b == b;
    }
  }

  /** Re-inserting a restored entry past the loop position keeps the loop
      ready and adds no backup ahead of it. */
  lemma {:induction false} InsertReady(es1: seq<Entry>, i: nat, n: Entry)
    requires i < |es1| && Ready(es1, i + 1)
    requires Less(es1[i].name, n.name) && !Contains(n.name, BACKUP)
    ensures var r := Inserted(es1, n);
      i < |r| && Ready(r, i + 1) && r[..i + 1] == es1[..i + 1] && Count(r[i + 1..]) == Count(es1[i + 1..])
  {
    var k := InsertAt(es1, n.name);
    InsertPastPosition(es1, i, n);
    InsertedSorted(es1, n);
    if k < |es1| && es1[k].name == n.name {
      InsertReplaceReady(es1, i, n, k);
    } else {
      InsertedBefore(es1, n);
      InsertedLast(es1, n);
      InsertNewReady(es1, i, n, k);
    }
  }

  /** The insertion point lies past the loop position. */
  lemma {:induction false} InsertPastPosition(es1: seq<Entry>, i: nat, n: Entry)
    requires i < |es1| && Sorted(es1) && Less(es1[i].name, n.name)
    ensures InsertAt(es1, n.name) > i
  {
    forall j | 0 <= j <= i ensures Less(es1[j].name, n.name) {
      if j < i {
        LessTotal(es1[j].name, es1[i].name);
        if es1[j].name != es1[i].name {
          LessTransitive(es1[j].name, es1[i].name, n.name);
        }
      }
    }
  }

  lemma {:induction false} InsertReplaceReady(es1: seq<Entry>, i: nat, n: Entry, k: nat)
    requires i < k < |es1| && Ready(es1, i + 1) && es1[k].name == n.name
    requires Inserted(es1, n) == es1[k := n] && Sorted(es1[k := n])
    ensures var r := Inserted(es1, n);
      Ready(r, i + 1) && r[..i + 1] == es1[..i + 1] && Count(r[i + 1..]) == Count(es1[i + 1..])
  {
    var r := es1[k := n];
    assert SameNames(es1, r);
    SameNamesReady(es1, r, i + 1);
    SameNamesCount(es1[i + 1..], r[i + 1..]);
  }

  lemma {:induction false} InsertNewReady(es1: seq<Entry>, i: nat, n: Entry, k: nat)
    requires i < k <= |es1| && Ready(es1, i + 1) && !Contains(n.name, BACKUP)
    requires Inserted(es1, n) == es1[..k] + [n] + es1[k..] && Sorted(es1[..k] + [n] + es1[k..])
    ensures var r := Inserted(es1, n);
      Ready(r, i + 1) && r[..i + 1] == es1[..i + 1] && Count(r[i + 1..]) == Count(es1[i + 1..])
  {
    var r := es1[..k] + [n] + es1[k..];
    assert r[..i + 1] == es1[..i + 1];
    NewCount(es1, i, n, k, r);
    NewSafe(es1, i, n, k, r);
  }

  lemma {:induction false} NewCount(es1: seq<Entry>, i: nat, n: Entry, k: nat, r: seq<Entry>)
    requires i < k <= |es1| && !Contains(n.name, BACKUP) && r == es1[..k] + [n] + es1[k..]
    ensures Count(r[i + 1..]) == Count(es1[i + 1..])
  {
    var a, b := es1[i + 1..k], es1[k..];
    assert r[i + 1..] == a + ([n] + b);
    assert es1[i + 1..] == a + b;
    CountAppend(a, [n] + b);
    CountAppend([n], b);
    CountAppend(a, b);
    assert Count([n]) == 0 by { assert [n][1..] == []; }
  }

  lemma {:induction false} NewSafe(es1: seq<Entry>, i: nat, n: Entry, k: nat, r: seq<Entry>)
    requires i < k <= |es1| && Ready(es1, i + 1) && !Contains(n.name, BACKUP) && r == es1[..k] + [n] + es1[k..]
    ensures forall j :: i + 1 <= j < |r| && Restorable(r[j]) ==> Safe(r[j].name)
  {
    forall j | i + 1 <= j < |r| && Restorable(r[j]) ensures Safe(r[j].name) {
      if j < k {
        assert r[j] == es1[j];
      } else if j > k {
        assert r[j] == es1[j - 1];
      }
    }
  }

  const MAGIC_MASK: string := "sbin/magic_mask.sh"
  const MAGISK: string := "magisk"

  /** The vector `cpio_restore` leaves: the loop, then the known leftovers
      of an install marked for removal. Every backup ends up tombstoned and
      the vector stays in name order. */
  function RestoreResult(es: seq<Entry>): (r: seq<Entry>)
    requires Ready(es, 0)
    ensures |r| >= |es|
    ensures Sorted(r)
    ensures forall k :: 0 <= k < |r| && IsBackup(r[k]) ==> r[k].remove
  {
    var l := RestoreFrom(es, 0);
    RestoreFromFacts(es, 0);
    var r1 := Removed(l, false, MAGIC_MASK);
    var r2 := Removed(r1, false, MAGISK_RC);
    var r := Removed(r2, false, MAGISK);
    RemovedMore(l, MAGIC_MASK);
    RemovedMore(r1, MAGISK_RC);
    RemovedMore(r2, MAGISK);
    RemovedSorted(l, false, MAGIC_MASK);
    RemovedSorted(r1, false, MAGISK_RC);
    RemovedSorted(r2, false, MAGISK);
    MoreMarkedTombstoned(l, r1, |l|);
    MoreMarkedTombstoned(r1, r2, |l|);
    MoreMarkedTombstoned(r2, r, |l|);
    r
  }

  /** Every backup before position `i` is tombstoned. */
  ghost predicate Tombstoned(es: seq<Entry>, i: nat)
  {
    forall k :: 0 <= k < i && k < |es| && IsBackup(es[k]) ==> es[k].remove
  }

  /** `b` is `a` with perhaps more entries marked for removal. */
  ghost predicate MoreMarked(a: seq<Entry>, b: seq<Entry>)
  {
    |a| == |b| && forall k :: 0 <= k < |a| ==> a[k].name == b[k].name && (a[k].remove ==> b[k].remove)
  }

  lemma {:induction false} MoreMarkedTombstoned(a: seq<Entry>, b: seq<Entry>, i: nat)
    requires MoreMarked(a, b) && Tombstoned(a, i)
    ensures Tombstoned(b, i)
  {
    forall k | 0 <= k < i && k < |b| && IsBackup(b[k]) ensures b[k].remove {
      assert a[k].name == b[k].name;
    }
  }

  lemma {:induction false} RemovedMore(es: seq<Entry>, entry: string)
    ensures MoreMarked(es, Removed(es, false, entry))
  {
    RemovedMarks(es, false, entry);
  }

  lemma {:induction false} RmAllMore(es: seq<Entry>, ns: seq<string>)
    ensures MoreMarked(es, RmAll(es, ns))
  {
  }

  /** One turn tombstones the backup it visits and unmarks none before it. */
  lemma {:induction false} StepTombstoned(es: seq<Entry>, i: nat)
    requires i < |es| && Ready(es, i) && Tombstoned(es, i)
    ensures Tombstoned(RestoreStep(es, i), i + 1)
  {
    var f := es[i];
    if IsBackup(f) {
      var es1 := es[i := f.(remove := true)];
      assert Tombstoned(es1, i + 1);
      if f.name == RMLIST {
        RmAllMore(es1, RmNames(f.data));
        MoreMarkedTombstoned(es1, RmAll(es1, RmNames(f.data)), i + 1);
      } else if f.name != BACKUP {
        BackupLength(f.name);
        TombstonePost(es, i);
        InsertReady(es1, i, Restored(f));
        var r := Inserted(es1, Restored(f));
        forall k | 0 <= k < i + 1 && k < |r| && IsBackup(r[k]) ensures r[k].remove {
          assert r[..i + 1][k] == es1[..i + 1][k];
        }
      }
    }
  }

  /** The loop keeps the vector sorted, never shortens it and leaves every
      backup it passed tombstoned. */
  lemma {:induction false} RestoreFromFacts(es: seq<Entry>, i: nat)
    requires i <= |es| && Ready(es, i) && Tombstoned(es, i)
    ensures var r := RestoreFrom(es, i);
      |r| >= |es| && Sorted(r) && Tombstoned(r, |r|)
    decreases Count(es[i..]), |es| - i
  {
    if i < |es| {
      StepReady(es, i);
      StepTombstoned(es, i);
      StepLength(es, i);
      RestoreFromFacts(RestoreStep(es, i), i + 1);
    }
  }

  lemma {:induction false} StepLength(es: seq<Entry>, i: nat)
    requires i < |es|
    ensures |RestoreStep(es, i)| >= |es|
  {
    var f := es[i];
    if IsBackup(f) && f.name != BACKUP && f.name != RMLIST {
      BackupLength(f.name);
      var es1 := es[i := f.(remove := true)];
      var k := InsertAt(es1, f.name[8..]);
      InsertedReplace(es1, Restored(f));
      InsertedBefore(es1, Restored(f));
      InsertedLast(es1, Restored(f));
    }
  }

  /** A backup written by `cpio_backup` comes back as the entry it saved. */
  lemma {:induction false} RestoreUndoesBackup(m: Entry)
    ensures Restored(Backed(m)) == m.(remove := false)
  {
    assert (BACKUP_PREFIX + m.name)[8..] == m.name;
  }

  /** The count of backups is zero exactly when no entry names one. */
  lemma {:induction false} CountExists(es: seq<Entry>)
    ensures Count(es) > 0 <==> exists k :: 0 <= k < |es| && IsBackup(es[k])
    decreases |es|
  {
    if |es| > 0 {
      CountExists(es[1..]);
      if exists k :: 0 <= k < |es[1..]| && IsBackup(es[1..][k]) {
        var k :| 0 <= k < |es[1..]| && IsBackup(es[1..][k]);
        assert es[k + 1] == es[1..][k];
      }
      if exists k :: 0 <= k < |es| && IsBackup(es[k]) {
        var k :| 0 <= k < |es| && IsBackup(es[k]);
        if k > 0 { assert es[1..][k - 1] == es[k]; }
      }
    }
  }

  /** What the loop of the method needs from one turn. */
  lemma {:induction false} LoopStep(es: seq<Entry>, i: nat)
    requires i < |es| && Ready(es, i)
    ensures var r := RestoreStep(es, i);
      i < |r| && Ready(r, i + 1) && Count(r) == Count(es) &&
      Count(r[..i + 1]) == Count(es[..i]) + (if IsBackup(es[i]) then 1 else 0) &&
      RestoreFrom(es, i) == RestoreFrom(r, i + 1) &&
      (Count(r[i + 1..]) < Count(es[i..]) || (Count(r[i + 1..]) == Count(es[i..]) && |r| - (i + 1) < |es| - i))
  {
    var r := RestoreStep(es, i);
    StepReady(es, i);
    CountSplit(es, r, i);
  }

  /** Counting backups across a turn whose prefix names stand still. */
  lemma {:induction false} CountSplit(es: seq<Entry>, r: seq<Entry>, i: nat)
    requires i < |es| && i < |r|
    requires SameNames(r[..i + 1], es[..i + 1]) && Count(r[i + 1..]) == Count(es[i + 1..])
    ensures Count(r) == Count(es)
    ensures Count(r[..i + 1]) == Count(es[..i]) + (if IsBackup(es[i]) then 1 else 0)
  {
    SameNamesCount(r[..i + 1], es[..i + 1]);
    assert es[..i + 1] == es[..i] + [es[i]];
    CountAppend(es[..i], [es[i]]);
    assert [es[i]][1..] == [];
    assert es == es[..i + 1] + es[i + 1..];
    assert r == r[..i + 1] + r[i + 1..];
    CountAppend(es[..i + 1], es[i + 1..]);
    CountAppend(r[..i + 1], r[i + 1..]);
  }

  /** `cpio_restore`: the loop over the vector it inserts into, then the
      removal of the known leftovers. The result is 0 when some entry names
      a backup and 1 otherwise. */
  method RestoreRamdisk(rd: Ramdisk) returns (ret: int)
    requires Ready(rd.entries, 0)
    modifies rd
    ensures rd.entries == RestoreResult(old(rd.entries))
    ensures ret == 0 || ret == 1
    ensures ret == 0 <==> exists k :: 0 <= k < |old(rd.entries)| && IsBackup(old(rd.entries)[k])
  {
    ret := RestoreLoop(rd);
    rd.Rm(false, MAGIC_MASK);
    rd.Rm(false, MAGISK_RC);
    rd.Rm(false, MAGISK);
  }

  /** The `vec_for_each` loop of `cpio_restore`; its bound is re-read on
      every turn, so entries inserted past the position are visited too. */
  method RestoreLoop(rd: Ramdisk) returns (ret: int)
    requires Ready(rd.entries, 0)
    modifies rd
    ensures rd.entries == RestoreFrom(old(rd.entries), 0)
    ensures ret == 0 || ret == 1
    ensures ret == 0 <==> exists k :: 0 <= k < |old(rd.entries)| && IsBackup(old(rd.entries)[k])
  {
    ghost var es0 := rd.entries;
    ghost var total := Count(rd.entries);
    ret := 1;
    var i := 0;
    while i < |rd.entries|
      invariant i <= |rd.entries| && Ready(rd.entries, i)
      invariant RestoreFrom(rd.entries, i) == RestoreFrom(es0, 0)
      invariant Count(rd.entries) == total
      invariant ret == 0 || ret == 1
      invariant ret == 0 <==> Count(rd.entries[..i]) > 0
      decreases Count(rd.entries[i..]), |rd.entries| - i
    {
      ghost var es := rd.entries;
      LoopStep(es, i);
      if Contains(rd.entries[i].name, BACKUP) {
        ret := 0;
      }
      RestoreAt(rd, i);
      i := i + 1;
    }
    assert rd.entries[..i] == rd.entries;
    CountExists(es0);
  }

  /** The body of the loop of `cpio_restore` at position `i`, on the vector. */
  method RestoreAt(rd: Ramdisk, i: nat)
    requires i < |rd.entries|
    modifies rd
    ensures rd.entries == RestoreStep(old(rd.entries), i)
  {
    var f := rd.entries[i];
    if Contains(f.name, BACKUP) {
      rd.entries := rd.entries[i := f.(remove := true)];
      if Cmp(f.name, BACKUP) == 0 {
      } else if Cmp(f.name, RMLIST) == 0 {
        RemoveListed(rd, f.data);
      } else {
        BackupLength(f.name);
        rd.Insert(Restored(f));
      }
    }
  }

  /** The `.rmlist` loop: `cpio_rm(0, name, v)` for each NUL-terminated name,
      stepping past the name and its terminator. */
  method RemoveListed(rd: Ramdisk, data: string)
    modifies rd
    ensures rd.entries == RmAll(old(rd.entries), RmNames(data))
  {
    ghost var goal := RmAll(rd.entries, RmNames(data));
    assert Tail(data, 0) == data;
    var pos := 0;
    while pos < |data|
      invariant RmAll(rd.entries, RmNames(Tail(data, pos))) == goal
      decreases |data| + 1 - pos
    {
      pos := RemoveNameAt(rd, data, pos);
    }
    ListedDone(data, pos, rd.entries);
  }

  lemma {:induction false} ListedDone(data: string, pos: nat, es: seq<Entry>)
    requires pos >= |data|
    ensures RmAll(es, RmNames(Tail(data, pos))) == es
  {
    assert Tail(data, pos) == [];
  }

  /** One turn of the `.rmlist` loop: remove the name at `pos` and step
      past it and its terminator. */
  method RemoveNameAt(rd: Ramdisk, data: string, pos: nat) returns (next: nat)
    requires pos < |data|
    modifies rd
    ensures next > pos
    ensures RmAll(rd.entries, RmNames(Tail(data, next))) == RmAll(old(rd.entries), RmNames(Tail(data, pos)))
  {
    var len := Strlen(data, pos);
    var name := data[pos..pos + len];
    ghost var es := rd.entries;
    rd.Rm(false, name);
    next := pos + len + 1;
    ListedStep(data, pos, len, es, rd.entries, next);
  }

  /** `strlen(data + pos)`, stopped at the payload end. */
  method Strlen(data: string, pos: nat) returns (len: nat)
    requires pos < |data|
    ensures Terminates(data, pos, len)
  {
    len := 0;
    while pos + len < |data| && data[pos + len] != NUL
      invariant pos + len <= |data|
      invariant forall j :: pos <= j < pos + len ==> data[j] != NUL
    {
      len := len + 1;
    }
  }

  /** `len` bytes from `pos` on hold no NUL, and a NUL or the payload end follows. */
  predicate Terminates(data: string, pos: nat, len: nat)
  {
    pos + len <= |data| && (forall j :: pos <= j < pos + len ==> data[j] != NUL) &&
    (pos + len < |data| ==> data[pos + len] == NUL)
  }

  lemma {:induction false} StrlenFind(data: string, pos: nat, len: nat)
    requires Terminates(data, pos, len)
    ensures len == Find(data[pos..], NUL)
  {
    var t := data[pos..];
    forall j | 0 <= j < len ensures t[j] != NUL {
      assert t[j] == data[pos + j];
    }
    FindAt(t, NUL, len);
  }

  /** What is left of the payload from `pos` on. */
  function Tail(s: string, pos: nat): (t: string)
    ensures |t| <= |s|
  {
    if pos <= |s| then s[pos..] else []
  }

  /** One turn of the `.rmlist` loop removes the name at `pos`. */
  lemma {:induction false} ListedStep(data: string, pos: nat, len: nat, es: seq<Entry>, es2: seq<Entry>, next: nat)
    requires pos < |data| && Terminates(data, pos, len)
    requires es2 == Removed(es, false, data[pos..pos + len]) && next == pos + len + 1
    ensures RmAll(es2, RmNames(Tail(data, next))) == RmAll(es, RmNames(Tail(data, pos)))
  {
    NamesStep(data, pos, len, next);
    RmAllCons(es, data[pos..pos + len], RmNames(Tail(data, next)));
  }

  /** The name at `pos` heads the names left from `pos` on. */
  lemma {:induction false} NamesStep(data: string, pos: nat, len: nat, next: nat)
    requires pos < |data| && Terminates(data, pos, len) && next == pos + len + 1
    ensures RmNames(Tail(data, pos)) == [data[pos..pos + len]] + RmNames(Tail(data, next))
  {
    var t := data[pos..];
    assert Tail(data, pos) == t;
    StrlenFind(data, pos, len);
    assert t[..len] == data[pos..pos + len];
    if next <= |data| {
      RmNamesMore(t, len);
      assert t[len + 1..] == data[next..];
      assert Tail(data, next) == data[next..];
    } else {
      RmNamesLast(t, len);
      assert Tail(data, next) == [];
    }
  }

  lemma {:induction false} RmNamesMore(t: string, k: nat)
    requires |t| > 0 && k == Find(t, NUL) && k < |t|
    ensures RmNames(t) == [t[..k]] + RmNames(t[k + 1..])
  {
  }

  lemma {:induction false} RmNamesLast(t: string, k: nat)
    requires |t| > 0 && k == Find(t, NUL) && k == |t|
    ensures RmNames(t) == [t[..k]]
  {
  }

  /** Removing the names one after another, as the loop does, is marking the
      first entry of each. */
  lemma {:induction false} RmAllCons(es: seq<Entry>, n: string, ns: seq<string>)
    ensures RmAll(es, [n] + ns) == RmAll(Removed(es, false, n), ns)
  {
    var es1 := Removed(es, false, n);
    RemovedMarks(es, false, n);
    var a, b := RmAll(es, [n] + ns), RmAll(es1, ns);
    forall k | 0 <= k < |es| ensures a[k] == b[k] {
      assert es1[k].name == es[k].name;
      assert FirstOf(es1, k) == FirstOf(es, k) by {
        assert forall j :: 0 <= j < k ==> es1[j].name == es[j].name;
      }
      assert Marked(es, false, n, k) == (es[k].name == n && FirstOf(es, k));
    }
  }
}
