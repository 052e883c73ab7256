/**
  * What `cpio_restore` of jni/magiskboot/cpio.c does to each name of a
  * vector that holds every name once. Such a vector stays so under the
  * loop, so the entry standing under a name is well defined before and
  * after; the loop is then a fold of its backups over that entry, and the
  * facts the command promises (a backup comes back live, a listed name is
  * removed, the leftovers are removed) are facts about the fold.
  */
module RestoreView {
  import opened Strings
  import opened Results
  import opened Entries
  import opened Store
  import opened Backup
  import opened Restore

  // ----- the entry under a name -----

  /** No name occurs twice. */
  ghost predicate Distinct(es: seq<Entry>)
  {
    forall i, j :: 0 <= i < j < |es| ==> es[i].name != es[j].name
  }

  /** The first entry named `n`, if any. */
  function Slot(es: seq<Entry>, n: string): (r: Option<Entry>)
    ensures r.Some? ==> r.value in es && r.value.name == n
    decreases |es|
  {
    if |es| == 0 then None
    else if es[0].name == n then Some(es[0])
    else Slot(es[1..], n)
  }

  /** An entry is what stands under its name when no earlier entry has it. */
  lemma {:induction false} SlotAt(es: seq<Entry>, k: nat)
    requires k < |es| && forall j :: 0 <= j < k ==> es[j].name != es[k].name
    ensures Slot(es, es[k].name) == Some(es[k])
    decreases k
  {
    if k > 0 {
      assert es[1..][k - 1] == es[k];
      SlotAt(es[1..], k - 1);
    }
  }

  /** In a vector without repeated names, an entry of it stands under its name. */
  lemma {:induction false} SlotOf(es: seq<Entry>, e: Entry)
    requires Distinct(es) && e in es
    ensures Slot(es, e.name) == Some(e)
  {
    var k :| 0 <= k < |es| && es[k] == e;
    SlotAt(es, k);
  }

  /** The entry under a name, marked for removal. */
  function Tomb(c: Option<Entry>): (r: Option<Entry>)
    ensures r.None? <==> c.None?
    ensures r.Some? ==> r.value == c.value.(remove := true)
  {
    if c.Some? then Some(c.value.(remove := true)) else None
  }

  /** Nothing live stands under the name. */
  predicate Dead(c: Option<Entry>)
  {
    c.None? || c.value.remove
  }

  /** Two vectors with the same names in the same places, the second's
      entries related to the first's as `b[k] == a[k].(remove := ...)`. */
  ghost predicate Reflagged(a: seq<Entry>, b: seq<Entry>)
  {
    |a| == |b| && forall k :: 0 <= k < |a| ==> b[k] == a[k].(remove := b[k].remove)
  }

  lemma {:induction false} ReflaggedDistinct(a: seq<Entry>, b: seq<Entry>)
    requires Reflagged(a, b) && Distinct(a)
    ensures Distinct(b) && (StrictlySorted(a) ==> StrictlySorted(b))
  {
    forall i, j | 0 <= i < j < |b| ensures b[i].name == a[i].name && b[j].name == a[j].name {
      assert b[i] == a[i].(remove := b[i].remove) && b[j] == a[j].(remove := b[j].remove);
    }
  }

  /** Under a name held in place `k` of both, the slots are the entries there;
      under a name neither holds, both are empty. */
  lemma {:induction false} ReflaggedSlot(a: seq<Entry>, b: seq<Entry>, n: string)
    requires Reflagged(a, b) && Distinct(a)
    ensures Slot(a, n).None? <==> Slot(b, n).None?
    ensures forall k :: 0 <= k < |a| && a[k].name == n ==> Slot(a, n) == Some(a[k]) && Slot(b, n) == Some(b[k])
  {
    ReflaggedDistinct(a, b);
    forall k | 0 <= k < |a| && a[k].name == n ensures Slot(a, n) == Some(a[k]) && Slot(b, n) == Some(b[k]) {
      assert b[k] == a[k].(remove := b[k].remove);
      SlotOf(a, a[k]);
      SlotOf(b, b[k]);
    }
    if Slot(b, n).Some? {
      var k :| 0 <= k < |b| && b[k] == Slot(b, n).value;
      assert b[k] == a[k].(remove := b[k].remove);
    }
    if Slot(a, n).Some? {
      var k :| 0 <= k < |a| && a[k] == Slot(a, n).value;
    }
  }

  lemma {:induction false} StrictIsDistinct(es: seq<Entry>)
    requires StrictlySorted(es)
    ensures Distinct(es) && Sorted(es)
  {
    forall i, j | 0 <= i < j < |es| ensures es[i].name != es[j].name {
      LessIrreflexive(es[i].name);
    }
    StrictlySortedIsSorted(es);
  }

  lemma {:induction false} SortedDistinctIsStrict(es: seq<Entry>)
    requires Sorted(es) && Distinct(es)
    ensures StrictlySorted(es)
  {
    forall i, j | 0 <= i < j < |es| ensures Less(es[i].name, es[j].name) {
      LessTotal(es[i].name, es[j].name);
    }
  }

  // ----- one edit at a time -----

  /** Tombstoning place `i` kills the entry under its name and nothing else. */
  lemma {:induction false} TombSlot(es: seq<Entry>, i: nat, n: string)
    requires i < |es| && Distinct(es)
    ensures var r := es[i := es[i].(remove := true)];
      Reflagged(es, r) && Slot(r, n) == (if n == es[i].name then Tomb(Slot(es, n)) else Slot(es, n))
  {
    var r := es[i := es[i].(remove := true)];
    assert Reflagged(es, r);
    ReflaggedSlot(es, r, n);
  }

  /** `RmAll` kills the entries under the listed names. */
  lemma {:induction false} RmAllSlot(es: seq<Entry>, ns: seq<string>, n: string)
    requires Distinct(es)
    ensures var r := RmAll(es, ns);
      Reflagged(es, r) && Slot(r, n) == (if n in ns then Tomb(Slot(es, n)) else Slot(es, n))
  {
    var r := RmAll(es, ns);
    assert Reflagged(es, r);
    ReflaggedSlot(es, r, n);
    forall k | 0 <= k < |es| ensures FirstOf(es, k) {
    }
  }

  /** `cpio_rm(0, x, v)` kills the entry named `x`. */
  lemma {:induction false} RemovedSlot(es: seq<Entry>, x: string, n: string)
    requires Distinct(es)
    ensures var r := Removed(es, false, x);
      Reflagged(es, r) && Slot(r, n) == (if n == x then Tomb(Slot(es, n)) else Slot(es, n))
  {
    var r := Removed(es, false, x);
    RemovedMarks(es, false, x);
    assert Reflagged(es, r);
    ReflaggedSlot(es, r, n);
  }

  /** `cpio_vec_insert` on a strictly sorted vector: the new entry stands
      under its name, every other name keeps its entry, and the order stays
      strict. */
  lemma {:induction false} InsertedSlot(es: seq<Entry>, e: Entry, n: string)
    requires StrictlySorted(es)
    ensures StrictlySorted(Inserted(es, e))
    ensures Slot(Inserted(es, e), n) == (if n == e.name then Some(e) else Slot(es, n))
  {
    var r := Inserted(es, e);
    var k := InsertAt(es, e.name);
    StrictIsDistinct(es);
    InsertedSorted(es, e);
    if k < |es| && es[k].name == e.name {
      ReplacedDistinct(es, k, e);
      ReplacedSlot(es, k, e, n);
    } else {
      NewDistinct(es, k, e);
      NewSlot(es, k, e, n);
    }
    SortedDistinctIsStrict(r);
  }

  lemma {:induction false} ReplacedDistinct(es: seq<Entry>, k: nat, e: Entry)
    requires Distinct(es) && k < |es| && es[k].name == e.name
    ensures Distinct(es[k := e])
  {
    var b := es[k := e];
    forall i, j | 0 <= i < j < |b| ensures b[i].name != b[j].name {
      assert b[i].name == es[i].name && b[j].name == es[j].name;
    }
  }

  lemma {:induction false} ReplacedSlot(es: seq<Entry>, k: nat, e: Entry, n: string)
    requires Distinct(es) && k < |es| && es[k].name == e.name
    ensures Slot(es[k := e], n) == (if n == e.name then Some(e) else Slot(es, n))
  {
    var b := es[k := e];
    ReplacedDistinct(es, k, e);
    if n == e.name {
      assert b[k] == e;
      SlotOf(b, e);
    } else if HasName(es, n) {
      var j :| 0 <= j < |es| && es[j].name == n;
      SlotOf(es, es[j]);
      SlotOf(b, b[j]);
    } else {
      assert !HasName(b, n) by {
        forall j | 0 <= j < |b| ensures b[j].name != n {
          assert b[j].name == es[j].name;
        }
      }
    }
  }

  lemma {:induction false} NewDistinct(es: seq<Entry>, k: nat, e: Entry)
    requires StrictlySorted(es) && Distinct(es) && k == InsertAt(es, e.name)
    requires !(k < |es| && es[k].name == e.name)
    ensures Distinct(es[..k] + [e] + es[k..]) && !HasName(es, e.name)
  {
    var b := es[..k] + [e] + es[k..];
    NotHeld(es, k, e);
    forall i, j | 0 <= i < j < |b| ensures b[i].name != b[j].name {
      if j < k {
        assert b[i] == es[i] && b[j] == es[j];
      } else if j == k {
        assert b[i] == es[i] && b[j] == e;
      } else if i < k {
        assert b[i] == es[i] && b[j] == es[j - 1];
      } else if i == k {
        assert b[i] == e && b[j] == es[j - 1];
      } else {
        assert b[i] == es[i - 1] && b[j] == es[j - 1];
      }
    }
  }

  /** A name the insertion scan does not stop on is in no place. */
  lemma {:induction false} NotHeld(es: seq<Entry>, k: nat, e: Entry)
    requires StrictlySorted(es) && k == InsertAt(es, e.name)
    requires !(k < |es| && es[k].name == e.name)
    ensures !HasName(es, e.name)
  {
    forall j | 0 <= j < |es| ensures es[j].name != e.name {
      if j < k {
        LessIrreflexive(e.name);
      } else if j > k {
        assert Less(es[k].name, es[j].name);
      }
    }
  }

  lemma {:induction false} NewSlot(es: seq<Entry>, k: nat, e: Entry, n: string)
    requires Distinct(es) && k <= |es| && !HasName(es, e.name) && Distinct(es[..k] + [e] + es[k..])
    ensures Slot(es[..k] + [e] + es[k..], n) == (if n == e.name then Some(e) else Slot(es, n))
  {
    var b := es[..k] + [e] + es[k..];
    assert b[k] == e;
    if n == e.name {
      SlotOf(b, e);
    } else if HasName(es, n) {
      var j :| 0 <= j < |es| && es[j].name == n;
      SlotOf(es, es[j]);
      if j < k { assert b[j] == es[j]; } else { assert b[j + 1] == es[j]; }
      SlotOf(b, es[j]);
    } else {
      assert !HasName(b, n) by {
        forall j | 0 <= j < |b| ensures b[j].name != n {
          if j < k { assert b[j] == es[j]; } else if j > k { assert b[j] == es[j - 1]; }
        }
      }
    }
  }

  // ----- the loop as a fold of its backups -----

  /** The backups of a stretch of the vector, in order, flags cleared (the
      loop's treatment of a backup does not depend on its flag). */
  function Backups(s: seq<Entry>): (bs: seq<Entry>)
    ensures |bs| <= |s|
    ensures forall m :: 0 <= m < |bs| ==> IsBackup(bs[m]) && !bs[m].remove
    decreases |s|
  {
    if |s| == 0 then []
    else (if IsBackup(s[0]) then [s[0].(remove := false)] else []) + Backups(s[1..])
  }

  /** The backup `f` restores the name `n`. */
  predicate Restores(f: Entry, n: string)
  {
    Restorable(f) && |f.name| >= 8 && f.name[8..] == n
  }

  /** The backup `f` kills what stands under `n`: it is that entry, or it is
      the list and names it. */
  predicate Kills(f: Entry, n: string)
  {
    f.name == n || (f.name == RMLIST && n in RmNames(f.data))
  }

  /** What visiting the backup `f` does to the entry under `n`. */
  function Touch(f: Entry, n: string, c: Option<Entry>): (r: Option<Entry>)
    ensures !Kills(f, n) && !Restores(f, n) ==> r == c
    ensures Restores(f, n) && f.name != n ==> r == Some(Restored(f))
    ensures Kills(f, n) && !Restores(f, n) ==> Dead(r)
  {
    var c1 := if f.name == n then Tomb(c) else c;
    if f.name == BACKUP then c1
    else if f.name == RMLIST then (if n in RmNames(f.data) then Tomb(c1) else c1)
    else if Restores(f, n) then Some(Restored(f))
    else c1
  }

  /** The backups `bs`, visited in order, acting on the entry under `n`. */
  function Effect(bs: seq<Entry>, n: string, c: Option<Entry>): (r: Option<Entry>)
    decreases |bs|
  {
    if |bs| == 0 then c else Effect(bs[1..], n, Touch(bs[0], n, c))
  }

  /** One turn of the loop, seen under one name: a backup touches it, any
      other entry leaves it; the vector keeps every name once. */
  lemma {:induction false} StepSlot(es: seq<Entry>, i: nat, n: string)
    requires i < |es| && Ready(es, i) && StrictlySorted(es)
    ensures StrictlySorted(RestoreStep(es, i))
    ensures Slot(RestoreStep(es, i), n) == (if IsBackup(es[i]) then Touch(es[i], n, Slot(es, n)) else Slot(es, n))
  {
    var f := es[i];
    StrictIsDistinct(es);
    if IsBackup(f) {
      var es1 := es[i := f.(remove := true)];
      TombSlot(es, i, n);
      ReflaggedDistinct(es, es1);
      if f.name == RMLIST {
        RmAllSlot(es1, RmNames(f.data), n);
        ReflaggedDistinct(es1, RmAll(es1, RmNames(f.data)));
      } else if f.name != BACKUP {
        BackupLength(f.name);
        InsertedSlot(es1, Restored(f), n);
      }
    }
  }

  /** A turn leaves the backups ahead of the position as they were: it only
      re-flags entries and inserts a non-backup past the position. */
  lemma {:induction false} StepBackups(es: seq<Entry>, i: nat)
    requires i < |es| && Ready(es, i)
    ensures i < |RestoreStep(es, i)|
    ensures Backups(RestoreStep(es, i)[i + 1..]) == Backups(es[i + 1..])
  {
    var f := es[i];
    StepLength(es, i);
    if IsBackup(f) {
      var es1 := es[i := f.(remove := true)];
      assert es1[i + 1..] == es[i + 1..];
      if f.name == RMLIST {
        var r := RmAll(es1, RmNames(f.data));
        assert Reflagged(es1[i + 1..], r[i + 1..]);
        ReflaggedBackups(es1[i + 1..], r[i + 1..]);
      } else if f.name != BACKUP {
        BackupLength(f.name);
        var e := Restored(f);
        TombstonePost(es, i);
        InsertPastPosition(es1, i, e);
        InsertedBackups(es1, i, e);
      }
    }
  }

  /** Inserting a non-backup past position `i` adds no backup after it. */
  lemma {:induction false} InsertedBackups(es1: seq<Entry>, i: nat, e: Entry)
    requires i < InsertAt(es1, e.name) && !IsBackup(e)
    ensures i < |Inserted(es1, e)|
    ensures Backups(Inserted(es1, e)[i + 1..]) == Backups(es1[i + 1..])
  {
    var k := InsertAt(es1, e.name);
    if k < |es1| && es1[k].name == e.name {
      var r := es1[k := e];
      assert Inserted(es1, e) == r;
      UpdateAround(es1, i, k, e);
      ThreeBackups(es1[i + 1..k], es1[k], e, es1[k + 1..]);
    } else {
      var r := es1[..k] + [e] + es1[k..];
      assert Inserted(es1, e) == r;
      InsertAround(es1, i, k, e);
      BackupsAppend(es1[i + 1..k], es1[k..]);
      BackupsAppend(es1[i + 1..k], [e] + es1[k..]);
      BackupsCons(e, es1[k..]);
    }
  }

  /** Swapping one non-backup for another between two stretches leaves the backups. */
  lemma {:induction false} ThreeBackups(a: seq<Entry>, x: Entry, y: Entry, c: seq<Entry>)
    requires !IsBackup(x) && !IsBackup(y)
    ensures Backups(a + ([x] + c)) == Backups(a + ([y] + c))
  {
    BackupsAppend(a, [x] + c);
    BackupsAppend(a, [y] + c);
    BackupsCons(x, c);
    BackupsCons(y, c);
  }

  lemma {:induction false} UpdateAround<T>(s: seq<T>, i: nat, k: nat, x: T)
    requires i < k < |s|
    ensures s[i + 1..] == s[i + 1..k] + ([s[k]] + s[k + 1..])
    ensures s[k := x][i + 1..] == s[i + 1..k] + ([x] + s[k + 1..])
  {
  }

  lemma {:induction false} InsertAround<T>(s: seq<T>, i: nat, k: nat, x: T)
    requires i < k <= |s|
    ensures s[i + 1..] == s[i + 1..k] + s[k..]
    ensures (s[..k] + [x] + s[k..])[i + 1..] == s[i + 1..k] + ([x] + s[k..])
  {
  }

  lemma {:induction false} BackupsCons(x: Entry, s: seq<Entry>)
    ensures Backups([x] + s) == (if IsBackup(x) then [x.(remove := false)] else []) + Backups(s)
  {
    assert ([x] + s)[0] == x && ([x] + s)[1..] == s;
  }

  lemma {:induction false} BackupsAppend(a: seq<Entry>, b: seq<Entry>)
    ensures Backups(a + b) == Backups(a) + Backups(b)
    decreases |a|
  {
    if |a| == 0 {
      assert a + b == b;
    } else {
      assert (a + b)[0] == a[0] && (a + b)[1..] == a[1..] + b;
      BackupsAppend(a[1..], b);
      Regroup(if IsBackup(a[0]) then [a[0].(remove := false)] else [], Backups(a[1..]), Backups(b));
    }
  }

  lemma {:induction false} ReflaggedBackups(a: seq<Entry>, b: seq<Entry>)
    requires Reflagged(a, b)
    ensures Backups(a) == Backups(b)
    decreases |a|
  {
    if |a| > 0 {
      assert b[0] == a[0].(remove := b[0].remove);
      assert Reflagged(a[1..], b[1..]) by {
        forall k | 0 <= k < |a| - 1 ensures b[1..][k] == a[1..][k].(remove := b[1..][k].remove) {
          assert b[1..][k] == b[k + 1] && a[1..][k] == a[k + 1];
        }
      }
      ReflaggedBackups(a[1..], b[1..]);
    }
  }

  /** The backups of a stretch around a backup at place `k`. */
  lemma {:induction false} BackupsAround(es: seq<Entry>, k: nat)
    requires k < |es| && IsBackup(es[k])
    ensures Backups(es) == Backups(es[..k]) + ([es[k].(remove := false)] + Backups(es[k + 1..]))
  {
    assert es == es[..k] + ([es[k]] + es[k + 1..]);
    BackupsAppend(es[..k], [es[k]] + es[k + 1..]);
    BackupsCons(es[k], es[k + 1..]);
  }

  /** The loop from position `i` is the fold of the backups from `i` on over
      the entry under each name. */
  lemma {:induction false} LoopSlot(es: seq<Entry>, i: nat, n: string)
    requires i <= |es| && Ready(es, i) && StrictlySorted(es)
    ensures StrictlySorted(RestoreFrom(es, i))
    ensures Slot(RestoreFrom(es, i), n) == Effect(Backups(es[i..]), n, Slot(es, n))
    decreases Count(es[i..]), |es| - i
  {
    if i == |es| {
      assert es[i..] == [];
    } else {
      var r := RestoreStep(es, i);
      StepReady(es, i);
      StepSlot(es, i, n);
      StepBackups(es, i);
      LoopSlot(r, i + 1, n);
      RestoreFromUnfold(es, i);
      SlotFold(es, i, n, r);
    }
  }

  lemma {:induction false} RestoreFromUnfold(es: seq<Entry>, i: nat)
    requires i < |es| && Ready(es, i)
    ensures i < |RestoreStep(es, i)| && Ready(RestoreStep(es, i), i + 1)
    ensures RestoreFrom(es, i) == RestoreFrom(RestoreStep(es, i), i + 1)
  {
    StepReady(es, i);
  }

  /** Folding the visited entry in front of the rest of the fold. */
  lemma {:induction false} SlotFold(es: seq<Entry>, i: nat, n: string, r: seq<Entry>)
    requires i < |es| && i < |r|
    requires Slot(r, n) == (if IsBackup(es[i]) then Touch(es[i], n, Slot(es, n)) else Slot(es, n))
    requires Backups(r[i + 1..]) == Backups(es[i + 1..])
    ensures Effect(Backups(r[i + 1..]), n, Slot(r, n)) == Effect(Backups(es[i..]), n, Slot(es, n))
  {
    assert es[i..] == [es[i]] + es[i + 1..];
    BackupsCons(es[i], es[i + 1..]);
    if IsBackup(es[i]) {
      var g := es[i].(remove := false);
      assert Touch(g, n, Slot(es, n)) == Touch(es[i], n, Slot(es, n));
      EffectCons(g, Backups(es[i + 1..]), n, Slot(es, n));
    } else {
      assert Backups(es[i..]) == Backups(es[i + 1..]);
    }
  }

  lemma {:induction false} EffectCons(g: Entry, bs: seq<Entry>, n: string, c: Option<Entry>)
    ensures Effect([g] + bs, n, c) == Effect(bs, n, Touch(g, n, c))
  {
    assert ([g] + bs)[0] == g && ([g] + bs)[1..] == bs;
  }

  /** The known leftovers `cpio_restore` removes at the end. */
  predicate Leftover(n: string)
  {
    n == MAGIC_MASK || n == MAGISK_RC || n == MAGISK
  }

  /** `cpio_restore` on a vector holding every name once: under each name
      stands the fold of all its backups, killed when it is a leftover. */
  lemma {:induction false} ResultSlot(es: seq<Entry>, n: string)
    requires Ready(es, 0) && StrictlySorted(es)
    ensures Distinct(RestoreResult(es))
    ensures var c := Effect(Backups(es), n, Slot(es, n));
      Slot(RestoreResult(es), n) == (if Leftover(n) then Tomb(c) else c)
  {
    var l := RestoreFrom(es, 0);
    LoopSlot(es, 0, n);
    assert es[0..] == es;
    StrictIsDistinct(l);
    var r1 := Removed(l, false, MAGIC_MASK);
    RemovedSlot(l, MAGIC_MASK, n);
    ReflaggedDistinct(l, r1);
    var r2 := Removed(r1, false, MAGISK_RC);
    RemovedSlot(r1, MAGISK_RC, n);
    ReflaggedDistinct(r1, r2);
    RemovedSlot(r2, MAGISK, n);
    ReflaggedDistinct(r2, Removed(r2, false, MAGISK));
  }

  // ----- facts about the fold -----

  /** No backup of `bs` kills or restores `n`. */
  ghost predicate Untouching(bs: seq<Entry>, n: string)
  {
    forall m :: 0 <= m < |bs| ==> !Kills(bs[m], n) && !Restores(bs[m], n)
  }

  /** No backup of `bs` restores `n`. */
  ghost predicate NoRestore(bs: seq<Entry>, n: string)
  {
    forall m :: 0 <= m < |bs| ==> !Restores(bs[m], n)
  }

  /** Backups that neither kill nor restore `n` leave it alone. */
  lemma {:induction false} EffectUntouched(bs: seq<Entry>, n: string, c: Option<Entry>)
    requires Untouching(bs, n)
    ensures Effect(bs, n, c) == c
    decreases |bs|
  {
    if |bs| > 0 {
      assert Untouching(bs[1..], n) by {
        forall m | 0 <= m < |bs| - 1 ensures !Kills(bs[1..][m], n) && !Restores(bs[1..][m], n) {
          assert bs[1..][m] == bs[m + 1];
        }
      }
      EffectUntouched(bs[1..], n, c);
    }
  }

  /** Without a backup that restores `n`, nothing comes back to life under it. */
  lemma {:induction false} EffectStaysDead(bs: seq<Entry>, n: string, c: Option<Entry>)
    requires NoRestore(bs, n) && Dead(c)
    ensures Dead(Effect(bs, n, c))
    decreases |bs|
  {
    if |bs| > 0 {
      assert NoRestore(bs[1..], n) by {
        forall m | 0 <= m < |bs| - 1 ensures !Restores(bs[1..][m], n) {
          assert bs[1..][m] == bs[m + 1];
        }
      }
      EffectStaysDead(bs[1..], n, Touch(bs[0], n, c));
    }
  }

  /** A backup that kills `n`, followed only by backups that do not restore
      it, leaves it dead. */
  lemma {:induction false} EffectKilled(p: seq<Entry>, g: Entry, q: seq<Entry>, n: string, c: Option<Entry>)
    requires Kills(g, n) && !Restores(g, n) && NoRestore(q, n)
    ensures Dead(Effect(p + ([g] + q), n, c))
  {
    EffectAppend(p, [g] + q, n, c);
    var c1 := Effect(p, n, c);
    EffectCons(g, q, n, c1);
    EffectStaysDead(q, n, Touch(g, n, c1));
  }

  /** A backup that restores `n`, followed only by backups that do not touch
      it, leaves its restored entry there. */
  lemma {:induction false} EffectRestored(p: seq<Entry>, g: Entry, q: seq<Entry>, n: string, c: Option<Entry>)
    requires Restores(g, n) && g.name != n && Untouching(q, n)
    ensures Effect(p + ([g] + q), n, c) == Some(Restored(g))
  {
    EffectAppend(p, [g] + q, n, c);
    var c1 := Effect(p, n, c);
    EffectCons(g, q, n, c1);
    EffectUntouched(q, n, Touch(g, n, c1));
  }

  /** When every backup touching `n` is one that restores it, its restored
      entry stands under `n` in the end. */
  lemma {:induction false} EffectOnlyRestorer(bs: seq<Entry>, n: string, c: Option<Entry>, f: Entry)
    requires f in bs && Restores(f, n) && f.name != n
    requires forall m :: 0 <= m < |bs| && (Kills(bs[m], n) || Restores(bs[m], n)) ==> bs[m] == f
    ensures Effect(bs, n, c) == Some(Restored(f))
    decreases |bs|
  {
    var t := bs[1..];
    forall m | 0 <= m < |t| && (Kills(t[m], n) || Restores(t[m], n)) ensures t[m] == f {
      assert t[m] == bs[m + 1];
    }
    if bs[0] == f {
      if f in t {
        EffectOnlyRestorer(t, n, Touch(f, n, c), f);
      } else {
        assert Untouching(t, n) by {
          forall m | 0 <= m < |t| ensures !Kills(t[m], n) && !Restores(t[m], n) {
            assert t[m] != f;
          }
        }
        EffectUntouched(t, n, Touch(f, n, c));
      }
    } else {
      assert bs[0] == bs[0] && !Kills(bs[0], n) && !Restores(bs[0], n);
      EffectOnlyRestorer(t, n, Touch(bs[0], n, c), f);
    }
  }

  /** A backup among `bs` that kills `n`, with none restoring it, leaves it dead. */
  lemma {:induction false} EffectKilledIn(bs: seq<Entry>, n: string, c: Option<Entry>, g: Entry)
    requires g in bs && Kills(g, n) && NoRestore(bs, n)
    ensures Dead(Effect(bs, n, c))
  {
    var m :| 0 <= m < |bs| && bs[m] == g;
    var q := bs[m + 1..];
    assert bs == bs[..m] + ([g] + q);
    assert NoRestore(q, n) by {
      forall i | 0 <= i < |q| ensures !Restores(q[i], n) {
        assert q[i] == bs[m + 1 + i];
      }
    }
    EffectKilled(bs[..m], g, q, n, c);
  }

  lemma {:induction false} EffectAppend(a: seq<Entry>, b: seq<Entry>, n: string, c: Option<Entry>)
    ensures Effect(a + b, n, c) == Effect(b, n, Effect(a, n, c))
    decreases |a|
  {
    if |a| == 0 {
      assert a + b == b;
    } else {
      assert (a + b)[0] == a[0] && (a + b)[1..] == a[1..] + b;
      EffectAppend(a[1..], b, n, Touch(a[0], n, c));
    }
  }

  /** Every backup the fold visits is a backup standing in the stretch. */
  lemma {:induction false} BackupsFrom(s: seq<Entry>)
    ensures forall m :: 0 <= m < |Backups(s)| ==> FromStretch(s, Backups(s)[m])
    decreases |s|
  {
    if |s| > 0 {
      BackupsFrom(s[1..]);
      var h := if IsBackup(s[0]) then [s[0].(remove := false)] else [];
      var t := Backups(s[1..]);
      assert Backups(s) == h + t;
      forall m | 0 <= m < |h + t| ensures FromStretch(s, (h + t)[m]) {
        if m < |h| {
          assert IsBackup(s[0]) && (h + t)[m] == s[0].(remove := false);
        } else {
          assert (h + t)[m] == t[m - |h|];
          assert FromStretch(s[1..], t[m - |h|]);
          var j :| 0 <= j < |s[1..]| && IsBackup(s[1..][j]) && t[m - |h|] == s[1..][j].(remove := false);
          assert s[j + 1] == s[1..][j];
        }
      }
    }
  }

  /** `g` is a backup of the stretch with its flag cleared. */
  ghost predicate FromStretch(s: seq<Entry>, g: Entry)
  {
    exists j :: 0 <= j < |s| && IsBackup(s[j]) && g == s[j].(remove := false)
  }

  /** Every backup standing in the stretch is visited. */
  lemma {:induction false} BackupsHas(s: seq<Entry>, k: nat)
    requires k < |s| && IsBackup(s[k])
    ensures s[k].(remove := false) in Backups(s)
  {
    BackupsAround(s, k);
  }

  /** The backups after place `k`, as the fold sees them, do not touch `x`. */
  lemma {:induction false} LaterUntouched(es: seq<Entry>, k: nat, x: string)
    requires k < |es|
    requires forall j :: k < j < |es| && IsBackup(es[j]) ==> !Kills(es[j], x) && !Restores(es[j], x)
    ensures Untouching(Backups(es[k + 1..]), x)
  {
    var b := es[k + 1..];
    BackupsFrom(b);
    forall m | 0 <= m < |Backups(b)| ensures !Kills(Backups(b)[m], x) && !Restores(Backups(b)[m], x) {
      assert FromStretch(b, Backups(b)[m]);
      var j :| 0 <= j < |b| && IsBackup(b[j]) && Backups(b)[m] == b[j].(remove := false);
      assert b[j] == es[k + 1 + j];
    }
  }

  /** The backups after place `k`, as the fold sees them, do not restore `x`. */
  lemma {:induction false} LaterNoRestore(es: seq<Entry>, k: nat, x: string)
    requires k < |es|
    requires forall j :: k < j < |es| && IsBackup(es[j]) ==> !Restores(es[j], x)
    ensures NoRestore(Backups(es[k + 1..]), x)
  {
    var b := es[k + 1..];
    BackupsFrom(b);
    forall m | 0 <= m < |Backups(b)| ensures !Restores(Backups(b)[m], x) {
      assert FromStretch(b, Backups(b)[m]);
      var j :| 0 <= j < |b| && IsBackup(b[j]) && Backups(b)[m] == b[j].(remove := false);
      assert b[j] == es[k + 1 + j];
    }
  }

  // ----- what `cpio_restore` promises -----

  /** A restorable backup that no later backup touches under its restored
      name comes back live there, with the backup's payload, mode and
      owner, unless that name is a known leftover. */
  lemma {:induction false} RestoredComesBack(es: seq<Entry>, k: nat)
    requires Ready(es, 0) && StrictlySorted(es)
    requires k < |es| && Restorable(es[k])
    requires forall j :: k < j < |es| && IsBackup(es[j]) ==> !Kills(es[j], es[k].name[8..]) && !Restores(es[j], es[k].name[8..])
    requires !Leftover(es[k].name[8..])
    ensures var f := es[k];
      Slot(RestoreResult(es), f.name[8..]) == Some(Restored(f)) &&
      Restored(f).data == f.data && Restored(f).mode == f.mode && Restored(f).uid == f.uid && Restored(f).gid == f.gid &&
      !Restored(f).remove
  {
    var f := es[k];
    var x := f.name[8..];
    var g := f.(remove := false);
    Safe8(es, k);
    ResultSlot(es, x);
    BackupsAround(es, k);
    LaterUntouched(es, k, x);
    EffectRestored(Backups(es[..k]), g, Backups(es[k + 1..]), x, Slot(es, x));
    assert Restored(g) == Restored(f);
  }

  lemma {:induction false} Safe8(es: seq<Entry>, k: nat)
    requires Ready(es, 0) && k < |es| && Restorable(es[k])
    ensures |es[k].name| >= 8 && es[k].name != es[k].name[8..]
  {
    var nm := es[k].name;
    assert Safe(nm);
    LessIrreflexive(nm);
  }

  /** A name `.backup/.rmlist` lists ends up dead unless a later backup
      restores it. */
  lemma {:induction false} ListedRemoved(es: seq<Entry>, k: nat, n: string)
    requires Ready(es, 0) && StrictlySorted(es)
    requires k < |es| && es[k].name == RMLIST && n in RmNames(es[k].data)
    requires forall j :: k < j < |es| && IsBackup(es[j]) ==> !Restores(es[j], n)
    ensures Dead(Slot(RestoreResult(es), n))
  {
    var f := es[k];
    assert IsBackup(f) by { ContainsRmlist(); }
    ResultSlot(es, n);
    BackupsAround(es, k);
    LaterNoRestore(es, k, n);
    EffectKilled(Backups(es[..k]), f.(remove := false), Backups(es[k + 1..]), n, Slot(es, n));
  }

  lemma {:induction false} ContainsRmlist()
    ensures Contains(RMLIST, BACKUP)
  {
    assert HasPrefix(BACKUP, RMLIST);
  }

  /** The known leftovers are dead after `cpio_restore`, whatever the loop did. */
  lemma {:induction false} LeftoversRemoved(es: seq<Entry>, n: string)
    requires Ready(es, 0) && StrictlySorted(es) && Leftover(n)
    ensures Dead(Slot(RestoreResult(es), n))
  {
    ResultSlot(es, n);
  }

  /** Every backup, `.backup` and `.backup/.rmlist` included, is dead after
      `cpio_restore`: no visit brings a name holding `.backup` back. */
  lemma {:induction false} BackupsRemoved(es: seq<Entry>, k: nat)
    requires Ready(es, 0) && StrictlySorted(es) && k < |es| && IsBackup(es[k])
    ensures Dead(Slot(RestoreResult(es), es[k].name))
  {
    var n := es[k].name;
    ResultSlot(es, n);
    BackupKilled(es, k);
  }

  lemma {:induction false} BackupKilled(es: seq<Entry>, k: nat)
    requires Ready(es, 0) && k < |es| && IsBackup(es[k])
    ensures Dead(Effect(Backups(es), es[k].name, Slot(es, es[k].name)))
  {
    var n := es[k].name;
    BackupsAround(es, k);
    NoneRestoresBackup(es, k);
    EffectKilled(Backups(es[..k]), es[k].(remove := false), Backups(es[k + 1..]), n, Slot(es, n));
  }

  /** A restored name holds no `.backup`, so no backup restores a backup's name. */
  lemma {:induction false} NoneRestoresBackup(es: seq<Entry>, k: nat)
    requires Ready(es, 0) && k < |es| && IsBackup(es[k])
    ensures !Restores(es[k], es[k].name)
    ensures NoRestore(Backups(es[k + 1..]), es[k].name)
  {
    forall j | 0 <= j < |es| && IsBackup(es[j]) ensures !Restores(es[j], es[k].name) {
      if Restorable(es[j]) {
        assert Safe(es[j].name);
      }
    }
    LaterNoRestore(es, k, es[k].name);
  }
}
