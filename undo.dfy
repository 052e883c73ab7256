/**
  * `cpio_restore` undoes `cpio_backup` of jni/magiskboot/cpio.c: after
  * backing up the pristine archive `o` into the working archive `v` and
  * restoring the result, what is live is exactly `o`'s names, each with
  * `o`'s payload. The law needs what the two commands take for granted:
  * archives as `parse_cpio` leaves them with every name at most once (the
  * parser itself keeps duplicate records), names free of `.backup`, every
  * pristine name sorting after its backup name, and no pristine entry that
  * `cpio_restore` removes at the end.
  */
module Undo {
  import opened Strings
  import opened Results
  import opened Entries
  import opened Store
  import opened Backup
  import opened Restore
  import opened RestoreView

  /** Entries as `parse_cpio` leaves them and free of backups: live, no
      `.backup` in the name, no NUL. */
  ghost predicate Plain(es: seq<Entry>)
  {
    forall k :: 0 <= k < |es| ==> !es[k].remove && !Contains(es[k].name, BACKUP) && NUL !in es[k].name
  }

  /** A pristine name the round trip can bring back: its backup name sorts
      before it, it is not `.rmlist` (whose backup would take the list's own
      name) and it is not a leftover removed at the end. */
  predicate Savable(name: string)
  {
    Less(BACKUP_PREFIX + name, name) && name != ".rmlist" && !Leftover(name)
  }

  /** What the law assumes of the working archive `v` and the pristine `o`;
      strict order means each name appears at most once. */
  ghost predicate Undoable(v: seq<Entry>, o: seq<Entry>)
  {
    StrictlySorted(v) && StrictlySorted(o) && Plain(v) && Plain(o) &&
    forall j :: 0 <= j < |o| ==> Savable(o[j].name)
  }

  /** The vector `cpio_backup` sorts: the working entries, then what it pushes. */
  ghost function Staged(v: seq<Entry>, o: seq<Entry>): seq<Entry>
  {
    WithBackups(v, Walk(o, v))
  }

  /** A live entry with the given payload stands under the name. */
  predicate LiveWith(c: Option<Entry>, data: seq<char>)
  {
    c.Some? && !c.value.remove && c.value.data == data
  }

  // ----- names -----

  lemma {:induction false} BackedName(x: string)
    ensures Contains(BACKUP_PREFIX + x, BACKUP)
    ensures |BACKUP_PREFIX + x| >= 8 && (BACKUP_PREFIX + x)[8..] == x
    ensures BACKUP_PREFIX + x != BACKUP
    ensures BACKUP_PREFIX + x == RMLIST ==> x == ".rmlist"
  {
    assert (BACKUP_PREFIX + x)[..7] == BACKUP;
    assert RMLIST == BACKUP_PREFIX + ".rmlist";
  }

  lemma {:induction false} ListNames()
    ensures Contains(BACKUP, BACKUP) && Contains(RMLIST, BACKUP) && BACKUP != RMLIST
  {
    assert HasPrefix(BACKUP, BACKUP);
    assert HasPrefix(BACKUP, RMLIST);
  }

  // ----- the walk's output -----

  /** The backups of the walk are the pristine entries missing or changed
      in the working archive, renamed. */
  lemma {:induction false} ChangedHas(o: seq<Entry>, v: seq<Entry>, e: Entry)
    ensures e in Changed(o, v) <==> exists j :: 0 <= j < |o| && e == Backed(o[j]) && !Unchanged(o[j], v)
    decreases |o|
  {
    if |o| > 0 {
      ChangedHas(o[1..], v, e);
      var h := if Unchanged(o[0], v) then [] else [Backed(o[0])];
      assert Changed(o, v) == h + Changed(o[1..], v);
      if exists j :: 0 <= j < |o| && e == Backed(o[j]) && !Unchanged(o[j], v) {
        var j :| 0 <= j < |o| && e == Backed(o[j]) && !Unchanged(o[j], v);
        if j > 0 { assert o[1..][j - 1] == o[j]; }
      }
      if exists j :: 0 <= j < |o[1..]| && e == Backed(o[1..][j]) && !Unchanged(o[1..][j], v) {
        var j :| 0 <= j < |o[1..]| && e == Backed(o[1..][j]) && !Unchanged(o[1..][j], v);
        assert o[j + 1] == o[1..][j];
      }
    }
  }

  /** The list names the live working names the pristine archive lacks. */
  lemma {:induction false} AddedHas(v: seq<Entry>, o: seq<Entry>, n: string)
    ensures n in AddedNames(v, o) <==> exists k :: 0 <= k < |v| && v[k].name == n && !v[k].remove && !HasName(o, n)
    decreases |v|
  {
    if |v| > 0 {
      AddedHas(v[1..], o, n);
      var h := if v[0].remove || HasName(o, v[0].name) then [] else [v[0].name];
      assert AddedNames(v, o) == h + AddedNames(v[1..], o);
      if exists k :: 0 <= k < |v| && v[k].name == n && !v[k].remove && !HasName(o, n) {
        var k :| 0 <= k < |v| && v[k].name == n && !v[k].remove && !HasName(o, n);
        if k > 0 { assert v[1..][k - 1] == v[k]; }
      }
      if exists k :: 0 <= k < |v[1..]| && v[1..][k].name == n && !v[1..][k].remove && !HasName(o, n) {
        var k :| 0 <= k < |v[1..]| && v[1..][k].name == n && !v[1..][k].remove && !HasName(o, n);
        assert v[k + 1] == v[1..][k];
      }
    }
  }

  /** Reading the list back gives the names the walk recorded. */
  lemma {:induction false} ListReadsBack(v: seq<Entry>, o: seq<Entry>)
    requires Plain(v)
    ensures RmNames(Terminated(AddedNames(v, o))) == AddedNames(v, o)
  {
    var ns := AddedNames(v, o);
    forall m | 0 <= m < |ns| ensures NUL !in ns[m] {
      AddedHas(v, o, ns[m]);
    }
    RmNamesTerminated(ns);
  }

  lemma {:induction false} RemovedNothing(es: seq<Entry>)
    requires Plain(es)
    ensures Removed(es, true, BACKUP) == es
  {
    var r := Removed(es, true, BACKUP);
    RemovedMarks(es, true, BACKUP);
    forall k | 0 <= k < |es| ensures r[k] == es[k] {
      assert !HasPrefix(BACKUP, es[k].name);
    }
  }

  /** The pushed entries: the directory, the list, then the backups. */
  lemma {:induction false} StagedShape(v: seq<Entry>, o: seq<Entry>)
    requires StrictlySorted(v) && StrictlySorted(o)
    ensures var w := Staged(v, o);
      |w| >= |v| + 2 &&
      w == v + ([w[|v|], w[|v| + 1]] + Changed(o, v)) &&
      w[|v|].name == BACKUP && w[|v| + 1].name == RMLIST && w[|v| + 1].data == Terminated(AddedNames(v, o))
  {
    WalkDiff(o, v);
  }

  /** Undoable archives skip the `.backup` removals: the result is the sort of `Staged`. */
  lemma {:induction false} BackupIsSorted(v: seq<Entry>, o: seq<Entry>)
    requires Plain(v) && Plain(o)
    ensures BackupResult(v, o) == SortByName(Staged(v, o))
  {
    RemovedNothing(v);
    RemovedNothing(o);
  }

  // ----- no name twice -----

  lemma {:induction false} DistinctAppend(a: seq<Entry>, b: seq<Entry>)
    requires Distinct(a) && Distinct(b)
    requires forall i, j :: 0 <= i < |a| && 0 <= j < |b| ==> a[i].name != b[j].name
    ensures Distinct(a + b)
  {
    var s := a + b;
    forall i, j | 0 <= i < j < |s| ensures s[i].name != s[j].name {
      if j < |a| {
        assert s[i] == a[i] && s[j] == a[j];
      } else if i < |a| {
        assert s[i] == a[i] && s[j] == b[j - |a|];
      } else {
        assert s[i] == b[i - |a|] && s[j] == b[j - |a|];
      }
    }
  }

  lemma {:induction false} DistinctTail(s: seq<Entry>)
    requires Distinct(s) && |s| > 0
    ensures Distinct(s[1..])
  {
    forall i, j | 0 <= i < j < |s| - 1 ensures s[1..][i].name != s[1..][j].name {
      assert s[1..][i] == s[i + 1] && s[1..][j] == s[j + 1];
    }
  }

  /** The backups of distinct pristine names have distinct names. */
  lemma {:induction false} ChangedDistinct(o: seq<Entry>, v: seq<Entry>)
    requires Distinct(o)
    ensures Distinct(Changed(o, v))
    decreases |o|
  {
    if |o| > 0 {
      var t := Changed(o[1..], v);
      DistinctTail(o);
      ChangedDistinct(o[1..], v);
      var h := if Unchanged(o[0], v) then [] else [Backed(o[0])];
      assert Changed(o, v) == h + t;
      forall i, j | 0 <= i < |h| && 0 <= j < |t| ensures h[i].name != t[j].name {
        assert t[j] in t;
        ChangedHas(o[1..], v, t[j]);
        var q :| 0 <= q < |o[1..]| && t[j] == Backed(o[1..][q]) && !Unchanged(o[1..][q], v);
        assert o[1..][q] == o[q + 1];
        BackedName(o[0].name);
        BackedName(o[q + 1].name);
      }
      DistinctAppend(h, t);
    }
  }

  /** The staged vector holds every name once. */
  lemma {:induction false} StagedDistinct(v: seq<Entry>, o: seq<Entry>)
    requires Undoable(v, o)
    ensures Distinct(Staged(v, o))
  {
    var w := Staged(v, o);
    StagedShape(v, o);
    var dir, list, c := w[|v|], w[|v| + 1], Changed(o, v);
    var p := [dir, list] + c;
    StrictIsDistinct(o);
    StrictIsDistinct(v);
    ChangedDistinct(o, v);
    ListNames();
    forall i | 0 <= i < |c| ensures Contains(c[i].name, BACKUP) && c[i].name != BACKUP && c[i].name != RMLIST {
      assert c[i] in c;
      ChangedHas(o, v, c[i]);
      var q :| 0 <= q < |o| && c[i] == Backed(o[q]) && !Unchanged(o[q], v);
      BackedName(o[q].name);
    }
    DistinctAppend([dir, list], c);
    forall i, j | 0 <= i < |v| && 0 <= j < |p| ensures v[i].name != p[j].name {
      assert Contains(p[j].name, BACKUP) by {
        if j >= 2 { assert p[j] == c[j - 2]; }
      }
    }
    DistinctAppend(v, p);
  }

  lemma {:induction false} InsertByNameDistinct(x: Entry, s: seq<Entry>)
    requires Distinct(s) && !HasName(s, x.name)
    ensures Distinct(InsertByName(x, s))
    decreases |s|
  {
    if |s| > 0 && !Less(x.name, s[0].name) {
      var t := s[1..];
      DistinctTail(s);
      assert !HasName(t, x.name) by {
        forall q | 0 <= q < |t| ensures t[q].name != x.name {
          assert t[q] == s[q + 1];
        }
      }
      InsertByNameDistinct(x, t);
      var r := InsertByName(x, t);
      forall i, j | 0 <= i < 1 && 0 <= j < |r| ensures [s[0]][i].name != r[j].name {
        assert r[j] in multiset(r);
        if r[j] != x {
          assert r[j] in multiset(t);
          var q :| 0 <= q < |t| && t[q] == r[j];
          assert t[q] == s[q + 1];
        }
      }
      DistinctAppend([s[0]], r);
    } else if |s| > 0 {
      DistinctAppend([x], s);
    }
  }

  /** Sorting keeps every name once. */
  lemma {:induction false} SortByNameDistinct(s: seq<Entry>)
    requires Distinct(s)
    ensures Distinct(SortByName(s))
    decreases |s|
  {
    if |s| > 0 {
      var init, x := s[..|s| - 1], s[|s| - 1];
      assert Distinct(init) by {
        forall i, j | 0 <= i < j < |init| ensures init[i].name != init[j].name {
          assert init[i] == s[i] && init[j] == s[j];
        }
      }
      SortByNameDistinct(init);
      var si := SortByName(init);
      assert !HasName(si, x.name) by {
        forall j | 0 <= j < |si| ensures si[j].name != x.name {
          assert si[j] in multiset(si);
          assert si[j] in multiset(init);
          var q :| 0 <= q < |init| && init[q] == si[j];
          assert init[q] == s[q];
        }
      }
      InsertByNameDistinct(x, si);
      SortByNameSnoc(s, init, x);
    }
  }

  // ----- the vector `cpio_restore` starts from -----

  /** The backed-up vector is strictly sorted, ready for the restore loop,
      and holds exactly the staged entries. */
  lemma {:induction false} BackedUpReady(v: seq<Entry>, o: seq<Entry>)
    requires Undoable(v, o)
    ensures var es := BackupResult(v, o);
      StrictlySorted(es) && Ready(es, 0) && forall e :: e in es <==> e in Staged(v, o)
  {
    var es := BackupResult(v, o);
    BackedUpSorted(v, o);
    StrictlySortedIsSorted(es);
    forall k | 0 <= k < |es| && Restorable(es[k]) ensures Safe(es[k].name) {
      assert es[k] in Staged(v, o);
      StagedBackup(v, o, es[k]);
    }
  }

  lemma {:induction false} BackedUpSorted(v: seq<Entry>, o: seq<Entry>)
    requires Undoable(v, o)
    ensures var es := BackupResult(v, o);
      StrictlySorted(es) && forall e :: e in es <==> e in Staged(v, o)
  {
    var es := BackupResult(v, o);
    var w := Staged(v, o);
    BackupIsSorted(v, o);
    SortByNameSorted(w);
    StagedDistinct(v, o);
    SortByNameDistinct(w);
    SortedDistinctIsStrict(es);
    SameEntries(es, w);
  }

  lemma {:induction false} SameEntries(s: seq<Entry>, t: seq<Entry>)
    requires multiset(s) == multiset(t)
    ensures forall e :: e in s <==> e in t
  {
    forall e ensures e in s <==> e in t {
      assert e in s <==> e in multiset(s);
      assert e in t <==> e in multiset(t);
    }
  }

  /** What a staged entry holding `.backup` is: the directory, the list, or
      a backup of a missing or changed pristine entry (which is safe to
      restore). */
  lemma {:induction false} StagedBackup(v: seq<Entry>, o: seq<Entry>, e: Entry)
    requires Undoable(v, o) && e in Staged(v, o) && IsBackup(e)
    ensures e.name == BACKUP || e.name == RMLIST ||
      exists j :: 0 <= j < |o| && e == Backed(o[j]) && !Unchanged(o[j], v)
    ensures e.name == RMLIST ==> e.data == Terminated(AddedNames(v, o))
    ensures Restorable(e) ==> Safe(e.name)
  {
    var w := Staged(v, o);
    ListNames();
    StagedShape(v, o);
    var c := Changed(o, v);
    assert e in v || e == w[|v|] || e == w[|v| + 1] || e in c;
    ChangedHas(o, v, e);
    if e in c {
      var j :| 0 <= j < |o| && e == Backed(o[j]) && !Unchanged(o[j], v);
      BackedName(o[j].name);
      assert Savable(o[j].name);
    }
  }

  /** What the restore loop visits: the directory, the list, or a backup of
      a missing or changed pristine entry, flags cleared. */
  lemma {:induction false} VisitedKinds(v: seq<Entry>, o: seq<Entry>, e: Entry, g: Entry)
    requires Undoable(v, o) && e in Staged(v, o) && IsBackup(e) && g == e.(remove := false)
    ensures (g.name == BACKUP && !Restorable(g)) ||
      (g.name == RMLIST && !Restorable(g) && RmNames(g.data) == AddedNames(v, o)) ||
      exists j :: 0 <= j < |o| && g == Backed(o[j]) && !Unchanged(o[j], v) && Restores(g, o[j].name)
  {
    StagedBackup(v, o, e);
    ListNames();
    if e.name == RMLIST {
      ListReadsBack(v, o);
    } else if e.name != BACKUP {
      var j :| 0 <= j < |o| && e == Backed(o[j]) && !Unchanged(o[j], v);
      BackupRestores(o[j], g);
      assert 0 <= j < |o| && g == Backed(o[j]) && !Unchanged(o[j], v) && Restores(g, o[j].name);
    }
  }

  /** The backup of a savable live entry restores its name. */
  lemma {:induction false} BackupRestores(m: Entry, g: Entry)
    requires !m.remove && Savable(m.name) && !Contains(m.name, BACKUP) && g == Backed(m).(remove := false)
    ensures g == Backed(m) && Restores(g, m.name) && g.name != m.name
  {
    BackedName(m.name);
  }

  /** Each visited backup is a staged entry, flag cleared. */
  lemma {:induction false} VisitedFrom(v: seq<Entry>, o: seq<Entry>, g: Entry) returns (e: Entry)
    requires Undoable(v, o) && g in Backups(BackupResult(v, o))
    ensures e in Staged(v, o) && IsBackup(e) && g == e.(remove := false)
  {
    var es := BackupResult(v, o);
    BackedUpReady(v, o);
    BackupsFrom(es);
    var m :| 0 <= m < |Backups(es)| && Backups(es)[m] == g;
    assert FromStretch(es, g);
    var i :| 0 <= i < |es| && IsBackup(es[i]) && g == es[i].(remove := false);
    assert es[i] in es;
    e := es[i];
  }

  /** A staged backup is visited. */
  lemma {:induction false} Visited(v: seq<Entry>, o: seq<Entry>, e: Entry)
    requires Undoable(v, o) && e in Staged(v, o) && IsBackup(e)
    ensures e.(remove := false) in Backups(BackupResult(v, o))
  {
    var es := BackupResult(v, o);
    BackedUpReady(v, o);
    var i :| 0 <= i < |es| && es[i] == e;
    BackupsHas(es, i);
  }

  // ----- one name at a time -----

  /** A pristine entry the working archive holds with the same payload: no
      backup touches its name and the working entry stays. */
  lemma {:induction false} KeptName(v: seq<Entry>, o: seq<Entry>, j: nat, k: nat)
    requires Undoable(v, o) && j < |o| && k < |v| && v[k].name == o[j].name && v[k].data == o[j].data
    ensures var es := BackupResult(v, o);
      Effect(Backups(es), o[j].name, Slot(es, o[j].name)) == Some(v[k])
  {
    var es := BackupResult(v, o);
    var n := o[j].name;
    BackedUpReady(v, o);
    StrictIsDistinct(es);
    StrictIsDistinct(o);
    StagedShape(v, o);
    assert v[k] in Staged(v, o);
    SlotOf(es, v[k]);
    var bs := Backups(es);
    assert Untouching(bs, n) by {
      forall m | 0 <= m < |bs| ensures !Kills(bs[m], n) && !Restores(bs[m], n) {
        Untouched(v, o, j, k, bs[m]);
      }
    }
    EffectUntouched(bs, n, Slot(es, n));
  }

  lemma {:induction false} Untouched(v: seq<Entry>, o: seq<Entry>, j: nat, k: nat, g: Entry)
    requires Undoable(v, o) && j < |o| && k < |v| && v[k].name == o[j].name && v[k].data == o[j].data
    requires g in Backups(BackupResult(v, o))
    ensures !Kills(g, o[j].name) && !Restores(g, o[j].name)
  {
    var n := o[j].name;
    var e := VisitedFrom(v, o, g);
    VisitedKinds(v, o, e, g);
    ListNames();
    assert HasName(o, n);
    AddedHas(v, o, n);
    if exists q :: 0 <= q < |o| && g == Backed(o[q]) && !Unchanged(o[q], v) && Restores(g, o[q].name) {
      var q :| 0 <= q < |o| && g == Backed(o[q]) && !Unchanged(o[q], v) && Restores(g, o[q].name);
      BackedName(o[q].name);
      StrictIsDistinct(o);
      assert Unchanged(o[j], v);
    }
  }

  /** A pristine entry missing or changed in the working archive: its backup
      is the only one touching its name, and it comes back as it was. */
  lemma {:induction false} RestoredName(v: seq<Entry>, o: seq<Entry>, j: nat)
    requires Undoable(v, o) && j < |o| && !Unchanged(o[j], v)
    ensures var es := BackupResult(v, o);
      Effect(Backups(es), o[j].name, Slot(es, o[j].name)) == Some(o[j])
  {
    var es := BackupResult(v, o);
    var n := o[j].name;
    var f := Backed(o[j]);
    StagedShape(v, o);
    ChangedHas(o, v, f);
    assert f in Staged(v, o);
    BackedName(n);
    ListNames();
    assert Savable(n);
    Visited(v, o, f);
    assert f.(remove := false) == f by { assert !o[j].remove; }
    var bs := Backups(es);
    forall m | 0 <= m < |bs| && (Kills(bs[m], n) || Restores(bs[m], n)) ensures bs[m] == f {
      OnlyBackup(v, o, j, bs[m]);
    }
    EffectOnlyRestorer(bs, n, Slot(es, n), f);
    RestoreUndoesBackup(o[j]);
  }

  lemma {:induction false} OnlyBackup(v: seq<Entry>, o: seq<Entry>, j: nat, g: Entry)
    requires Undoable(v, o) && j < |o| && g in Backups(BackupResult(v, o))
    requires Kills(g, o[j].name) || Restores(g, o[j].name)
    ensures g == Backed(o[j])
  {
    var n := o[j].name;
    var e := VisitedFrom(v, o, g);
    VisitedKinds(v, o, e, g);
    ListNames();
    assert HasName(o, n);
    AddedHas(v, o, n);
    if g.name != BACKUP && g.name != RMLIST {
      var q :| 0 <= q < |o| && g == Backed(o[q]) && !Unchanged(o[q], v) && Restores(g, o[q].name);
      BackedName(o[q].name);
      StrictIsDistinct(o);
    }
  }

  /** A name the pristine archive lacks: nothing restores it, and whatever
      stood there is killed by its own visit or by the list. */
  lemma {:induction false} GoneName(v: seq<Entry>, o: seq<Entry>, n: string)
    requires Undoable(v, o) && !HasName(o, n)
    ensures var es := BackupResult(v, o);
      Dead(Effect(Backups(es), n, Slot(es, n)))
  {
    var es := BackupResult(v, o);
    var bs := Backups(es);
    BackedUpReady(v, o);
    assert NoRestore(bs, n) by {
      forall m | 0 <= m < |bs| ensures !Restores(bs[m], n) {
        var e := VisitedFrom(v, o, bs[m]);
        VisitedKinds(v, o, e, bs[m]);
      }
    }
    var c := Slot(es, n);
    if c.None? {
      EffectStaysDead(bs, n, c);
    } else {
      var e := c.value;
      assert e in Staged(v, o);
      if IsBackup(e) {
        Visited(v, o, e);
        EffectKilledIn(bs, n, c, e.(remove := false));
      } else {
        Listed(v, o, e);
        EffectKilledIn(bs, n, c, Staged(v, o)[|v| + 1].(remove := false));
      }
    }
  }

  /** A working entry the pristine archive lacks is named by the list. */
  lemma {:induction false} Listed(v: seq<Entry>, o: seq<Entry>, e: Entry)
    requires Undoable(v, o) && e in Staged(v, o) && !IsBackup(e) && !HasName(o, e.name)
    ensures var l := Staged(v, o)[|v| + 1].(remove := false);
      l in Backups(BackupResult(v, o)) && Kills(l, e.name)
  {
    var w := Staged(v, o);
    StagedShape(v, o);
    ListNames();
    var c := Changed(o, v);
    assert e in v || e == w[|v|] || e == w[|v| + 1] || e in c;
    ChangedHas(o, v, e);
    if e in c {
      var j :| 0 <= j < |o| && e == Backed(o[j]) && !Unchanged(o[j], v);
      BackedName(o[j].name);
    }
    var k :| 0 <= k < |v| && v[k] == e;
    AddedHas(v, o, e.name);
    ListReadsBack(v, o);
    assert w[|v| + 1] in w;
    Visited(v, o, w[|v| + 1]);
  }

  // ----- the law -----

  /** Backing up `o` into `v` and restoring: every pristine name holds a live
      entry with the pristine payload (the pristine entry itself when it was
      backed up, the working one, mode and owner included, when the payloads
      already agreed), and nothing else is live. */
  lemma {:induction false} BackupThenRestore(v: seq<Entry>, o: seq<Entry>)
    requires Undoable(v, o)
    ensures Ready(BackupResult(v, o), 0) && StrictlySorted(BackupResult(v, o))
    ensures var r := RestoreResult(BackupResult(v, o));
      (forall j :: 0 <= j < |o| ==> LiveWith(Slot(r, o[j].name), o[j].data)) &&
      (forall j :: 0 <= j < |o| && !Unchanged(o[j], v) ==> Slot(r, o[j].name) == Some(o[j])) &&
      (forall j, k :: 0 <= j < |o| && 0 <= k < |v| && v[k].name == o[j].name && v[k].data == o[j].data ==>
         Slot(r, o[j].name) == Some(v[k])) &&
      (forall n :: !HasName(o, n) ==> Dead(Slot(r, n)))
  {
    var es := BackupResult(v, o);
    BackedUpReady(v, o);
    var r := RestoreResult(es);
    forall j | 0 <= j < |o| ensures LiveWith(Slot(r, o[j].name), o[j].data) {
      PristineName(v, o, j);
    }
    forall j | 0 <= j < |o| && !Unchanged(o[j], v) ensures Slot(r, o[j].name) == Some(o[j]) {
      PristineName(v, o, j);
    }
    forall j, k | 0 <= j < |o| && 0 <= k < |v| && v[k].name == o[j].name && v[k].data == o[j].data
      ensures Slot(r, o[j].name) == Some(v[k])
    {
      ResultSlot(es, o[j].name);
      assert Savable(o[j].name);
      KeptName(v, o, j, k);
    }
    forall n | !HasName(o, n) ensures Dead(Slot(r, n)) {
      ResultSlot(es, n);
      GoneName(v, o, n);
    }
  }

  /** Under a pristine name stands a live entry with its payload, and the
      pristine entry itself when it was backed up. */
  lemma {:induction false} PristineName(v: seq<Entry>, o: seq<Entry>, j: nat)
    requires Undoable(v, o) && j < |o|
    ensures Ready(BackupResult(v, o), 0) && StrictlySorted(BackupResult(v, o))
    ensures var c := Slot(RestoreResult(BackupResult(v, o)), o[j].name);
      LiveWith(c, o[j].data) && (!Unchanged(o[j], v) ==> c == Some(o[j]))
  {
    var es := BackupResult(v, o);
    BackedUpReady(v, o);
    ResultSlot(es, o[j].name);
    assert Savable(o[j].name) && !o[j].remove;
    if Unchanged(o[j], v) {
      var k :| 0 <= k < |v| && v[k].name == o[j].name && v[k].data == o[j].data;
      KeptName(v, o, j, k);
    } else {
      RestoredName(v, o, j);
    }
  }

  /** The law on what `dump_cpio` would write: the live entries are exactly
      the pristine names, each with its pristine payload. */
  lemma {:induction false} BackupThenRestoreLive(v: seq<Entry>, o: seq<Entry>)
    requires Undoable(v, o)
    ensures Ready(BackupResult(v, o), 0)
    ensures var l := Live(RestoreResult(BackupResult(v, o)));
      (forall e :: e in l ==> Holds(o, e)) && (forall j :: 0 <= j < |o| ==> Holds(l, o[j]))
  {
    BackedUpReady(v, o);
    var l := Live(RestoreResult(BackupResult(v, o)));
    forall e | e in l ensures Holds(o, e) {
      LiveIsPristine(v, o, e);
    }
    forall j | 0 <= j < |o| ensures Holds(l, o[j]) {
      PristineIsLive(v, o, j);
    }
  }

  /** Some entry of `es` has the name and payload of `m`. */
  ghost predicate Holds(es: seq<Entry>, m: Entry)
  {
    exists e :: e in es && e.name == m.name && e.data == m.data
  }

  lemma {:induction false} LiveIsPristine(v: seq<Entry>, o: seq<Entry>, e: Entry)
    requires Undoable(v, o) && Ready(BackupResult(v, o), 0) && e in Live(RestoreResult(BackupResult(v, o)))
    ensures Holds(o, e)
  {
    var es := BackupResult(v, o);
    BackupThenRestore(v, o);
    var r := RestoreResult(es);
    ResultSlot(es, []);
    LiveHas(r, e);
    SlotOf(r, e);
    assert !Dead(Slot(r, e.name));
    var j :| 0 <= j < |o| && o[j].name == e.name;
    assert LiveWith(Slot(r, o[j].name), o[j].data);
    assert o[j] in o;
  }

  lemma {:induction false} PristineIsLive(v: seq<Entry>, o: seq<Entry>, j: nat)
    requires Undoable(v, o) && Ready(BackupResult(v, o), 0) && j < |o|
    ensures Holds(Live(RestoreResult(BackupResult(v, o))), o[j])
  {
    var r := RestoreResult(BackupResult(v, o));
    PristineName(v, o, j);
    var e := Slot(r, o[j].name).value;
    LiveHas(r, e);
  }

  /** The entries `dump_cpio` writes are those of the vector not marked. */
  lemma {:induction false} LiveHas(es: seq<Entry>, e: Entry)
    ensures e in Live(es) <==> e in es && !e.remove
    decreases |es|
  {
    if |es| > 0 {
      LiveHas(es[1..], e);
      assert es == [es[0]] + es[1..];
    }
  }
}
