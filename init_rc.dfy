/**
  * `patch_init_rc` of jni/init/magiskinit.c: the `init.rc` rewrite done at
  * boot. Unlike the rewrite in cpio.c it looks for `import` only at the
  * start of a line, and the line it matches is always kept.
  *
  * The file is split on every newline (`strsep`), each kept line is copied
  * into a fresh buffer followed by a newline, and `import /init.magisk.rc`
  * goes in front of the first `import` line unless that line already names
  * `init.magisk.rc`.
  */
module InitRc {
  import opened Strings
  import Patch
  import Store

  /** The line written in front of the first `import` line, newline included. */
  const INJECTED: string := Patch.INJECT_LINE + "\n"

  /** What one line becomes once `import` handling is over, or for a line
      that does not start with `import`. */
  function Plain(t: string): string
  {
    if Contains(t, Patch.RELOAD) then [] else t + "\n"
  }

  /** What goes in front of the first `import` line: nothing when it
      already names `init.magisk.rc`. */
  function Marker(t: string): string
  {
    if Contains(t, Store.MAGISK_RC) then [] else INJECTED
  }

  /** What the first `import` line becomes. */
  function ImportLine(t: string): string
  {
    Marker(t) + (t + "\n")
  }

  /** What the loop body writes for line `t`; `injected` says whether an
      `import` line was already met. */
  function RcLine(t: string, injected: bool): string
  {
    if !injected && HasPrefix(Patch.IMPORT, t) then ImportLine(t) else Plain(t)
  }

  /** What the loop still writes for the remaining lines `ls`. */
  function Rewrite(ls: seq<string>, injected: bool): string
    decreases |ls|
  {
    if |ls| == 0 then []
    else RcLine(ls[0], injected) + Rewrite(ls[1..], injected || HasPrefix(Patch.IMPORT, ls[0]))
  }

  /** The first line that starts with `import`, or `|ls|`. */
  function FirstImport(ls: seq<string>): (i: nat)
    ensures i <= |ls|
    ensures i < |ls| ==> HasPrefix(Patch.IMPORT, ls[i])
    ensures forall j :: 0 <= j < i ==> !HasPrefix(Patch.IMPORT, ls[j])
    decreases |ls|
  {
    if |ls| == 0 then 0 else if HasPrefix(Patch.IMPORT, ls[0]) then 0 else 1 + FirstImport(ls[1..])
  }

  /** The lines `ls` with the `selinux.reload_policy` lines dropped. */
  function PlainAll(ls: seq<string>): string
    decreases |ls|
  {
    if |ls| == 0 then [] else Plain(ls[0]) + PlainAll(ls[1..])
  }

  /** The new file described as a whole: the lines before the first
      `import` line, the injected line unless that line names
      `init.magisk.rc`, the `import` line itself (kept even when it mentions
      `selinux.reload_policy`), then the remaining lines. */
  function Expected(ls: seq<string>): string
  {
    var i := FirstImport(ls);
    if i == |ls| then PlainAll(ls) else PlainAll(ls[..i]) + ImportLine(ls[i]) + PlainAll(ls[i + 1..])
  }

  /** Once the `import` line is handled, later `import` lines inject nothing. */
  lemma {:induction false} RewriteAfter(ls: seq<string>)
    ensures Rewrite(ls, true) == PlainAll(ls)
    decreases |ls|
  {
    if |ls| > 0 {
      RewriteAfter(ls[1..]);
    }
  }

  lemma {:induction false} Assoc(a: string, b: string, c: string)
    ensures (a + b) + c == a + (b + c)
  {
  }

  /** A line that does not start with `import` changes nothing about the
      search for the first one. */
  lemma {:induction false} SkipFirst(ls: seq<string>)
    requires |ls| > 0 && !HasPrefix(Patch.IMPORT, ls[0])
    ensures FirstImport(ls) == FirstImport(ls[1..]) + 1
    ensures Rewrite(ls, false) == Plain(ls[0]) + Rewrite(ls[1..], false)
  {
  }

  lemma {:induction false} PlainAllCons(ls: seq<string>, k: nat)
    requires 0 < k <= |ls|
    ensures PlainAll(ls[..k]) == Plain(ls[0]) + PlainAll(ls[1..][..k - 1])
  {
    assert ls[..k][1..] == ls[1..][..k - 1];
  }

  lemma {:induction false} ExpectedAt(ls: seq<string>, i: nat)
    requires i == FirstImport(ls) && i < |ls|
    ensures Expected(ls) == PlainAll(ls[..i]) + ImportLine(ls[i]) + PlainAll(ls[i + 1..])
  {
  }

  lemma {:induction false} ExpectedNone(ls: seq<string>)
    requires FirstImport(ls) == |ls|
    ensures Expected(ls) == PlainAll(ls)
  {
  }

  /** The case of `RewriteShape` where the first line is not an `import` line. */
  lemma {:induction false} ShapeSkip(ls: seq<string>)
    requires |ls| > 0 && !HasPrefix(Patch.IMPORT, ls[0])
    requires Rewrite(ls[1..], false) == Expected(ls[1..])
    ensures Rewrite(ls, false) == Expected(ls)
  {
    var rest := ls[1..];
    var i := FirstImport(rest);
    SkipFirst(ls);
    if i < |rest| {
      SkipToImport(ls, i);
    } else {
      ExpectedNone(rest);
      ExpectedNone(ls);
    }
  }

  /** A line without `import` in front of a first `import` line at `i` of
      the rest joins the plain lines before it. */
  lemma {:induction false} SkipToImport(ls: seq<string>, i: nat)
    requires |ls| > 0 && i + 1 < |ls| && i == FirstImport(ls[1..]) && FirstImport(ls) == i + 1
    ensures Plain(ls[0]) + Expected(ls[1..]) == Expected(ls)
  {
    var rest := ls[1..];
    ExpectedAt(rest, i);
    ExpectedAt(ls, i + 1);
    PlainAllCons(ls, i + 1);
    TailAt(ls, i);
    var p, a, b, c := Plain(ls[0]), PlainAll(rest[..i]), ImportLine(ls[i + 1]), PlainAll(ls[i + 2..]);
    Assoc(p, a, b);
    Assoc(p, a + b, c);
  }

  /** Indexing and slicing the tail of a sequence, in terms of the sequence. */
  lemma {:induction false} TailAt<T>(s: seq<T>, i: nat)
    requires i + 1 < |s|
    ensures s[1..][i] == s[i + 1] && s[1..][i + 1..] == s[i + 2..]
  {
  }

  /** The loop writes exactly the file described by `Expected`. */
  lemma {:induction false} RewriteShape(ls: seq<string>)
    ensures Rewrite(ls, false) == Expected(ls)
    decreases |ls|
  {
    if |ls| > 0 {
      if HasPrefix(Patch.IMPORT, ls[0]) {
        ShapeImport(ls);
      } else {
        RewriteShape(ls[1..]);
        ShapeSkip(ls);
      }
    }
  }

  /** The case of `RewriteShape` where the first line is an `import` line. */
  lemma {:induction false} ShapeImport(ls: seq<string>)
    requires |ls| > 0 && HasPrefix(Patch.IMPORT, ls[0])
    ensures Rewrite(ls, false) == Expected(ls)
  {
    ImportFirst(ls);
    ExpectedFirst(ls);
    RewriteAfter(ls[1..]);
  }

  /** The loop writes the injected line with an `import` line in front. */
  lemma {:induction false} ImportFirst(ls: seq<string>)
    requires |ls| > 0 && HasPrefix(Patch.IMPORT, ls[0])
    ensures FirstImport(ls) == 0
    ensures Rewrite(ls, false) == ImportLine(ls[0]) + Rewrite(ls[1..], true)
  {
    assert RcLine(ls[0], false) == ImportLine(ls[0]);
  }

  /** With the first line an `import` line, the file is that line's
      rewrite followed by the plain rest. */
  lemma {:induction false} ExpectedFirst(ls: seq<string>)
    requires |ls| > 0 && FirstImport(ls) == 0
    ensures Expected(ls) == ImportLine(ls[0]) + PlainAll(ls[1..])
  {
    ExpectedAt(ls, 0);
    assert |ls[..0]| == 0;
    LeftEmpty(PlainAll(ls[..0]), ImportLine(ls[0]), PlainAll(ls[1..]));
  }

  lemma {:induction false} LeftEmpty<T>(e: seq<T>, a: seq<T>, b: seq<T>)
    requires e == []
    ensures e + a + b == a + b
  {
  }

  // ----- running the rewrite on its own output -----

  /** The lines written for line `t`. */
  function LineGroup(t: string, injected: bool): seq<string>
  {
    if !injected && HasPrefix(Patch.IMPORT, t) then
      (if Contains(t, Store.MAGISK_RC) then [t] else [Patch.INJECT_LINE, t])
    else if Contains(t, Patch.RELOAD) then []
    else [t]
  }

  /** The lines the loop writes for `ls`, each of them followed by a newline. */
  function KeptLines(ls: seq<string>, injected: bool): seq<string>
    decreases |ls|
  {
    if |ls| == 0 then []
    else LineGroup(ls[0], injected) + KeptLines(ls[1..], injected || HasPrefix(Patch.IMPORT, ls[0]))
  }

  /** The first `import` line of the file is not dropped by a second run:
      it names `init.magisk.rc` or does not mention `selinux.reload_policy`. */
  predicate Settles(ls: seq<string>)
  {
    var i := FirstImport(ls);
    i == |ls| || Contains(ls[i], Store.MAGISK_RC) || !Contains(ls[i], Patch.RELOAD)
  }

  lemma {:induction false} BlockAppend(a: seq<string>, b: seq<string>)
    ensures Patch.ListToBlock(a + b) == Patch.ListToBlock(a) + Patch.ListToBlock(b)
    decreases |a|
  {
    if |a| > 0 {
      BlockAppend(a[1..], b);
      assert (a + b)[0] == a[0] && (a + b)[1..] == a[1..] + b;
    } else {
      assert a + b == b;
    }
  }

  lemma {:induction false} LineGroupBlock(t: string, injected: bool)
    ensures RcLine(t, injected) == Patch.ListToBlock(LineGroup(t, injected))
  {
    if !injected && HasPrefix(Patch.IMPORT, t) && !Contains(t, Store.MAGISK_RC) {
      assert [Patch.INJECT_LINE, t][1..] == [t];
    }
  }

  /** The loop writes the kept lines, each with a newline. */
  lemma {:induction false} RewriteBlock(ls: seq<string>, injected: bool)
    ensures Rewrite(ls, injected) == Patch.ListToBlock(KeptLines(ls, injected))
    decreases |ls|
  {
    if |ls| > 0 {
      var inj := injected || HasPrefix(Patch.IMPORT, ls[0]);
      RewriteBlock(ls[1..], inj);
      LineGroupBlock(ls[0], injected);
      BlockAppend(LineGroup(ls[0], injected), KeptLines(ls[1..], inj));
    }
  }

  lemma {:induction false} OneLineEachAppend(a: seq<string>, b: seq<string>)
    requires Patch.OneLineEach(a) && Patch.OneLineEach(b)
    ensures Patch.OneLineEach(a + b)
  {
    forall i | 0 <= i < |a + b| ensures '\n' !in (a + b)[i] {
      if i < |a| { assert (a + b)[i] == a[i]; } else { assert (a + b)[i] == b[i - |a|]; }
    }
  }

  lemma {:induction false} OneLineEachTail(ls: seq<string>)
    requires |ls| > 0 && Patch.OneLineEach(ls)
    ensures '\n' !in ls[0] && Patch.OneLineEach(ls[1..])
  {
    forall i | 0 <= i < |ls| - 1 ensures '\n' !in ls[1..][i] {
      assert ls[1..][i] == ls[i + 1];
    }
  }

  /** No written line holds a newline when no input line does. */
  lemma {:induction false} KeptFree(ls: seq<string>, injected: bool)
    requires Patch.OneLineEach(ls)
    ensures Patch.OneLineEach(KeptLines(ls, injected))
    decreases |ls|
  {
    if |ls| > 0 {
      var inj := injected || HasPrefix(Patch.IMPORT, ls[0]);
      OneLineEachTail(ls);
      KeptFree(ls[1..], inj);
      Patch.InjectLineMarks();
      var g := LineGroup(ls[0], injected);
      assert Patch.OneLineEach(g) by {
        forall i | 0 <= i < |g| ensures '\n' !in g[i] {
        }
      }
      OneLineEachAppend(g, KeptLines(ls[1..], inj));
    }
  }

  /** Newline-terminated lines cut at each newline: the lines, then the empty
      piece after the last newline. */
  lemma {:induction false} SplitBlock(ls: seq<string>)
    requires Patch.OneLineEach(ls)
    ensures Split(Patch.ListToBlock(ls), '\n') == ls + [[]]
    decreases |ls|
  {
    if |ls| == 0 {
      FindAt([], '\n', 0);
    } else {
      var rest := Patch.ListToBlock(ls[1..]);
      assert Patch.ListToBlock(ls) == ls[0] + ['\n'] + rest;
      OneLineEachTail(ls);
      SplitHead(ls[0], rest);
      SplitBlock(ls[1..]);
      ConsSnoc(ls, []);
    }
  }

  lemma {:induction false} ConsSnoc<T>(s: seq<T>, x: T)
    requires |s| > 0
    ensures s + [x] == [s[0]] + (s[1..] + [x])
  {
  }

  /** A line and its newline in front of `rest` are cut off as one piece. */
  lemma {:induction false} SplitHead(l: string, rest: string)
    requires '\n' !in l
    ensures Split(l + ['\n'] + rest, '\n') == [l] + Split(rest, '\n')
  {
    var b := l + ['\n'] + rest;
    var n := |l|;
    assert forall j :: 0 <= j < n ==> b[j] == l[j];
    FindAt(b, '\n', n);
    assert b[..n] == l && b[n + 1..] == rest;
  }

  /** The empty piece after the last newline is written back as one newline. */
  lemma {:induction false} KeptSnoc(ls: seq<string>, injected: bool)
    ensures KeptLines(ls + [[]], injected) == KeptLines(ls, injected) + [[]]
    decreases |ls|
  {
    var e: string := [];
    if |ls| == 0 {
      assert ls + [e] == [e] && [e][1..] == [];
      ShortMisses(e, Patch.IMPORT);
      ShortMisses(e, Patch.RELOAD);
    } else {
      var inj := injected || HasPrefix(Patch.IMPORT, ls[0]);
      KeptSnoc(ls[1..], inj);
      assert (ls + [e])[0] == ls[0] && (ls + [e])[1..] == ls[1..] + [e];
    }
  }

  /** Once `import` handling is over, the written lines are written again unchanged. */
  lemma {:induction false} KeptAfter(ls: seq<string>)
    ensures KeptLines(KeptLines(ls, true), true) == KeptLines(ls, true)
    decreases |ls|
  {
    if |ls| > 0 {
      KeptAfter(ls[1..]);
      var f := KeptLines(ls[1..], true);
      assert KeptLines(ls, true) == LineGroup(ls[0], true) + f;
      if Contains(ls[0], Patch.RELOAD) {
        assert KeptLines(ls, true) == f;
      } else {
        assert KeptLines(ls, true) == [ls[0]] + f;
        assert ([ls[0]] + f)[0] == ls[0] && ([ls[0]] + f)[1..] == f;
      }
    }
  }

  /** A second run over the written lines writes them again unchanged, as
      long as the first `import` line is not one that a second run drops. */
  lemma {:induction false} KeptTwice(ls: seq<string>)
    requires Settles(ls)
    ensures KeptLines(KeptLines(ls, false), false) == KeptLines(ls, false)
    decreases |ls|
  {
    if |ls| > 0 {
      var t := ls[0];
      if HasPrefix(Patch.IMPORT, t) {
        KeptImportTwice(ls);
      } else {
        SkipFirst(ls);
        assert Settles(ls[1..]);
        KeptTwice(ls[1..]);
        var k := KeptLines(ls[1..], false);
        assert KeptLines(ls, false) == LineGroup(t, false) + k;
        if Contains(t, Patch.RELOAD) {
          assert KeptLines(ls, false) == k;
        } else {
          assert KeptLines(ls, false) == [t] + k;
          assert ([t] + k)[0] == t && ([t] + k)[1..] == k;
        }
      }
    }
  }

  /** The case of `KeptTwice` where the first line is the first `import` line. */
  lemma {:induction false} KeptImportTwice(ls: seq<string>)
    requires |ls| > 0 && HasPrefix(Patch.IMPORT, ls[0]) && Settles(ls)
    ensures KeptLines(KeptLines(ls, false), false) == KeptLines(ls, false)
  {
    var t := ls[0];
    var f := KeptLines(ls[1..], true);
    KeptAfter(ls[1..]);
    assert FirstImport(ls) == 0;
    var tf := [t] + f;
    assert tf[0] == t && tf[1..] == f;
    if !Contains(t, Store.MAGISK_RC) {
      Patch.InjectLineMarks();
      var out := [Patch.INJECT_LINE] + tf;
      assert out[0] == Patch.INJECT_LINE && out[1..] == tf;
      assert [Patch.INJECT_LINE, t] + f == out;
    }
  }

  /** The first `import` line written names `init.magisk.rc`. */
  lemma {:induction false} KeptMarked(ls: seq<string>)
    ensures var m := KeptLines(ls, false);
      FirstImport(m) < |m| ==> Contains(m[FirstImport(m)], Store.MAGISK_RC)
    decreases |ls|
  {
    if |ls| > 0 {
      var t := ls[0];
      var m := KeptLines(ls, false);
      if HasPrefix(Patch.IMPORT, t) {
        Patch.InjectLineMarks();
        assert m[0] == (if Contains(t, Store.MAGISK_RC) then t else Patch.INJECT_LINE);
      } else {
        KeptMarked(ls[1..]);
        var k := KeptLines(ls[1..], false);
        assert m == LineGroup(t, false) + k;
        if Contains(t, Patch.RELOAD) {
          assert m == k;
        } else {
          assert m == [t] + k;
          SkipFirst(m);
          assert m[1..] == k;
        }
      }
    }
  }

  /** The empty piece after the last newline is not an `import` line. */
  lemma {:induction false} FirstImportSnoc(ls: seq<string>)
    ensures var i := FirstImport(ls);
      FirstImport(ls + [[]]) == (if i < |ls| then i else |ls| + 1)
    decreases |ls|
  {
    var e: string := [];
    if |ls| == 0 {
      assert ls + [e] == [e] && [e][1..] == [];
    } else {
      FirstImportSnoc(ls[1..]);
      assert (ls + [e])[0] == ls[0] && (ls + [e])[1..] == ls[1..] + [e];
    }
  }

  /** The rewritten file is the kept lines, each with its newline, and cuts
      back into them plus the empty piece after the last newline. */
  lemma {:induction false} RewrittenLines(d: string)
    ensures var m := KeptLines(Split(d, '\n'), false);
      Rewrite(Split(d, '\n'), false) == Patch.ListToBlock(m) &&
      Split(Rewrite(Split(d, '\n'), false), '\n') == m + [[]]
  {
    var ls := Split(d, '\n');
    SplitPiecesFree(d, '\n');
    assert Patch.OneLineEach(ls);
    RewriteBlock(ls, false);
    KeptFree(ls, false);
    SplitBlock(KeptLines(ls, false));
  }

  /** `patch_init_rc` run on a file it already rewrote injects nothing: the
      first `import` line it meets names `init.magisk.rc`. */
  lemma {:induction false} RewriteTwiceNoMarker(d: string)
    ensures var l1 := Split(Rewrite(Split(d, '\n'), false), '\n');
      FirstImport(l1) < |l1| ==> Marker(l1[FirstImport(l1)]) == []
  {
    var m := KeptLines(Split(d, '\n'), false);
    RewrittenLines(d);
    var l1 := m + [[]];
    KeptMarked(Split(d, '\n'));
    FirstImportSnoc(m);
    if FirstImport(l1) < |l1| {
      assert l1[FirstImport(l1)] == m[FirstImport(m)];
    }
  }

  /** When the first `import` line stays (it names `init.magisk.rc` or does
      not mention `selinux.reload_policy`), a second run of `patch_init_rc`
      only adds the newline after the empty last piece: one byte per run. */
  lemma {:induction false} RewriteTwice(d: string)
    requires Settles(Split(d, '\n'))
    ensures var d1 := Rewrite(Split(d, '\n'), false);
      Rewrite(Split(d1, '\n'), false) == d1 + "\n" && |Rewrite(Split(d1, '\n'), false)| == |d1| + 1
  {
    var ls := Split(d, '\n');
    var m := KeptLines(ls, false);
    RewrittenLines(d);
    RewriteBlock(m + [[]], false);
    KeptSnoc(m, false);
    KeptTwice(ls);
    BlockAppend(m, [[]]);
  }

  /** The sum of the line lengths. */
  function Total(ls: seq<string>): nat
    decreases |ls|
  {
    if |ls| == 0 then 0 else |ls[0]| + Total(ls[1..])
  }

  lemma {:induction false} TotalCons(a: string, rest: seq<string>)
    ensures Total([a] + rest) == |a| + Total(rest)
  {
    assert ([a] + rest)[1..] == rest;
  }

  /** A file of `|d|` bytes splits into lines whose lengths and newlines add
      up to one more than its size. */
  lemma {:induction false} SplitTotal(d: string, c: char)
    ensures Total(Split(d, c)) + |Split(d, c)| == |d| + 1
    decreases |d|
  {
    var k := Find(d, c);
    if k < |d| {
      var rest := Split(d[k + 1..], c);
      assert Split(d, c) == [d[..k]] + rest;
      SplitTotal(d[k + 1..], c);
      TotalCons(d[..k], rest);
    } else {
      assert Split(d, c) == [d];
      TotalCons(d, []);
    }
  }

  /** Every kept line costs its length plus a newline; the injected line
      costs 23 bytes, once. */
  lemma {:induction false} RewriteLength(ls: seq<string>, injected: bool)
    ensures |Rewrite(ls, injected)| <= Total(ls) + |ls| + (if injected then 0 else |INJECTED|)
    decreases |ls|
  {
    if |ls| > 0 {
      RewriteLength(ls[1..], injected || HasPrefix(Patch.IMPORT, ls[0]));
    }
  }

  /** The buffer `patch_init_rc` allocates as written: the old size plus 23. */
  function AllocatedAsWritten(size: nat): nat
  {
    size + |INJECTED|
  }

  /** One byte more is needed: splitting yields one line more than there
      are newlines, and each line gets one back. */
  function Allocated(size: nat): nat
  {
    size + |INJECTED| + 1
  }

  /** The output always fits the corrected buffer. */
  lemma {:induction false} InitRcFits(d: string)
    ensures |Rewrite(Split(d, '\n'), false)| <= Allocated(|d|)
  {
    RewriteLength(Split(d, '\n'), false);
    SplitTotal(d, '\n');
  }

  /** A one-line file `import` plus its newline needs 31 bytes, one more
      than the 30 `patch_init_rc` allocates for it. */
  lemma {:induction false} InitRcOverflow()
    ensures var d := "import\n"; |Rewrite(Split(d, '\n'), false)| == AllocatedAsWritten(|d|) + 1
  {
    var d := "import\n";
    FindAt(d, '\n', 6);
    FindAt("", '\n', 0);
    assert d[..6] == "import" && d[7..] == "";
    var ls := Split(d, '\n');
    assert ls == ["import", ""];
    assert HasPrefix(Patch.IMPORT, ls[0]);
    ShortMisses(ls[0], Store.MAGISK_RC);
    ShortMisses(ls[1], Patch.RELOAD);
    assert ls[1..] == [""] && ls[1..][1..] == [];
    assert Rewrite(ls[1..], true) == "\n";
    assert Rewrite(ls, false) == INJECTED + "import" + "\n" + "\n";
  }

  /** `strcpy(buf + pos, s)` without the terminator it later overwrites. */
  method Put(buf: array<char>, pos: nat, s: string) returns (next: nat)
    requires pos + |s| <= buf.Length
    modifies buf
    ensures next == pos + |s|
    ensures buf[..next] == old(buf[..pos]) + s
  {
    forall k | 0 <= k < |s| {
      buf[pos + k] := s[k];
    }
    next := pos + |s|;
    assert buf[..next] == old(buf[..pos]) + s by {
      assert forall j :: 0 <= j < pos ==> buf[j] == old(buf[j]);
    }
  }

  /** The body of the `strsep` loop for line `t`: the injected line and
      the line itself, only the line, or nothing. */
  method CopyLine(buf: array<char>, pos: nat, t: string, injected: bool) returns (next: nat)
    requires pos + |RcLine(t, injected)| <= buf.Length
    modifies buf
    ensures next == pos + |RcLine(t, injected)|
    ensures buf[..next] == old(buf[..pos]) + RcLine(t, injected)
  {
    ghost var before := buf[..pos];
    next := pos;
    if !injected && HasPrefix(Patch.IMPORT, t) {
      if !Contains(t, Store.MAGISK_RC) {
        next := Put(buf, next, INJECTED);
      }
      assert buf[..next] == before + Marker(t);
      next := Put(buf, next, t + "\n");
      Assoc(before, Marker(t), t + "\n");
    } else if !Contains(t, Patch.RELOAD) {
      next := Put(buf, next, t + "\n");
    }
  }

  /** One turn of the loop, as the loop sees it. */
  lemma {:induction false} RewriteCons(ls: seq<string>, i: nat, injected: bool, written: string)
    requires i < |ls|
    ensures written + Rewrite(ls[i..], injected) ==
      (written + RcLine(ls[i], injected)) + Rewrite(ls[i + 1..], injected || HasPrefix(Patch.IMPORT, ls[i]))
  {
    assert ls[i..][1..] == ls[i + 1..];
    Assoc(written, RcLine(ls[i], injected), Rewrite(ls[i + 1..], injected || HasPrefix(Patch.IMPORT, ls[i])));
  }

  /** `patch_init_rc` over the bytes of `init.rc`: the new buffer (sized as
      `Allocated`) and the new size. */
  method PatchInitRc(data: string) returns (newData: array<char>, size: nat)
    ensures fresh(newData) && newData.Length == Allocated(|data|)
    ensures size <= newData.Length
    ensures newData[..size] == Rewrite(Split(data, '\n'), false) == Expected(Split(data, '\n'))
  {
    var lines := Split(data, '\n');
    InitRcFits(data);
    RewriteShape(lines);
    newData := new char[Allocated(|data|)];
    size := WriteLines(newData, lines);
  }

  /** The loop of `patch_init_rc`: each line's rewrite appended at `pos`. */
  method WriteLines(buf: array<char>, lines: seq<string>) returns (size: nat)
    requires |Rewrite(lines, false)| <= buf.Length
    modifies buf
    ensures size <= buf.Length && buf[..size] == Rewrite(lines, false)
  {
    var injected := false;
    size := 0;
    var i := 0;
    while i < |lines|
      invariant 0 <= i <= |lines|
      invariant size <= buf.Length
      invariant buf[..size] + Rewrite(lines[i..], injected) == Rewrite(lines, false)
    {
      var t := lines[i];
      RewriteCons(lines, i, injected, buf[..size]);
      size := CopyLine(buf, size, t, injected);
      if !injected && HasPrefix(Patch.IMPORT, t) {
        injected := true;
      }
      i := i + 1;
    }
    assert lines[i..] == [];
  }
}
