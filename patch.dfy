/**
  * The rewrite rules of `cpio_patch` (jni/magiskboot/cpio.c): the line walk
  * over `init.rc`, the two in-place compactions of `fstab*` payloads, the
  * tombstoning of `verity_key`, and the loop over the vector that applies
  * them.
  */
module Patch {
  import opened Strings
  import opened Entries
  import opened Store

  const IMPORT: string := "import"
  const RELOAD: string := "selinux.reload_policy"
  /** The injected line; with its '\n' it adds 23 bytes. */
  const INJECT_LINE: string := IMPORT + " /" + MAGISK_RC
  const INIT_RC: string := "init.rc"
  const FSTAB: string := "fstab"
  const VERITY_KEY: string := "verity_key"
  const SIZE_LIMIT: int := 0x1_0000_0000

  // ----- init.rc -----

  /** The lines the walk keeps once injection is settled: `import` lines, and
      every other line that does not mention `selinux.reload_policy`. */
  function Kept(ls: seq<string>): (r: seq<string>)
    ensures |r| <= |ls|
  {
    if |ls| == 0 then []
    else if Contains(ls[0], IMPORT) || !Contains(ls[0], RELOAD) then [ls[0]] + Kept(ls[1..])
    else Kept(ls[1..])
  }

  datatype Rc = Rc(lines: seq<string>, injected: bool)

  /** The walk of `cpio_patch` over the lines of `init.rc`: before the first
      line containing `import` the injected line goes in, unless that line
      names `init.magisk.rc` or an earlier file already injected; lines that
      mention `selinux.reload_policy` but not `import` are dropped. */
  function RcLines(ls: seq<string>, injected: bool): (r: Rc)
    decreases |ls|
  {
    if |ls| == 0 then Rc([], injected)
    else if Contains(ls[0], IMPORT) then
      var rest := RcLines(ls[1..], true);
      if injected || Contains(ls[0], MAGISK_RC) then Rc([ls[0]] + rest.lines, rest.injected)
      else Rc([INJECT_LINE, ls[0]] + rest.lines, rest.injected)
    else if Contains(ls[0], RELOAD) then RcLines(ls[1..], injected)
    else
      var rest := RcLines(ls[1..], injected);
      Rc([ls[0]] + rest.lines, rest.injected)
  }

  /** The change the walk makes to `f->filesize`: +23 for the injected line,
      minus `strlen + 1` for each dropped line. */
  function RcDelta(ls: seq<string>, injected: bool): int
    decreases |ls|
  {
    if |ls| == 0 then 0
    else if Contains(ls[0], IMPORT) then
      (if injected || Contains(ls[0], MAGISK_RC) then 0 else |INJECT_LINE| + 1) + RcDelta(ls[1..], true)
    else if Contains(ls[0], RELOAD) then RcDelta(ls[1..], injected) - (|ls[0]| + 1)
    else RcDelta(ls[1..], injected)
  }

  /** Once injected, the walk only drops the lines `Kept` drops. */
  lemma {:induction false} RcLinesInjected(ls: seq<string>)
    ensures RcLines(ls, true) == Rc(Kept(ls), true)
    decreases |ls|
  {
    if |ls| > 0 { RcLinesInjected(ls[1..]); }
  }

  /** With no `import` line nothing is injected. */
  lemma {:induction false} RcLinesNoImport(ls: seq<string>)
    requires forall j :: 0 <= j < |ls| ==> !Contains(ls[j], IMPORT)
    ensures RcLines(ls, false) == Rc(Kept(ls), false)
    decreases |ls|
  {
    if |ls| > 0 { RcLinesNoImport(ls[1..]); }
  }

  /** At most one line is injected, immediately before the first `import`
      line, and not at all when that line already names `init.magisk.rc`. */
  lemma {:induction false} RcLinesFirstImport(ls: seq<string>, k: nat)
    requires k < |ls| && Contains(ls[k], IMPORT)
    requires forall j :: 0 <= j < k ==> !Contains(ls[j], IMPORT)
    ensures RcLines(ls, false) ==
      Rc(Kept(ls[..k]) + ((if Contains(ls[k], MAGISK_RC) then [] else [INJECT_LINE]) + ([ls[k]] + Kept(ls[k + 1..]))), true)
    decreases k
  {
    var t := ls[1..];
    var y := (if Contains(ls[k], MAGISK_RC) then [] else [INJECT_LINE]) + ([ls[k]] + Kept(ls[k + 1..]));
    if k == 0 {
      RcLinesInjected(t);
      assert ls[..0] == [] && t == ls[k + 1..];
    } else {
      RcLinesFirstImport(t, k - 1);
      assert t[..k - 1] == ls[1..k] && t[k - 1] == ls[k] && t[k..] == ls[k + 1..];
      assert RcLines(t, false) == Rc(Kept(ls[1..k]) + y, true);
      RcPlainHead(ls, k);
      var head := if Contains(ls[0], RELOAD) then [] else [ls[0]];
      Regroup(head, Kept(ls[1..k]), y, head + (Kept(ls[1..k]) + y));
    }
  }

  /** A first line without `import` is kept or dropped on its own, before
      anything is injected. */
  lemma {:induction false} RcPlainHead(ls: seq<string>, k: nat)
    requires 0 < k <= |ls| && !Contains(ls[0], IMPORT)
    ensures var head := if Contains(ls[0], RELOAD) then [] else [ls[0]];
      RcLines(ls, false) == Rc(head + RcLines(ls[1..], false).lines, RcLines(ls[1..], false).injected) &&
      Kept(ls[..k]) == head + Kept(ls[1..k])
  {
    var p := ls[..k];
    assert p[0] == ls[0] && p[1..] == ls[1..k];
  }

  /** The injected line starts with `import` and names `init.magisk.rc`, so a
      later walk takes it for the marker. */
  lemma {:induction false} InjectLineMarks()
    ensures HasPrefix(IMPORT, INJECT_LINE) && Contains(INJECT_LINE, IMPORT)
    ensures Contains(INJECT_LINE, MAGISK_RC)
    ensures '\n' !in INJECT_LINE
  {
    var front := IMPORT + " /";
    assert INJECT_LINE[..|IMPORT|] == IMPORT;
    ContainsAt(INJECT_LINE, MAGISK_RC);
    assert INJECT_LINE[|front|..] == MAGISK_RC;
    assert HasPrefix(MAGISK_RC, INJECT_LINE[|front|..]);
  }

  /** `Kept` leaves its own result alone. */
  lemma {:induction false} KeptKept(ls: seq<string>)
    ensures Kept(Kept(ls)) == Kept(ls)
    decreases |ls|
  {
    if |ls| > 0 {
      KeptKept(ls[1..]);
      var t := Kept(ls[1..]);
      if Contains(ls[0], IMPORT) || !Contains(ls[0], RELOAD) {
        assert ([ls[0]] + t)[0] == ls[0] && ([ls[0]] + t)[1..] == t;
      }
    }
  }

  /** Walking the lines a walk produced, from the same flag, gives the same
      lines and flag: the injected line is taken for the marker, so nothing
      is injected twice, and every line left is one `Kept` keeps. */
  lemma {:induction false} RcLinesIdempotent(ls: seq<string>, injected: bool)
    ensures RcLines(RcLines(ls, injected).lines, injected) == RcLines(ls, injected)
    decreases |ls|
  {
    if injected {
      RcLinesInjected(ls);
      RcLinesInjected(Kept(ls));
      KeptKept(ls);
    } else if |ls| > 0 {
      var t := ls[1..];
      if Contains(ls[0], IMPORT) {
        ImportIdempotent(ls);
      } else {
        RcLinesIdempotent(t, false);
        PlainIdempotent(ls);
      }
    }
  }

  /** The case of `RcLinesIdempotent` where the first line is an `import` line. */
  lemma {:induction false} ImportIdempotent(ls: seq<string>)
    requires |ls| > 0 && Contains(ls[0], IMPORT)
    ensures RcLines(RcLines(ls, false).lines, false) == RcLines(ls, false)
  {
    var t := ls[1..];
    RcLinesInjected(t);
    KeptKept(t);
    var k := Kept(t);
    var tail := [ls[0]] + k;
    assert tail[0] == ls[0] && tail[1..] == k;
    RcLinesInjected(tail);
    RcLinesInjected(k);
    if !Contains(ls[0], MAGISK_RC) {
      InjectLineMarks();
      var out := [INJECT_LINE] + tail;
      assert out[0] == INJECT_LINE && out[1..] == tail;
      assert [INJECT_LINE, ls[0]] + k == out;
    }
  }

  /** The case of `RcLinesIdempotent` where the first line is not an `import` line. */
  lemma {:induction false} PlainIdempotent(ls: seq<string>)
    requires |ls| > 0 && !Contains(ls[0], IMPORT)
    requires RcLines(RcLines(ls[1..], false).lines, false) == RcLines(ls[1..], false)
    ensures RcLines(RcLines(ls, false).lines, false) == RcLines(ls, false)
  {
    if !Contains(ls[0], RELOAD) {
      var r := RcLines(ls[1..], false);
      var out := [ls[0]] + r.lines;
      assert out[0] == ls[0] && out[1..] == r.lines;
    }
  }

  /** No line holds a newline. */
  predicate OneLineEach(ls: seq<string>)
  {
    forall i :: 0 <= i < |ls| ==> '\n' !in ls[i]
  }

  /** No line the walk produces holds a newline when none of its input does. */
  lemma {:induction false} RcLinesFree(ls: seq<string>, injected: bool)
    requires OneLineEach(ls)
    ensures OneLineEach(RcLines(ls, injected).lines)
    decreases |ls|
  {
    if |ls| > 0 {
      var t := ls[1..];
      assert OneLineEach(t) by {
        forall i | 0 <= i < |t| ensures '\n' !in t[i] { assert t[i] == ls[i + 1]; }
      }
      RcLinesFree(t, injected || Contains(ls[0], IMPORT));
      var r := RcLines(t, injected || Contains(ls[0], IMPORT)).lines;
      InjectLineMarks();
      OneLineEachCons(ls[0], r);
      OneLineEachCons(INJECT_LINE, [ls[0]] + r);
    }
  }

  lemma {:induction false} OneLineEachCons(l: string, ls: seq<string>)
    requires '\n' !in l && OneLineEach(ls)
    ensures OneLineEach([l] + ls)
  {
    forall i | 0 <= i < |[l] + ls| ensures '\n' !in ([l] + ls)[i] {
      if i > 0 { assert ([l] + ls)[i] == ls[i - 1]; }
    }
  }

  /** A walk that keeps no line never met an `import` line. */
  lemma {:induction false} RcLinesEmpty(ls: seq<string>, injected: bool)
    requires RcLines(ls, injected).lines == []
    ensures RcLines(ls, injected).injected == injected
    decreases |ls|
  {
    if |ls| > 0 && !Contains(ls[0], IMPORT) {
      RcLinesEmpty(ls[1..], injected);
    }
  }

  /** Patching an `init.rc` payload that was already patched walks the same
      lines to the same flag: the payload and the injection flag are those
      of the first patch. */
  lemma {:induction false} RcWalkIdempotent(data: string, injected: bool)
    ensures RcLines(Split(RcPayload(data, injected), '\n'), injected).injected == RcLines(Split(data, '\n'), injected).injected
    ensures RcPayload(RcPayload(data, injected), injected) == RcPayload(data, injected)
  {
    var ls := Split(data, '\n');
    var out := RcLines(ls, injected).lines;
    SplitPiecesFree(data, '\n');
    assert OneLineEach(ls);
    RcLinesFree(ls, injected);
    RcLinesIdempotent(ls, injected);
    if |out| >= 1 {
      SplitJoin(out, '\n');
    } else {
      RcLinesEmpty(ls, injected);
      var e: string := [];
      assert Join(out, '\n') == e;
      assert Split(e, '\n') == [e];
      ShortMisses(e, IMPORT);
      ShortMisses(e, RELOAD);
      assert RcLines([e], injected) == Rc([e], injected);
    }
  }

  /** The bytes the lines take with one '\n' after each. */
  function LinesSize(ls: seq<string>): (n: nat)
    ensures |ls| > 0 ==> n > 0
  {
    if |ls| == 0 then 0 else |ls[0]| + 1 + LinesSize(ls[1..])
  }

  /** `strsep` pieces of a block: their sizes with a '\n' each exceed the
      block by exactly one byte, the '\n' the last piece never had. */
  lemma {:induction false} SplitSize(s: string, c: char)
    ensures LinesSize(Split(s, c)) == |s| + 1
    decreases |s|
  {
    var k := Find(s, c);
    if k < |s| { SplitSize(s[k + 1..], c); }
  }

  lemma {:induction false} JoinSize(ls: seq<string>, c: char)
    requires |ls| > 0
    ensures |Join(ls, c)| + 1 == LinesSize(ls)
    decreases |ls|
  {
    if |ls| > 1 { JoinSize(ls[1..], c); }
  }

  /** The bookkeeping matches the lines: what the walk keeps takes exactly
      `RcDelta` bytes more than what it read. */
  lemma {:induction false} RcDeltaSize(ls: seq<string>, injected: bool)
    ensures LinesSize(RcLines(ls, injected).lines) == LinesSize(ls) + RcDelta(ls, injected)
    decreases |ls|
  {
    if |ls| > 0 {
      if Contains(ls[0], IMPORT) { RcDeltaSize(ls[1..], true); } else { RcDeltaSize(ls[1..], injected); }
    }
  }

  /** `list_to_block` as written: every line, the last one included, is
      followed by '\n', into a buffer of `f->filesize` bytes. */
  function ListToBlock(ls: seq<string>): (b: string)
    ensures |b| == LinesSize(ls)
  {
    if |ls| == 0 then [] else ls[0] + ['\n'] + ListToBlock(ls[1..])
  }

  /** The patched payload: the kept lines joined by '\n', which are the first
      `f->filesize` bytes `list_to_block` writes. */
  function RcPayload(data: string, injected: bool): (p: string)
  {
    Join(RcLines(Split(data, '\n'), injected).lines, '\n')
  }

  /** `block_to_list`: the `strsep` pieces of the payload. A payload of size 0
      is never allocated, and `strsep` on that NULL pointer yields no piece. */
  function BlockToList(data: string): (ls: seq<string>)
    ensures ls == [] <==> data == []
    ensures Join(ls, '\n') == data
  {
    JoinSplit(data, '\n');
    if data == [] then [] else Split(data, '\n')
  }

  /** Walking the `strsep` pieces of `Split` in place of `block_to_list`
      changes nothing the patch keeps: the same flag and the same joined
      payload, for an empty payload too. */
  lemma {:induction false} BlockToListAgrees(data: string, injected: bool)
    ensures RcLines(BlockToList(data), injected).injected == RcLines(Split(data, '\n'), injected).injected
    ensures Join(RcLines(BlockToList(data), injected).lines, '\n') == RcPayload(data, injected)
    ensures RcDelta(BlockToList(data), injected) == RcDelta(Split(data, '\n'), injected)
  {
    if data == [] {
      var e: string := [];
      assert Split(data, '\n') == [e];
      assert !Contains(e, IMPORT) && !Contains(e, RELOAD);
      assert [e][1..] == [];
    }
  }

  /** Whenever a line survives, the size the source keeps equals the size of
      the joined lines, and `list_to_block` writes one byte more than that,
      except for an empty payload, which has no line to write. */
  lemma {:induction false} RcSizeExact(data: string, injected: bool)
    requires RcLines(Split(data, '\n'), injected).lines != []
    ensures |RcPayload(data, injected)| == |data| + RcDelta(Split(data, '\n'), injected)
    ensures |ListToBlock(RcLines(BlockToList(data), injected).lines)| == |RcPayload(data, injected)| + (if data == [] then 0 else 1)
  {
    var ls := Split(data, '\n');
    SplitSize(data, '\n');
    RcDeltaSize(ls, injected);
    JoinSize(RcLines(ls, injected).lines, '\n');
    BlockToListAgrees(data, injected);
  }

  /** When every line is dropped the unsigned size wraps below zero: a
      payload that is one `selinux.reload_policy` line without a newline is
      left with nothing to write and a size of 0xFFFFFFFF. */
  lemma {:induction false} RcSizeWraps(data: string)
    requires '\n' !in data && Contains(data, RELOAD) && !Contains(data, IMPORT)
    ensures RcLines(Split(data, '\n'), false).lines == [] && RcPayload(data, false) == []
    ensures (|data| + RcDelta(Split(data, '\n'), false)) % SIZE_LIMIT == 0xFFFF_FFFF
  {
    var ls := Split(data, '\n');
    SplitNone(data, '\n');
    RcDropsOnlyLine(data);
    assert RcLines(ls, false).lines == [];
    WrapsBelowZero(|data|, RcDelta(ls, false));
  }

  /** A payload without the separator is one piece. */
  lemma {:induction false} SplitNone(s: string, c: char)
    requires c !in s
    ensures Split(s, c) == [s]
  {
    FindAt(s, c, |s|);
  }

  lemma {:induction false} RcDropsOnlyLine(l: string)
    requires Contains(l, RELOAD) && !Contains(l, IMPORT)
    ensures RcLines([l], false) == Rc([], false) && RcDelta([l], false) == -(|l| + 1)
  {
    RcDropsHead([l], false);
    assert [l][1..] == [];
  }

  /** A leading `selinux.reload_policy` line without `import` is dropped
      and its bytes and newline leave the size. */
  lemma {:induction false} RcDropsHead(ls: seq<string>, injected: bool)
    requires |ls| > 0 && Contains(ls[0], RELOAD) && !Contains(ls[0], IMPORT)
    ensures RcLines(ls, injected) == RcLines(ls[1..], injected)
    ensures RcDelta(ls, injected) == RcDelta(ls[1..], injected) - (|ls[0]| + 1)
  {
  }

  lemma {:induction false} WrapsBelowZero(a: int, b: int)
    requires a + b == -1
    ensures (a + b) % SIZE_LIMIT == 0xFFFF_FFFF
  {
  }

  /** The smallest such payload is the bare line itself. */
  lemma {:induction false} RcSizeWrapsAtReload()
    ensures '\n' !in RELOAD && Contains(RELOAD, RELOAD) && !Contains(RELOAD, IMPORT)
  {
    ReloadLacks('\n');
    ReloadLacks('m');
    assert HasPrefix(RELOAD, RELOAD);
    if Contains(RELOAD, IMPORT) {
      ContainsElem(RELOAD, IMPORT, 1);
    }
  }

  lemma {:induction false} ReloadLacks(c: char)
    requires c == '\n' || c == 'm'
    ensures c !in RELOAD
  {
  }

  /** Every character of an occurring string occurs. */
  lemma {:induction false} ContainsElem(s: string, t: string, j: nat)
    requires Contains(s, t) && j < |t|
    ensures t[j] in s
  {
    ContainsAt(s, t);
    var k :| 0 <= k <= |s| && HasPrefix(t, s[k..]);
    assert s[k..][j] == s[k + j];
  }

  /** Adding to a wrapped size wraps the sum. */
  lemma {:induction false} ModStep(size0: int, size: int, base0: int, base: int, d: int)
    requires size0 == base0 % SIZE_LIMIT && size == (size0 + d) % SIZE_LIMIT && base == base0 + d
    ensures size == base % SIZE_LIMIT
  {
  }

  /** The walk over the line list of one `init.rc`, with the unsigned size
      bookkeeping of `f->filesize`. */
  method PatchRcLines(ls: seq<string>, injected0: bool, size0: u32) returns (out: seq<string>, injected: bool, size: u32)
    ensures Rc(out, injected) == RcLines(ls, injected0)
    ensures size == (size0 + RcDelta(ls, injected0)) % SIZE_LIMIT
  {
    out := [];
    injected := injected0;
    size := size0;
    ghost var done := 0;
    ghost var goal := RcLines(ls, injected0);
    ghost var rest := ls;
    var i := 0;
    while i < |ls|
      invariant 0 <= i <= |ls| && rest == ls[i..]
      invariant out + RcLines(rest, injected).lines == goal.lines
      invariant RcLines(rest, injected).injected == goal.injected
      invariant RcDelta(ls, injected0) == done + RcDelta(rest, injected)
      invariant size == (size0 + done) % SIZE_LIMIT
    {
      var line := ls[i];
      assert line == rest[0];
      ghost var out0 := out;
      if Contains(line, IMPORT) {
        if Contains(line, MAGISK_RC) {
          injected := true;
        }
        if injected {
          out := out + [line];
        } else {
          out := out + [INJECT_LINE, line];
          ghost var size1, done1 := size, done;
          size := (size + 23) % SIZE_LIMIT;
          done := done + 23;
          ModStep(size1, size, size0 + done1, size0 + done, 23);
          injected := true;
        }
      } else if Contains(line, RELOAD) {
        ghost var size1, done1 := size, done;
        size := (size - (|line| + 1)) % SIZE_LIMIT;
        done := done - (|line| + 1);
        ModStep(size1, size, size0 + done1, size0 + done, -(|line| + 1));
      } else {
        out := out + [line];
      }
      Regroup(out0, out[|out0|..], RcLines(rest[1..], injected).lines, goal.lines);
      i := i + 1;
      rest := rest[1..];
    }
  }

  // ----- fstab -----

  const VERIFY: string := "verify"

  /** A character that ends the value of `verify=`. */
  predicate IsDelim(c: char)
  {
    c == ' ' || c == '\n' || c == ','
  }

  /** Where the value scan of `check_verity_pattern` stops: the first
      delimiter, or the end of the payload. */
  function DelimAt(s: seq<char>): (k: nat)
    ensures k <= |s|
    ensures k < |s| ==> IsDelim(s[k])
    ensures forall j :: 0 <= j < k ==> !IsDelim(s[j])
  {
    if |s| == 0 || IsDelim(s[0]) then 0 else 1 + DelimAt(s[1..])
  }

  /** 1 when the text starts with a comma, which the pattern may begin with. */
  function Lead(s: seq<char>): (p: nat)
    ensures p <= 1 && p <= |s|
  {
    if |s| > 0 && s[0] == ',' then 1 else 0
  }

  /** `check_verity_pattern` on the payload from the read position: the length
      of a `[,]verify[=value]` option starting there, or -1. The value runs
      up to a space, newline or comma; the scan stops at the payload end. */
  function VerityPattern(s: seq<char>): (k: int)
    ensures k == -1 <==> !HasPrefix(VERIFY, s[Lead(s)..])
    ensures k != -1 ==> Lead(s) + 6 <= k <= |s| && (k < |s| ==> s[k] != '=')
  {
    var pos := Lead(s);
    if !HasPrefix(VERIFY, s[pos..]) then -1
    else if pos + 6 < |s| && s[pos + 6] == '=' then pos + 6 + DelimAt(s[pos + 6..])
    else pos + 6
  }

  /** The option found runs over `verify`, then either ends or holds `=` and a
      value free of delimiters that ends at a delimiter or at the payload end. */
  lemma {:induction false} VerityPatternValue(s: seq<char>)
    requires VerityPattern(s) != -1
    ensures var k := VerityPattern(s); var pos := Lead(s);
      s[pos..pos + 6] == VERIFY &&
      (k == pos + 6 || (s[pos + 6] == '=' && (k == |s| || IsDelim(s[k])))) &&
      forall j :: pos + 7 <= j < k ==> !IsDelim(s[j])
  {
    var pos := Lead(s);
    if pos + 6 < |s| && s[pos + 6] == '=' {
      var e := DelimAt(s[pos + 6..]);
      assert forall j :: pos + 7 <= j < pos + 6 + e ==> s[j] == s[pos + 6..][j - (pos + 6)];
    }
  }

  /** The payload after the verity compaction: each option `VerityPattern`
      finds is cut out, and the byte after it is copied without a check. */
  function VerityStripped(s: seq<char>): (r: seq<char>)
    ensures |r| <= |s|
    decreases |s|, 1
  {
    if |s| == 0 then [] else StripFrom(s, VerityPattern(s))
  }

  /** The compaction of a non-empty `s` once the pattern check at its front
      has returned `k`. */
  function StripFrom(s: seq<char>, k: int): (r: seq<char>)
    requires |s| > 0
    ensures |r| <= |s|
    decreases |s|, 0
  {
    if k > 0 then (if k < |s| then [s[k]] + VerityStripped(s[k + 1..]) else [])
    else [s[0]] + VerityStripped(s[1..])
  }

  /** A payload that never mentions `verify` is left as it is. */
  lemma {:induction false} VerityStrippedNone(s: seq<char>)
    requires !Contains(s, VERIFY)
    ensures VerityStripped(s) == s
    decreases |s|
  {
    if |s| > 0 {
      ContainsAt(s, VERIFY);
      assert !HasPrefix(VERIFY, s[Lead(s)..]);
      assert !Contains(s[1..], VERIFY);
      VerityStrippedNone(s[1..]);
    }
  }

  /** The compaction as written: when an option ends the payload, the byte
      just past the payload (`beyond`) is still copied and counted. */
  function VerityStrippedAsWritten(s: seq<char>, beyond: char): (r: seq<char>)
    decreases |s|
  {
    if |s| == 0 then []
    else
      var k := VerityPattern(s);
      if k > 0 then (if k < |s| then [s[k]] + VerityStrippedAsWritten(s[k + 1..], beyond) else [beyond])
      else [s[0]] + VerityStrippedAsWritten(s[1..], beyond)
  }

  /** A payload that ends in `verify` keeps one stray byte from past its end. */
  lemma {:induction false} VerityOverRead(beyond: char)
    ensures VerityStrippedAsWritten(VERIFY, beyond) == [beyond]
    ensures VerityStripped(VERIFY) == []
  {
    assert VERIFY[0..] == VERIFY;
    assert VerityPattern(VERIFY) == 6;
  }

  /** One step of the verity compaction from read position `r0`, where the
      pattern check returned `skip` and the next byte copied is at `r`. */
  lemma {:induction false} VerityStep(s: seq<char>, r0: nat, skip: int, r: nat)
    requires r0 < |s| && skip == VerityPattern(s[r0..])
    requires r == if skip > 0 then r0 + skip else r0
    ensures r <= |s|
    ensures r < |s| ==> VerityStripped(s[r0..]) == [s[r]] + VerityStripped(s[r + 1..])
    ensures r == |s| ==> VerityStripped(s[r0..]) == []
  {
    var t := s[r0..];
    if skip > 0 && skip < |t| {
      VerityCut(t, skip);
      assert t[skip] == s[r];
      assert t[skip + 1..] == s[r + 1..];
    } else if skip > 0 {
      VerityEnd(t, skip);
    } else {
      VerityCopy(t, skip);
      assert t[0] == s[r];
      assert t[1..] == s[r + 1..];
    }
  }

  /** One unfolding of the compaction when an option is cut before the end. */
  lemma {:induction false} VerityCut(t: seq<char>, k: int)
    requires |t| > 0 && k == VerityPattern(t) && 0 < k < |t|
    ensures VerityStripped(t) == [t[k]] + VerityStripped(t[k + 1..])
  {
  }

  /** One unfolding of the compaction when an option runs to the end. */
  lemma {:induction false} VerityEnd(t: seq<char>, k: int)
    requires |t| > 0 && k == VerityPattern(t) && 0 < k && |t| <= k
    ensures VerityStripped(t) == []
  {
  }

  /** One unfolding of the compaction when no option starts here. */
  lemma {:induction false} VerityCopy(t: seq<char>, k: int)
    requires |t| > 0 && k == VerityPattern(t) && k <= 0
    ensures VerityStripped(t) == [t[0]] + VerityStripped(t[1..])
  {
  }

  /** The `read`/`write` loop that cuts verity options out of `a[..n]` in place. */
  method StripVerity(a: array<char>, n: nat) returns (w: nat)
    requires n <= a.Length
    modifies a
    ensures w <= n
    ensures a[..w] == VerityStripped(old(a[..n]))
    ensures a[n..] == old(a[n..])
  {
    ghost var s := a[..n];
    ghost var goal := VerityStripped(s);
    var r := 0;
    w := 0;
    while r < n
      invariant w <= r <= n == |s| <= a.Length
      invariant a[r..n] == s[r..] && a[n..] == old(a[n..])
      invariant a[..w] + VerityStripped(s[r..]) == goal
    {
      ghost var A := a[..];
      ghost var r0, w0 := r, w;
      var skip := VerityPattern(a[r..n]);
      if skip > 0 {
        r := r + skip;
      }
      ghost var next := r;
      if r < n {
        a[w] := a[r];
        assert a[..] == A[w0 := A[next]];
        w := w + 1;
        r := r + 1;
      }
      VerityIter(A, a[..], s, n, w0, r0, skip, next, w, r, goal);
    }
    assert s[r..] == [];
  }

  /** One pass of the verity loop over the array contents `A`, from read
      position `r0` and write position `w0`: after the skip the read position
      is `next`, and the pass ends at `r`, `w` with contents `B`. */
  lemma {:induction false} VerityIter(A: seq<char>, B: seq<char>, s: seq<char>, n: nat, w0: nat, r0: nat, skip: int, next: nat, w: nat, r: nat, goal: seq<char>)
    requires w0 <= r0 < n == |s| <= |A| && A[r0..n] == s[r0..] && A[..w0] + VerityStripped(s[r0..]) == goal
    requires skip == VerityPattern(A[r0..n])
    requires skip > 0 ==> next == r0 + skip
    requires skip <= 0 ==> next == r0
    requires next < n ==> B == A[w0 := A[next]] && w == w0 + 1 && r == next + 1
    requires next >= n ==> B == A && w == w0 && r == next
    ensures w <= r <= n && r0 < r
    ensures B[r..n] == s[r..] && B[n..] == A[n..] && B[..w] + VerityStripped(s[r..]) == goal
  {
    assert skip == VerityPattern(s[r0..]);
    VerityStep(s, r0, skip, next);
    if next < n {
      assert s[next + 1..] == s[r..];
      CopyStep(A, B, s, n, w0, r0, next, w, r, VerityStripped(s[r..]), goal);
    } else {
      assert s[r..] == [];
    }
  }

  /** `data[write] = data[read]` with `write <= read`: the written prefix
      grows by the byte read, and the bytes after it are still unread. The
      bytes from `r0` on were unread before the pass. */
  lemma {:induction false} CopyStep(A: seq<char>, B: seq<char>, s: seq<char>, n: nat, w0: nat, r0: nat, next: nat, w: nat, r: nat, rest: seq<char>, goal: seq<char>)
    requires w0 <= r0 <= next < n == |s| <= |A| && A[r0..n] == s[r0..]
    requires A[..w0] + ([s[next]] + rest) == goal
    requires B == A[w0 := A[next]] && w == w0 + 1 && r == next + 1
    ensures B[r..n] == s[r..] && B[n..] == A[n..] && B[..w] + rest == goal
  {
    assert A[next] == A[r0..n][next - r0] == s[next];
    assert B[..w] == A[..w0] + [s[next]];
    assert B[r..n] == A[r0..n][r - r0..];
  }

  const ENCRYPT_LIST: seq<string> := ["forceencrypt", "forcefdeorfbe", "fileencryptioninline"]
  const ENCRYPTABLE: string := "encryptable"

  /** The length of the first word of `ENCRYPT_LIST` the text starts with, or 0. */
  function EncryptMatch(s: seq<char>): (k: nat)
    ensures k == 0 <==> forall i :: 0 <= i < |ENCRYPT_LIST| ==> !HasPrefix(ENCRYPT_LIST[i], s)
    ensures k > 0 ==> 12 <= k <= |s| && exists i :: 0 <= i < |ENCRYPT_LIST| && k == |ENCRYPT_LIST[i]| && HasPrefix(ENCRYPT_LIST[i], s)
  {
    if HasPrefix(ENCRYPT_LIST[0], s) then 12
    else if HasPrefix(ENCRYPT_LIST[1], s) then 13
    else if HasPrefix(ENCRYPT_LIST[2], s) then 20
    else 0
  }

  /** The payload after the encryption rewrite: each word of `ENCRYPT_LIST`
      becomes `encryptable`, and the byte after it is copied without a check. */
  function EncryptReplaced(s: seq<char>): (r: seq<char>)
    ensures |r| <= |s|
    decreases |s|, 1
  {
    if |s| == 0 then [] else ReplaceFrom(s, EncryptMatch(s))
  }

  /** The rewrite of a non-empty `s` once the word check at its front has
      returned `k`. */
  function ReplaceFrom(s: seq<char>, k: int): (r: seq<char>)
    requires |s| > 0 && (k > 0 ==> |ENCRYPTABLE| <= k <= |s|)
    ensures |r| <= |s|
    decreases |s|, 0
  {
    if k > 0 then ENCRYPTABLE + (if k < |s| then [s[k]] + EncryptReplaced(s[k + 1..]) else [])
    else [s[0]] + EncryptReplaced(s[1..])
  }

  /** A payload holding none of the words is left as it is. */
  lemma {:induction false} EncryptReplacedNone(s: seq<char>)
    requires forall i :: 0 <= i < |ENCRYPT_LIST| ==> !Contains(s, ENCRYPT_LIST[i])
    ensures EncryptReplaced(s) == s
    decreases |s|
  {
    if |s| > 0 {
      forall i | 0 <= i < |ENCRYPT_LIST| ensures !HasPrefix(ENCRYPT_LIST[i], s) && !Contains(s[1..], ENCRYPT_LIST[i]) {
        assert !Contains(s, ENCRYPT_LIST[i]);
      }
      EncryptReplacedNone(s[1..]);
    }
  }

  /** The rewrite as written: when a word ends the payload, the byte just past
      the payload (`beyond`) is still copied and counted. */
  function EncryptReplacedAsWritten(s: seq<char>, beyond: char): (r: seq<char>)
    decreases |s|
  {
    if |s| == 0 then []
    else
      var k := EncryptMatch(s);
      if k > 0 then ENCRYPTABLE + (if k < |s| then [s[k]] + EncryptReplacedAsWritten(s[k + 1..], beyond) else [beyond])
      else [s[0]] + EncryptReplacedAsWritten(s[1..], beyond)
  }

  /** A payload that ends in `forceencrypt` gains a stray byte from past its end. */
  lemma {:induction false} EncryptOverRead(beyond: char)
    ensures EncryptReplacedAsWritten(ENCRYPT_LIST[0], beyond) == ENCRYPTABLE + [beyond]
    ensures EncryptReplaced(ENCRYPT_LIST[0]) == ENCRYPTABLE
  {
    assert EncryptMatch(ENCRYPT_LIST[0]) == 12;
  }

  /** One unfolding of the rewrite when a word is replaced before the end. */
  lemma {:induction false} EncryptCut(t: seq<char>, k: int)
    requires |t| > 0 && k == EncryptMatch(t) && 0 < k < |t|
    ensures EncryptReplaced(t) == ENCRYPTABLE + ([t[k]] + EncryptReplaced(t[k + 1..]))
  {
  }

  /** One unfolding of the rewrite when a word runs to the end. */
  lemma {:induction false} EncryptEnd(t: seq<char>, k: int)
    requires |t| > 0 && k == EncryptMatch(t) && 0 < k && |t| <= k
    ensures EncryptReplaced(t) == ENCRYPTABLE
  {
  }

  /** One unfolding of the rewrite when no word starts here. */
  lemma {:induction false} EncryptCopy(t: seq<char>, k: int)
    requires |t| > 0 && k == EncryptMatch(t) && k <= 0
    ensures EncryptReplaced(t) == [t[0]] + EncryptReplaced(t[1..])
  {
  }

  /** One step of the rewrite from read position `r0`, where the word found
      there has length `len` (0 for none) and the next byte copied is at `r`. */
  lemma {:induction false} EncryptStep(s: seq<char>, r0: nat, len: nat, r: nat)
    requires r0 < |s| && len == EncryptMatch(s[r0..]) && r == r0 + len
    ensures r <= |s|
    ensures var head := if len > 0 then ENCRYPTABLE else [];
      (r < |s| ==> EncryptReplaced(s[r0..]) == head + ([s[r]] + EncryptReplaced(s[r + 1..]))) &&
      (r == |s| ==> EncryptReplaced(s[r0..]) == head)
  {
    var t := s[r0..];
    if len > 0 && len < |t| {
      EncryptCut(t, len);
      assert t[len] == s[r];
      assert t[len + 1..] == s[r + 1..];
    } else if len > 0 {
      EncryptEnd(t, len);
    } else {
      EncryptCopy(t, len);
      assert t[0] == s[r];
      assert t[1..] == s[r + 1..];
    }
  }

  /** The `read`/`write` loop that rewrites the words in `a[..n]` in place:
      `encryptable` is shorter than every word, so writing never catches up
      with reading. */
  method ReplaceEncrypt(a: array<char>, n: nat) returns (w: nat)
    requires n <= a.Length
    modifies a
    ensures w <= n
    ensures a[..w] == EncryptReplaced(old(a[..n]))
    ensures a[n..] == old(a[n..])
  {
    ghost var s := a[..n];
    ghost var goal := EncryptReplaced(s);
    var r := 0;
    w := 0;
    while r < n
      invariant w <= r <= n == |s| <= a.Length
      invariant a[r..n] == s[r..] && a[n..] == old(a[n..])
      invariant a[..w] + EncryptReplaced(s[r..]) == goal
    {
      r, w := EncryptTurn(a, n, r, w, s, goal);
    }
    assert s[r..] == [];
  }

  /** One turn of the rewrite loop: the word at `r`, if any, is replaced,
      and the byte after it is copied. */
  method EncryptTurn(a: array<char>, n: nat, r: nat, w: nat, ghost s: seq<char>, ghost goal: seq<char>)
    returns (r2: nat, w2: nat)
    requires w <= r < n == |s| <= a.Length
    requires a[r..n] == s[r..] && a[..w] + EncryptReplaced(s[r..]) == goal
    modifies a
    ensures w2 <= r2 <= n && r < r2
    ensures a[r2..n] == s[r2..] && a[n..] == old(a[n..]) && a[..w2] + EncryptReplaced(s[r2..]) == goal
  {
    ghost var A := a[..];
    r2, w2 := r, w;
    var len := EncryptWordAt(a, r, n);
    if len > 0 {
      WriteWord(a, s, n, w, r, len);
      w2 := w + 11;
      r2 := r + len;
    }
    ghost var A1, next, w1 := a[..], r2, w2;
    if r2 < n {
      a[w2] := a[r2];
      assert a[..] == A1[w1 := A1[next]];
      w2 := w2 + 1;
      r2 := r2 + 1;
    }
    EncryptIter(A, A1, a[..], s, n, w, r, len, w1, next, w2, r2, goal);
  }

  /** The inner loop over `ENCRYPT_LIST`: the length of the first word the
      payload holds at the read position, or 0. */
  method EncryptWordAt(a: array<char>, r: nat, n: nat) returns (len: nat)
    requires r <= n <= a.Length
    ensures len == EncryptMatch(a[r..n])
  {
    len := 0;
    var m := 0;
    while m < |ENCRYPT_LIST| && len == 0
      invariant 0 <= m <= |ENCRYPT_LIST|
      invariant len == 0 ==> forall x :: 0 <= x < m ==> !HasPrefix(ENCRYPT_LIST[x], a[r..n])
      invariant len != 0 ==> len == EncryptMatch(a[r..n])
    {
      if HasPrefix(ENCRYPT_LIST[m], a[r..n]) {
        len := |ENCRYPT_LIST[m]|;
      }
      m := m + 1;
    }
  }

  /** One pass of the rewrite over the array contents `A`, from read position
      `r0` and write position `w0`: after any word the positions are `next`
      and `w1` over contents `A1`, and the pass ends at `r`, `w` with
      contents `B`. */
  lemma {:induction false} EncryptIter(A: seq<char>, A1: seq<char>, B: seq<char>, s: seq<char>, n: nat, w0: nat, r0: nat, len: nat,
                    w1: nat, next: nat, w: nat, r: nat, goal: seq<char>)
    requires w0 <= r0 < n == |s| <= |A| && A[r0..n] == s[r0..] && A[..w0] + EncryptReplaced(s[r0..]) == goal
    requires len == EncryptMatch(A[r0..n]) && next == r0 + len
    requires len > 0 ==> |A1| == |A| && w1 == w0 + 11 && A1[..w1] == A[..w0] + ENCRYPTABLE && A1[next..n] == s[next..] && A1[n..] == A[n..]
    requires len == 0 ==> A1 == A && w1 == w0
    requires next < n ==> B == A1[w1 := A1[next]] && w == w1 + 1 && r == next + 1
    requires next >= n ==> B == A1 && w == w1 && r == next
    ensures w <= r <= n && r0 < r
    ensures B[r..n] == s[r..] && B[n..] == A[n..] && B[..w] + EncryptReplaced(s[r..]) == goal
  {
    assert len == EncryptMatch(s[r0..]);
    EncryptStep(s, r0, len, next);
    var head := if len > 0 then ENCRYPTABLE else [];
    assert A1[..w1] == A[..w0] + head;
    assert A1[next..n] == s[next..];
    if next < n {
      var tail := EncryptReplaced(s[r..]);
      assert s[next + 1..] == s[r..];
      Regroup(A[..w0], head, [s[next]] + tail, goal);
      CopyStep(A1, B, s, n, w1, next, next, w, r, tail, goal);
    } else {
      assert s[r..] == [];
      Regroup(A[..w0], head, [], goal);
    }
  }

  lemma {:induction false} Regroup<T>(p: seq<T>, q: seq<T>, t: seq<T>, goal: seq<T>)
    requires p + (q + t) == goal
    ensures (p + q) + t == goal
  {
  }

  /** Writing `encryptable` over a word of `ENCRYPT_LIST` in place. */
  method WriteWord(a: array<char>, ghost s: seq<char>, n: nat, w: nat, r: nat, len: nat)
    requires w <= r && 12 <= len && r + len <= n <= a.Length && |s| == n && a[r..n] == s[r..]
    modifies a
    ensures a[..w + 11] == old(a[..w]) + ENCRYPTABLE
    ensures a[r + len..n] == s[r + len..] && a[n..] == old(a[n..])
  {
    forall j | 0 <= j < 11 {
      a[w + j] := ENCRYPTABLE[j];
    }
    assert a[r + len..n] == old(a[r + len..n]);
    assert old(a[r..n])[len..] == old(a[r + len..n]);
  }

  // ----- the loop over the vector -----

  /** The entries the fstab rules apply to: regular files whose name contains `fstab`. */
  predicate IsFstab(e: Entry)
  {
    Contains(e.name, FSTAB) && IsReg(e.mode)
  }

  /** One entry after the rules of `cpio_patch`, with the injection flag
      the walk carries from one `init.rc` to the next. */
  function PatchedEntry(e: Entry, keepVerity: bool, keepForceEncrypt: bool, injected: bool): (r: (Entry, bool))
    ensures r.0.name == e.name && r.0.mode == e.mode && r.0.uid == e.uid && r.0.gid == e.gid
    ensures r.0.remove == (e.remove || (!keepVerity && e.name == VERITY_KEY))
    ensures e.name != INIT_RC ==> r.1 == injected
    ensures e.name != INIT_RC && !IsFstab(e) ==> r.0.data == e.data
    ensures e.name != INIT_RC ==> |r.0.data| <= |e.data|
  {
    if e.name == INIT_RC then
      var rc := RcLines(Split(e.data, '\n'), injected);
      VerityKeyIsNotInitRc();
      (e.(data := Join(rc.lines, '\n')), rc.injected)
    else
      var v := if keepVerity then e
        else if IsFstab(e) then e.(data := VerityStripped(e.data))
        else if e.name == VERITY_KEY then e.(remove := true)
        else e;
      VerityKeyIsNotFstab(e);
      var x := if !keepForceEncrypt && IsFstab(v) then v.(data := EncryptReplaced(v.data)) else v;
      (x, injected)
  }

  /** `patch` run twice leaves `init.rc` as one run left it, and carries the
      same injection flag on. */
  lemma {:induction false} PatchedInitRcIdempotent(e: Entry, keepVerity: bool, keepForceEncrypt: bool, injected: bool)
    requires e.name == INIT_RC
    ensures var p := PatchedEntry(e, keepVerity, keepForceEncrypt, injected);
      PatchedEntry(p.0, keepVerity, keepForceEncrypt, injected) == p
  {
    RcWalkIdempotent(e.data, injected);
  }

  lemma {:induction false} VerityKeyIsNotInitRc()
    ensures VERITY_KEY != INIT_RC
  {
    assert VERITY_KEY[0] != INIT_RC[0];
  }

  /** `verity_key` does not contain `fstab`: it has no 'f'. */
  lemma {:induction false} VerityKeyIsNotFstab(e: Entry)
    ensures e.name == VERITY_KEY ==> !IsFstab(e)
  {
    if e.name == VERITY_KEY && Contains(e.name, FSTAB) {
      ContainsElem(VERITY_KEY, FSTAB, 0);
      VerityKeyLacks();
      assert false;
    }
  }

  lemma {:induction false} VerityKeyLacks()
    ensures 'f' !in VERITY_KEY
  {
  }

  /** The vector after `cpio_patch`: each entry patched in turn, starting
      with nothing injected. */
  function PatchedEntries(es: seq<Entry>, keepVerity: bool, keepForceEncrypt: bool, injected: bool): (r: seq<Entry>)
    ensures |r| == |es|
    decreases |es|
  {
    if |es| == 0 then []
    else
      var p := PatchedEntry(es[0], keepVerity, keepForceEncrypt, injected);
      [p.0] + PatchedEntries(es[1..], keepVerity, keepForceEncrypt, p.1)
  }

  /** The patch keeps every name, mode and owner in place, so the vector
      stays sorted; it tombstones `verity_key` when verity is not kept and
      nothing else; it leaves every payload other than `init.rc` and the
      fstab files alone, and never lengthens a non-`init.rc` payload. */
  lemma {:induction false} PatchedEntriesShape(es: seq<Entry>, keepVerity: bool, keepForceEncrypt: bool, injected: bool)
    ensures var r := PatchedEntries(es, keepVerity, keepForceEncrypt, injected);
      forall k :: 0 <= k < |es| ==> Reshaped(es[k], r[k], keepVerity)
    decreases |es|
  {
    if |es| > 0 {
      var p := PatchedEntry(es[0], keepVerity, keepForceEncrypt, injected);
      var r := PatchedEntries(es, keepVerity, keepForceEncrypt, injected);
      var t := PatchedEntries(es[1..], keepVerity, keepForceEncrypt, p.1);
      PatchedEntriesShape(es[1..], keepVerity, keepForceEncrypt, p.1);
      assert r == [p.0] + t;
      assert Reshaped(es[0], r[0], keepVerity);
      forall k | 1 <= k < |es| ensures Reshaped(es[k], r[k], keepVerity) {
        assert r[k] == t[k - 1] && es[k] == es[1..][k - 1];
      }
    }
  }

  /** `x` is what the patch can make of `e`: same name, mode and owner,
      tombstoned only as `verity_key` without verity, and a payload that
      changes only for `init.rc` and the fstab files and grows only for
      `init.rc`. */
  ghost predicate Reshaped(e: Entry, x: Entry, keepVerity: bool)
  {
    x.name == e.name && x.mode == e.mode && x.uid == e.uid && x.gid == e.gid &&
    x.remove == (e.remove || (!keepVerity && e.name == VERITY_KEY)) &&
    (e.name != INIT_RC ==> |x.data| <= |e.data|) &&
    (e.name != INIT_RC && !IsFstab(e) ==> x.data == e.data)
  }

  lemma {:induction false} PatchedKeepsSorted(es: seq<Entry>, keepVerity: bool, keepForceEncrypt: bool)
    requires Sorted(es)
    ensures Sorted(PatchedEntries(es, keepVerity, keepForceEncrypt, false))
  {
    PatchedEntriesShape(es, keepVerity, keepForceEncrypt, false);
  }

  /** With both options kept and no `init.rc`, the patch changes nothing. */
  lemma {:induction false} PatchedKeepAll(es: seq<Entry>, injected: bool)
    requires forall k :: 0 <= k < |es| ==> es[k].name != INIT_RC
    ensures PatchedEntries(es, true, true, injected) == es
    decreases |es|
  {
    if |es| > 0 {
      PatchedKeepAll(es[1..], injected);
    }
  }

  /** The per-entry body of `cpio_patch`, on a working copy of the payload. */
  method PatchEntry(f: Entry, keepVerity: bool, keepForceEncrypt: bool, injected0: bool) returns (g: Entry, injected: bool)
    ensures (g, injected) == PatchedEntry(f, keepVerity, keepForceEncrypt, injected0)
  {
    g, injected := f, injected0;
    if Cmp(f.name, INIT_RC) == 0 {
      var lines, size;
      lines, injected, size := PatchRcLines(BlockToList(f.data), injected0, |f.data| % SIZE_LIMIT);
      BlockToListAgrees(f.data, injected0);
      g := f.(data := Join(lines, '\n'));
    } else {
      var fstab := Contains(f.name, FSTAB) && IsReg(f.mode);
      if !keepForceEncrypt || !keepVerity {
        var a := new char[|f.data|](i requires 0 <= i < |f.data| => f.data[i]);
        var n := a.Length;
        assert a[..n] == f.data;
        if !keepVerity {
          if fstab {
            n := StripVerity(a, n);
            g := g.(data := a[..n]);
          } else if Cmp(f.name, VERITY_KEY) == 0 {
            g := g.(remove := true);
          }
        }
        if !keepForceEncrypt && fstab {
          n := ReplaceEncrypt(a, n);
          g := g.(data := a[..n]);
        }
      }
    }
  }

  /** `cpio_patch`: every entry of the vector in turn, updated in place. */
  method PatchRamdisk(rd: Ramdisk, keepVerity: bool, keepForceEncrypt: bool)
    modifies rd
    ensures rd.entries == PatchedEntries(old(rd.entries), keepVerity, keepForceEncrypt, false)
  {
    ghost var o := rd.entries;
    ghost var goal := PatchedEntries(o, keepVerity, keepForceEncrypt, false);
    var injected := false;
    var i := 0;
    while i < |rd.entries|
      invariant 0 <= i <= |rd.entries| == |o|
      invariant rd.entries[i..] == o[i..]
      invariant rd.entries[..i] + PatchedEntries(o[i..], keepVerity, keepForceEncrypt, injected) == goal
    {
      ghost var es, injected0 := rd.entries, injected;
      var g;
      g, injected := PatchEntry(rd.entries[i], keepVerity, keepForceEncrypt, injected);
      rd.entries := rd.entries[i := g];
      PatchedStep(es, rd.entries, o, i, g, keepVerity, keepForceEncrypt, injected0, injected, goal);
      i := i + 1;
    }
  }

  /** One turn of the loop of `cpio_patch` keeps its invariant. */
  lemma {:induction false} PatchedStep(es: seq<Entry>, es2: seq<Entry>, o: seq<Entry>, i: nat, g: Entry,
                                       keepVerity: bool, keepForceEncrypt: bool, injected0: bool, injected: bool, goal: seq<Entry>)
    requires i < |es| == |o| && es[i..] == o[i..] && es2 == es[i := g]
    requires es[..i] + PatchedEntries(o[i..], keepVerity, keepForceEncrypt, injected0) == goal
    requires (g, injected) == PatchedEntry(es[i], keepVerity, keepForceEncrypt, injected0)
    ensures es2[i + 1..] == o[i + 1..]
    ensures es2[..i + 1] + PatchedEntries(o[i + 1..], keepVerity, keepForceEncrypt, injected) == goal
  {
    var t := o[i..];
    assert t[0] == es[i] && t[1..] == o[i + 1..];
    assert PatchedEntries(t, keepVerity, keepForceEncrypt, injected0) == [g] + PatchedEntries(o[i + 1..], keepVerity, keepForceEncrypt, injected);
    assert es2[i + 1..] == es[i + 1..];
    assert es[i + 1..] == es[i..][1..];
    assert es2[..i + 1] == es[..i] + [g];
    Regroup(es[..i], [g], PatchedEntries(o[i + 1..], keepVerity, keepForceEncrypt, injected), goal);
  }
}
