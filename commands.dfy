/**
  * `cpio_commands` of jni/magiskboot/cpio.c: the choice of a command from
  * the subcommand and the argument count, and its run on the archive.
  *
  * The archive file, the pristine archive `backup` compares against and the
  * file `add` reads come in as bytes; the archive written back and the
  * text printed come out in an `Outcome`.
  */
module Commands {
  import opened Strings
  import opened Results
  import opened Entries
  import opened Store
  import opened Codec
  import opened Patch
  import opened Backup
  import opened Restore
  import opened StockSha

  datatype Command = TEST | RESTORE | STOCKSHA1 | BACKUP | RM | PATCH | EXTRACT | MKDIR | ADD | NONE

  /** The command, the `-r` flag and the arguments left after it. */
  datatype Selection = Selection(cmd: Command, recursive: bool, args: seq<string>)

  /** How many of the remaining arguments a command reads. */
  function Arity(c: Command): nat
  {
    match c
    case BACKUP => 1
    case RM => 1
    case PATCH => 2
    case EXTRACT => 2
    case MKDIR => 2
    case ADD => 3
    case _ => 0
  }

  /** The `if` chain of `cpio_commands`; `args` are the arguments after
      the archive name. A `strcmp(a, b) == 0` test is string equality
      (`Strings.Cmp`). Each command is chosen for exactly its subcommand and
      argument count, whatever the order of the tests, and only `rm -r x`
      drops an argument. */
  function Select(command: string, args: seq<string>): (s: Selection)
    ensures |s.args| >= Arity(s.cmd)
    ensures s.cmd == TEST <==> command == "test"
    ensures s.cmd == RESTORE <==> command == "restore"
    ensures s.cmd == STOCKSHA1 <==> command == "stocksha1"
    ensures s.cmd == BACKUP <==> command == "backup" && |args| == 1
    ensures s.cmd == RM <==> command == "rm" && |args| > 0
    ensures s.cmd == PATCH <==> command == "patch" && |args| == 2
    ensures s.cmd == EXTRACT <==> command == "extract" && |args| == 2
    ensures s.cmd == MKDIR <==> command == "mkdir" && |args| == 2
    ensures s.cmd == ADD <==> command == "add" && |args| == 3
    ensures s.recursive <==> s.cmd == RM && |args| == 2 && args[0] == "-r"
    ensures s.args == (if s.recursive then args[1..] else args)
  {
    if command == "test" then Selection(TEST, false, args)
    else if command == "restore" then Selection(RESTORE, false, args)
    else if command == "stocksha1" then Selection(STOCKSHA1, false, args)
    else if |args| == 1 && command == "backup" then Selection(BACKUP, false, args)
    else if |args| > 0 && command == "rm" then
      if |args| == 2 && args[0] == "-r" then Selection(RM, true, args[1..])
      else Selection(RM, false, args)
    else if |args| == 2 && command == "patch" then Selection(PATCH, false, args)
    else if |args| == 2 && command == "extract" then Selection(EXTRACT, false, args)
    else if |args| == 2 && command == "mkdir" then Selection(MKDIR, false, args)
    else if |args| == 3 && command == "add" then Selection(ADD, false, args)
    else Selection(NONE, false, args)
  }

  const ULONG_MAX: nat := 0xFFFF_FFFF_FFFF_FFFF

  predicate IsOctalDigit(c: char)
  {
    '0' <= c <= '7'
  }

  /** How many octal digits `s` starts with. */
  function OctalRun(s: string): (k: nat)
    ensures k <= |s|
    ensures forall j :: 0 <= j < k ==> IsOctalDigit(s[j])
    ensures k < |s| ==> !IsOctalDigit(s[k])
    decreases |s|
  {
    if |s| == 0 || !IsOctalDigit(s[0]) then 0 else 1 + OctalRun(s[1..])
  }

  /** The value of a run of octal digits, most significant first. */
  function OctalValue(ds: string): nat
    requires forall j :: 0 <= j < |ds| ==> IsOctalDigit(ds[j])
    decreases |ds|
  {
    if |ds| == 0 then 0
    else
      assert IsOctalDigit(ds[|ds| - 1]);
      OctalValue(ds[..|ds| - 1]) * 8 + (ds[|ds| - 1] as int - '0' as int)
  }

  /** `strtoul(s, NULL, 8)` passed on as a 32-bit `mode_t`: the leading
      octal digits, `ULONG_MAX` when they overflow, then truncated. */
  function ModeArg(s: string): u32
  {
    var v := OctalValue(s[..OctalRun(s)]);
    (if v > ULONG_MAX then ULONG_MAX else v) % 0x1_0000_0000
  }

  /** The octal digits of `n`, `k` of them. */
  function OctalDigits(n: nat, k: nat): (s: string)
    ensures |s| == k
    ensures forall j :: 0 <= j < k ==> IsOctalDigit(s[j])
    decreases k
  {
    if k == 0 then [] else OctalDigits(n / 8, k - 1) + [('0' as int + n % 8) as char]
  }

  /** Reading back the digits written for a mode gives the mode. */
  lemma {:induction false} OctalRoundTrip(n: nat, k: nat)
    requires n < Pow8(k)
    ensures OctalValue(OctalDigits(n, k)) == n
    ensures OctalRun(OctalDigits(n, k)) == k
    decreases k
  {
    if k > 0 {
      var s := OctalDigits(n, k);
      OctalRoundTrip(n / 8, k - 1);
      assert s[..|s| - 1] == OctalDigits(n / 8, k - 1);
      OctalRunAll(s);
    } else {
      assert n == 0;
    }
  }

  lemma {:induction false} OctalRunAll(s: string)
    requires forall j :: 0 <= j < |s| ==> IsOctalDigit(s[j])
    ensures OctalRun(s) == |s|
    decreases |s|
  {
    if |s| > 0 {
      OctalRunAll(s[1..]);
    }
  }

  /** The digits stop at the first character that is not one. */
  lemma {:induction false} OctalRunStops(ds: string, rest: string)
    requires forall j :: 0 <= j < |ds| ==> IsOctalDigit(ds[j])
    requires |rest| == 0 || !IsOctalDigit(rest[0])
    ensures OctalRun(ds + rest) == |ds|
    decreases |ds|
  {
    if |ds| > 0 {
      assert (ds + rest)[1..] == ds[1..] + rest;
      OctalRunStops(ds[1..], rest);
    } else {
      assert ds + rest == rest;
    }
  }

  /** A mode written as `k` octal digits and followed by anything that is
      not a digit reads back as that mode; eleven digits hold every 32-bit
      value. */
  lemma {:induction false} ModeArgRoundTrip(m: u32, k: nat, rest: string)
    requires m < Pow8(k) && k <= 21
    requires |rest| == 0 || !IsOctalDigit(rest[0])
    ensures ModeArg(OctalDigits(m, k) + rest) == m
  {
    var ds := OctalDigits(m, k);
    OctalRoundTrip(m, k);
    OctalRunStops(ds, rest);
    assert (ds + rest)[..|ds|] == ds;
    ModeArgSmall(ds + rest, m);
  }

  /** A digit run whose value fits in 32 bits is the mode as it stands. */
  lemma {:induction false} ModeArgSmall(s: string, m: u32)
    requires OctalValue(s[..OctalRun(s)]) == m
    ensures ModeArg(s) == m
  {
  }

  /** Eleven octal digits, as `mkdir 0755` style arguments padded out,
      are enough for any 32-bit mode. */
  lemma {:induction false} ModeArgEleven(m: u32)
    ensures ModeArg(OctalDigits(m, 11)) == m
  {
    assert Pow8(11) == 0x2_0000_0000;
    ModeArgRoundTrip(m, 11, []);
    assert OctalDigits(m, 11) + [] == OctalDigits(m, 11);
  }

  function Pow8(k: nat): (p: nat)
    ensures p >= 1
  {
    if k == 0 then 1 else 8 * Pow8(k - 1)
  }

  /** What a run leaves behind: the exit status, the archive written back
      over the input (if any), what was printed (the `stocksha1` digest,
      without the newline `printf` adds after it), and the entry an
      `extract` writes out. */
  datatype Outcome = Outcome(status: int, dumped: Option<seq<char>>, printed: Option<string>, extracted: Option<Entry>)

  /** A run that ends without writing the archive. */
  function Exit(status: int): Outcome
  {
    Outcome(status, None, None, None)
  }

  /** A run that writes the vector back and exits with `status`. */
  function Dump(status: int, es: seq<Entry>): Outcome
  {
    Outcome(status, Some(DumpCpio(es)), None, None)
  }

  /** What `cpio_commands` leaves behind for the selection `s` on the
      parsed entries `es`. */
  ghost predicate Meets(s: Selection, es: seq<Entry>, orig: seq<char>, added: seq<char>, o: Outcome)
    requires |s.args| >= Arity(s.cmd)
  {
    match s.cmd
    case TEST => o == Exit(TestStatus(es))
    case RESTORE =>
      Ready(es, 0) && o.dumped == Some(DumpCpio(RestoreResult(es))) && o.printed == None &&
      (o.status == 0 <==> exists k :: 0 <= k < |es| && IsBackup(es[k])) && (o.status == 0 || o.status == 1)
    case STOCKSHA1 => o == Outcome(0, None, StockShaOf(es), None)
    case BACKUP =>
      (ParseCpio(orig).Ok? ==> o == Dump(0, Removed(BackupResult(es, ParseCpio(orig).value), false, s.args[0]))) &&
      (ParseCpio(orig).Err? ==> o == Exit(1))
    case RM => o == Dump(0, Removed(es, s.recursive, s.args[0]))
    case PATCH => o == Dump(0, PatchedEntries(es, s.args[0] == "true", s.args[1] == "true", false))
    case EXTRACT =>
      o.dumped == None && o.printed == None &&
      (o.status == 0 <==> exists k :: 0 <= k < |es| && es[k].name == s.args[0] && IsReg(es[k].mode)) &&
      (o.status != 0 ==> o == Exit(1)) &&
      (o.status == 0 ==> o.extracted.Some? && FirstRegular(es, s.args[0], o.extracted.value))
    case MKDIR => o == Dump(0, Inserted(es, NewEntry(S_IFDIR, ModeArg(s.args[0]), s.args[1], [])))
    case ADD => o == Dump(0, Inserted(es, NewEntry(S_IFREG, ModeArg(s.args[0]), s.args[1], added)))
    case NONE => o == Exit(1)
  }

  /** `f` is the first regular entry named `name` in `es`. */
  ghost predicate FirstRegular(es: seq<Entry>, name: string, f: Entry)
  {
    exists k :: 0 <= k < |es| && es[k] == f && es[k].name == name && IsReg(es[k].mode) &&
      forall j :: 0 <= j < k ==> !(es[j].name == name && IsReg(es[j].mode))
  }

  /** `cpio_commands` on the archive bytes `incpio`: an archive that does
      not parse ends the run with status 1 before any command. */
  method Run(command: string, args: seq<string>, incpio: seq<char>, orig: seq<char>, added: seq<char>) returns (o: Outcome)
    requires Select(command, args).cmd == RESTORE && ParseCpio(incpio).Ok? ==> Ready(ParseCpio(incpio).value, 0)
    ensures ParseCpio(incpio).Err? ==> o == Exit(1)
    ensures ParseCpio(incpio).Ok? ==> Meets(Select(command, args), ParseCpio(incpio).value, orig, added, o)
  {
    var s := Select(command, args);
    var parsed := ReadCpio(incpio);
    if parsed.Err? {
      return Exit(1);
    }
    o := Dispatch(s, parsed.value, orig, added);
  }

  /** The `switch` of `cpio_commands` over the parsed entries. */
  method Dispatch(s: Selection, es: seq<Entry>, orig: seq<char>, added: seq<char>) returns (o: Outcome)
    requires |s.args| >= Arity(s.cmd)
    requires s.cmd == RESTORE ==> Ready(es, 0)
    ensures Meets(s, es, orig, added, o)
  {
    var rd := new Ramdisk(es);
    match s.cmd
    case TEST =>
      var status := rd.Test();
      return Exit(status);
    case RESTORE =>
      var ret := RestoreRamdisk(rd);
      o := Written(ret, rd);
    case STOCKSHA1 =>
      var sha := StockSha1(rd.entries);
      return Outcome(0, None, sha, None);
    case BACKUP =>
      var o2 := ReadCpio(orig);
      if o2.Err? {
        return Exit(1);
      }
      BackupRamdisk(rd, o2.value);
      rd.Rm(false, s.args[0]);
      o := Written(0, rd);
    case RM =>
      rd.Rm(s.recursive, s.args[0]);
      o := Written(0, rd);
    case PATCH =>
      PatchRamdisk(rd, s.args[0] == "true", s.args[1] == "true");
      o := Written(0, rd);
    case EXTRACT =>
      var r := rd.Extract(s.args[0]);
      if r.Err? {
        return Exit(1);
      }
      return Outcome(0, None, None, Some(r.value));
    case MKDIR =>
      rd.Mkdir(ModeArg(s.args[0]), s.args[1]);
      o := Written(0, rd);
    case ADD =>
      rd.Add(ModeArg(s.args[0]), s.args[1], added);
      o := Written(0, rd);
    case NONE =>
      return Exit(1);
  }

  /** `dump_cpio` over the input file, then `exit(ret)`. */
  method Written(ret: int, rd: Ramdisk) returns (o: Outcome)
    ensures o == Dump(ret, rd.entries)
  {
    var out := WriteCpio(rd.entries);
    o := Outcome(ret, Some(out), None, None);
  }
}
