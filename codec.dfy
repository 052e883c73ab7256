/**
  * `parse_cpio` and `dump_cpio` of jni/magiskboot/cpio.c: the SVR4 "newc"
  * cpio format, an archive being the bytes of the file. A record is a
  * 110-byte header (the magic `070701` and 13 fields of 8 hex digits), the
  * name with its NUL, padding to a 4-byte boundary, then, when the size is
  * not 0, the payload and padding again. Padding is written as NUL bytes.
  */
module Codec {
  import opened Strings
  import opened Results
  import opened Hex
  import opened Entries

  const HEADER_SIZE: nat := 110
  const MAGIC: string := "070701"
  const TRAILER: string := "TRAILER!!!"
  const FIRST_INODE: nat := 300000

  // Field numbers of the 13 header fields after the magic.
  const F_INO: nat := 0
  const F_MODE: nat := 1
  const F_UID: nat := 2
  const F_GID: nat := 3
  const F_FILESIZE: nat := 6
  const F_NAMESIZE: nat := 11

  /** The offset `file_align(fd, 4, ...)` moves to. */
  function Align4(n: nat): (m: nat)
    ensures n <= m < n + 4 && m % 4 == 0
  {
    (n + 3) / 4 * 4
  }

  lemma {:induction false} Align4Shift(p: nat, n: nat)
    requires p % 4 == 0
    ensures Align4(p + n) == p + Align4(n)
  {
  }

  /** Field `k` (0 = ino, ..., 12 = check) of a header. */
  function FieldAt(h: string, k: nat): (f: string)
    requires |h| == HEADER_SIZE && k < 13
    ensures |f| == 8
  {
    h[6 + 8 * k .. 14 + 8 * k]
  }

  datatype Header = Header(mode: u32, uid: u32, gid: u32, filesize: nat, namesize: nat)

  /** The fields `parse_cpio` reads, in the order it reads them. */
  const READ_FIELDS: seq<nat> := [F_MODE, F_UID, F_GID, F_FILESIZE, F_NAMESIZE]

  /** `x8u` of the listed fields one after another; the first bad one fails. */
  function ReadFields(h: string, ks: seq<nat>): (r: Result<seq<nat>>)
    requires |h| == HEADER_SIZE && forall i :: 0 <= i < |ks| ==> ks[i] < 13
    ensures r.Ok? ==> |r.value| == |ks| && forall i :: 0 <= i < |ks| ==> r.value[i] < FIELD_LIMIT
    decreases |ks|
  {
    if |ks| == 0 then Ok([])
    else
      var v :- X8u(FieldAt(h, ks[0]));
      var vs :- ReadFields(h, ks[1..]);
      Ok([v] + vs)
  }

  /** The five fields `parse_cpio` uses, each through `x8u`. */
  function ParseHeader(h: string): (r: Result<Header>)
    requires |h| == HEADER_SIZE
  {
    var vs :- ReadFields(h, READ_FIELDS);
    Ok(Header(vs[0], vs[1], vs[2], vs[3], vs[4]))
  }

  /** Fields holding the digits of given values read back as those values. */
  lemma {:induction false} ReadFieldsOf(h: string, ks: seq<nat>, ws: seq<nat>)
    requires |h| == HEADER_SIZE && forall i :: 0 <= i < |ks| ==> ks[i] < 13
    requires |ws| == |ks| && forall i :: 0 <= i < |ws| ==> ws[i] < FIELD_LIMIT
    requires forall i :: 0 <= i < |ks| ==> FieldAt(h, ks[i]) == Hex8(ws[i])
    ensures ReadFields(h, ks) == Ok(ws)
    decreases |ks|
  {
    if |ks| > 0 {
      Hex8RoundTrip(ws[0]);
      assert forall i :: 0 <= i < |ks| - 1 ==> ks[1..][i] == ks[i + 1] && ws[1..][i] == ws[i + 1];
      ReadFieldsOf(h, ks[1..], ws[1..]);
      assert ws == [ws[0]] + ws[1..];
    }
  }

  /** The name a name field holds: the bytes before its first NUL. */
  function NameOf(raw: seq<char>): (r: Result<string>)
    ensures r.Ok? ==> NUL !in r.value && |r.value| < |raw|
  {
    var k := Find(raw, NUL);
    if k == |raw| then Err(UnterminatedName) else Ok(raw[..k])
  }

  /** What reading one record yields. */
  datatype Step =
    | Stop                         // the trailer
    | Fail(error: Error)
    | Skip(len: nat)               // `.` or `..`: dropped; the next record is `len` bytes on
    | Emit(entry: Entry, len: nat) // an entry; the next record is `len` bytes on

  /** One turn of the `parse_cpio` loop, `s` being the bytes from the start
      of a record on: read the header, the name and padding up to the next
      multiple of 4, then the payload and padding when the size is not 0.
      `.` and `..` are dropped before their payload is skipped, so the next
      record is looked for right after the name. Every record starts at a
      multiple of 4 (the file starts with one, and `len` is a multiple of 4),
      so padding counted from the record is padding counted in the file. */
  function StepIn(s: seq<char>): (st: Step)
    requires HEADER_SIZE <= |s|
    ensures (st.Skip? || st.Emit?) ==> st.len >= HEADER_SIZE && st.len % 4 == 0
    ensures st.Emit? ==> !st.entry.remove && NUL !in st.entry.name
  {
    match ParseHeader(s[..HEADER_SIZE])
    case Err(e) => Fail(e)
    case Ok(h) =>
      if |s| < HEADER_SIZE + h.namesize then Fail(ShortRead)
      else
        match NameOf(s[HEADER_SIZE..HEADER_SIZE + h.namesize])
        case Err(e) => Fail(e)
        case Ok(name) =>
          var next := Align4(HEADER_SIZE + h.namesize);
          if Same(name, ".") || Same(name, "..") then Skip(next)
          else if Same(name, TRAILER) then Stop
          else if h.filesize == 0 then Emit(Entry(name, h.mode, h.uid, h.gid, [], false), next)
          else if |s| < next + h.filesize then Fail(ShortRead)
          else Emit(Entry(name, h.mode, h.uid, h.gid, s[next..next + h.filesize], false),
                    Align4(next + h.filesize))
  }

  function Prepend(es: seq<Entry>, r: Result<seq<Entry>>): Result<seq<Entry>>
  {
    if r.Ok? then Ok(es + r.value) else r
  }

  /** What is left to read after a seek `n` bytes on: nothing when the
      seek went past the end. */
  function Drop(s: seq<char>, n: nat): (r: seq<char>)
    ensures |r| == if n <= |s| then |s| - n else 0
  {
    if n <= |s| then s[n..] else []
  }

  /** The records in `s`, the bytes from the start of a record on: reading
      stops quietly when fewer than 110 bytes are left or at the trailer. */
  function ParseFrom(s: seq<char>): (r: Result<seq<Entry>>)
    ensures r.Ok? ==> forall k :: 0 <= k < |r.value| ==> !r.value[k].remove && NUL !in r.value[k].name
    decreases |s|
  {
    if |s| < HEADER_SIZE then Ok([])
    else
      match StepIn(s)
      case Stop => Ok([])
      case Fail(e) => Err(e)
      case Skip(len) => ParseFrom(Drop(s, len))
      case Emit(e, len) => Prepend([e], ParseFrom(Drop(s, len)))
  }

  /** One record further into `ParseFrom`. */
  lemma {:induction false} ParseFromStep(s: seq<char>)
    requires HEADER_SIZE <= |s|
    ensures StepIn(s).Stop? ==> ParseFrom(s) == Ok([])
    ensures StepIn(s).Fail? ==> ParseFrom(s) == Err(StepIn(s).error)
    ensures StepIn(s).Skip? ==> ParseFrom(s) == ParseFrom(Drop(s, StepIn(s).len))
    ensures StepIn(s).Emit? ==> ParseFrom(s) == Prepend([StepIn(s).entry], ParseFrom(Drop(s, StepIn(s).len)))
  {
  }

  /** The vector `parse_cpio` leaves: the records, sorted by name. */
  function ParseCpio(file: seq<char>): (r: Result<seq<Entry>>)
  {
    var es :- ParseFrom(file);
    Ok(SortByName(es))
  }

  lemma {:induction false} ParseCpioSorted(file: seq<char>)
    ensures ParseCpio(file).Ok? ==> Sorted(ParseCpio(file).value)
    ensures ParseCpio(file).Ok? <==> ParseFrom(file).Ok?
  {
    if ParseFrom(file).Ok? { SortByNameSorted(ParseFrom(file).value); }
  }

  lemma {:induction false} PrependEmpty(r: Result<seq<Entry>>)
    ensures Prepend([], r) == r
  {
    if r.Ok? { assert [] + r.value == r.value; }
  }

  lemma {:induction false} PrependNothing(es: seq<Entry>)
    ensures Prepend(es, Ok([])) == Ok(es)
  {
    assert es + [] == es;
  }

  lemma {:induction false} PrependPrepend(a: seq<Entry>, b: seq<Entry>, r: Result<seq<Entry>>)
    ensures Prepend(a, Prepend(b, r)) == Prepend(a + b, r)
  {
    if r.Ok? { assert a + (b + r.value) == (a + b) + r.value; }
  }

  /** The body of the `parse_cpio` loop: read one record, `s` being the
      bytes from its start on. */
  method ReadRecord(s: seq<char>) returns (st: Step)
    requires HEADER_SIZE <= |s|
    ensures st == StepIn(s)
  {
    var h := ParseHeader(s[..HEADER_SIZE]);
    if h.Err? {
      return Fail(h.error);
    }
    var namesize := h.value.namesize;
    if |s| < HEADER_SIZE + namesize {
      return Fail(ShortRead);
    }
    var name := NameOf(s[HEADER_SIZE..HEADER_SIZE + namesize]);
    if name.Err? {
      return Fail(name.error);
    }
    var next := Align4(HEADER_SIZE + namesize);
    if Same(name.value, ".") || Same(name.value, "..") {
      return Skip(next);
    }
    if Same(name.value, TRAILER) {
      return Stop;
    }
    var data: seq<char> := [];
    var filesize := h.value.filesize;
    if filesize != 0 {
      if |s| < next + filesize {
        return Fail(ShortRead);
      }
      data := s[next..next + filesize];
      next := Align4(next + filesize);
    }
    return Emit(Entry(name.value, h.value.mode, h.value.uid, h.value.gid, data, false), next);
  }

  /** The read loop of `parse_cpio`; `rest` is what is left of the file
      after the records read so far. */
  method ReadCpio(file: seq<char>) returns (r: Result<seq<Entry>>)
    ensures r == ParseCpio(file)
  {
    var rest := file;
    var es: seq<Entry> := [];
    PrependEmpty(ParseFrom(file));
    while HEADER_SIZE <= |rest|
      invariant ParseFrom(file) == Prepend(es, ParseFrom(rest))
      decreases |rest|
    {
      var st := ReadRecord(rest);
      ReadStep(rest, es);
      if st.Fail? {
        return Err(st.error);
      }
      if st.Stop? {
        return Ok(SortByName(es));
      }
      if st.Emit? {
        es := es + [st.entry];
      }
      rest := Drop(rest, st.len);
    }
    PrependNothing(es);
    r := Ok(SortByName(es));
  }

  /** One turn of the read loop, in terms of its invariant. */
  lemma {:induction false} ReadStep(rest: seq<char>, es: seq<Entry>)
    requires HEADER_SIZE <= |rest|
    ensures var st := StepIn(rest);
      var r := Prepend(es, ParseFrom(rest));
      (st.Stop? ==> r == Ok(es))
      && (st.Fail? ==> r == Err(st.error))
      && (st.Skip? ==> r == Prepend(es, ParseFrom(Drop(rest, st.len))))
      && (st.Emit? ==> r == Prepend(es + [st.entry], ParseFrom(Drop(rest, st.len))))
  {
    var st := StepIn(rest);
    ParseFromStep(rest);
    if st.Stop? {
      PrependNothing(es);
    } else if st.Emit? {
      PrependPrepend(es, [st.entry], ParseFrom(Drop(rest, st.len)));
    }
  }

  // ---------------------------------------------------------------- dump

  /** `%08x` of each value, one after another. */
  function HexFields(vs: seq<nat>): (s: string)
    requires forall k :: 0 <= k < |vs| ==> vs[k] < FIELD_LIMIT
    ensures |s| == 8 * |vs|
  {
    if |vs| == 0 then [] else Hex8(vs[0]) + HexFields(vs[1..])
  }

  lemma {:induction false} HexFieldsAt(vs: seq<nat>, k: nat)
    requires forall i :: 0 <= i < |vs| ==> vs[i] < FIELD_LIMIT
    requires k < |vs|
    ensures HexFields(vs)[8 * k .. 8 * k + 8] == Hex8(vs[k])
    decreases |vs|
  {
    if k > 0 {
      HexFieldsAt(vs[1..], k - 1);
      assert HexFields(vs)[8 * k .. 8 * k + 8] == HexFields(vs[1..])[8 * (k - 1) .. 8 * (k - 1) + 8];
    }
  }

  /** The 13 field values `dump_cpio` writes: nlink 1; mtime, device
      numbers and check 0; the inode number in 32 bits. */
  function HeaderValues(ino: nat, mode: u32, uid: u32, gid: u32, filesize: nat, namesize: nat): (vs: seq<nat>)
    ensures |vs| == 13 && forall k :: 0 <= k < 13 ==> vs[k] < FIELD_LIMIT
    ensures vs[F_MODE] == mode && vs[F_UID] == uid && vs[F_GID] == gid
    ensures vs[F_FILESIZE] == filesize % FIELD_LIMIT && vs[F_NAMESIZE] == namesize % FIELD_LIMIT
  {
    [ino % FIELD_LIMIT, mode, uid, gid, 1, 0, filesize % FIELD_LIMIT, 0, 0, 0, 0, namesize % FIELD_LIMIT, 0]
  }

  /** The header `dump_cpio` formats. */
  function HeaderText(ino: nat, mode: u32, uid: u32, gid: u32, filesize: nat, namesize: nat): (h: string)
    ensures |h| == HEADER_SIZE
  {
    MAGIC + HexFields(HeaderValues(ino, mode, uid, gid, filesize, namesize))
  }

  lemma {:induction false} HeaderTextField(ino: nat, mode: u32, uid: u32, gid: u32, filesize: nat, namesize: nat, k: nat)
    requires filesize < FIELD_LIMIT && namesize < FIELD_LIMIT && k < 13
    ensures FieldAt(HeaderText(ino, mode, uid, gid, filesize, namesize), k)
         == Hex8(HeaderValues(ino, mode, uid, gid, filesize, namesize)[k])
  {
    var vs := HeaderValues(ino, mode, uid, gid, filesize, namesize);
    HexFieldsAt(vs, k);
    assert FieldAt(MAGIC + HexFields(vs), k) == HexFields(vs)[8 * k .. 8 * k + 8];
  }

  /** Reading back a written header gives the five fields `parse_cpio` uses. */
  lemma {:induction false} HeaderTextFields(ino: nat, mode: u32, uid: u32, gid: u32, filesize: nat, namesize: nat)
    requires filesize < FIELD_LIMIT && namesize < FIELD_LIMIT
    ensures ParseHeader(HeaderText(ino, mode, uid, gid, filesize, namesize))
         == Ok(Header(mode, uid, gid, filesize, namesize))
  {
    var h := HeaderText(ino, mode, uid, gid, filesize, namesize);
    var ws: seq<nat> := [mode, uid, gid, filesize, namesize];
    ReadFieldsHold(ino, mode, uid, gid, filesize, namesize, h, ws);
    ReadFieldsOf(h, READ_FIELDS, ws);
  }

  /** Each field `parse_cpio` reads holds the digits of its value. */
  lemma {:induction false} ReadFieldsHold(ino: nat, mode: u32, uid: u32, gid: u32, filesize: nat, namesize: nat,
                                          h: string, ws: seq<nat>)
    requires filesize < FIELD_LIMIT && namesize < FIELD_LIMIT
    requires h == HeaderText(ino, mode, uid, gid, filesize, namesize) && ws == [mode, uid, gid, filesize, namesize]
    ensures forall i :: 0 <= i < |ws| ==> ws[i] < FIELD_LIMIT
    ensures forall i :: 0 <= i < 5 ==> FieldAt(h, READ_FIELDS[i]) == Hex8(ws[i])
  {
    var vs := HeaderValues(ino, mode, uid, gid, filesize, namesize);
    assert filesize % FIELD_LIMIT == filesize && namesize % FIELD_LIMIT == namesize;
    HeaderTextField(ino, mode, uid, gid, filesize, namesize, F_MODE);
    HeaderTextField(ino, mode, uid, gid, filesize, namesize, F_UID);
    HeaderTextField(ino, mode, uid, gid, filesize, namesize, F_GID);
    HeaderTextField(ino, mode, uid, gid, filesize, namesize, F_FILESIZE);
    HeaderTextField(ino, mode, uid, gid, filesize, namesize, F_NAMESIZE);
  }

  /** The NUL bytes that bring a length of `n` up to a multiple of 4. */
  function Pad(n: nat): (p: seq<char>)
    ensures n + |p| == Align4(n)
  {
    Nuls(Align4(n) - n)
  }

  function Nuls(k: nat): (p: seq<char>)
    ensures |p| == k
  {
    if k == 0 then [] else [NUL] + Nuls(k - 1)
  }

  /** What `dump_cpio` can write: sizes that fit the 32-bit header fields. */
  predicate Fits(e: Entry)
  {
    |e.data| < FIELD_LIMIT && |e.name| + 1 < FIELD_LIMIT
  }

  /** A record laid out from its header `h`: the name and its NUL, padding,
      then the payload and padding when there is one. */
  function Frame(h: string, name: string, data: seq<char>): (f: seq<char>)
    requires |h| == HEADER_SIZE
    ensures |f| % 4 == 0
  {
    var head := h + name + [NUL];
    var front := head + Pad(|head|);
    var back := if |data| == 0 then [] else data + Pad(|data|);
    Mod4Add(|front|, |back|);
    front + back
  }

  /** Two lengths that are multiples of 4 add up to one. */
  lemma {:induction false} Mod4Add(a: nat, b: nat)
    requires a % 4 == 0 && b % 4 == 0
    ensures (a + b) % 4 == 0
  {
    assert a + b == (a / 4 + b / 4) * 4;
  }

  /** One record as `dump_cpio` writes it with inode number `ino`. */
  function Record(e: Entry, ino: nat): (s: seq<char>)
    ensures |s| % 4 == 0
  {
    Frame(HeaderText(ino, e.mode, e.uid, e.gid, |e.data|, |e.name| + 1), e.name, e.data)
  }

  /** The records of the entries that are not tombstoned, inodes counting up from `ino`. */
  function DumpRecords(es: seq<Entry>, ino: nat): (s: seq<char>)
  {
    if |es| == 0 then []
    else if es[0].remove then DumpRecords(es[1..], ino)
    else Record(es[0], ino) + DumpRecords(es[1..], ino + 1)
  }

  /** The closing record: namesize 11, the name `TRAILER!!!` and its NUL. */
  function Trailer(ino: nat): (s: seq<char>)
    ensures |s| % 4 == 0
  {
    Frame(HeaderText(ino, 0, 0, 0, 0, 11), TRAILER, [])
  }

  /** The whole file `dump_cpio` writes. */
  function DumpCpio(es: seq<Entry>): (s: seq<char>)
  {
    DumpRecords(es, FIRST_INODE) + Trailer(FIRST_INODE + |Live(es)|)
  }

  lemma {:induction false} LiveAppend(a: seq<Entry>, b: seq<Entry>)
    ensures Live(a + b) == Live(a) + Live(b)
  {
    if |a| > 0 {
      LiveAppend(a[1..], b);
      assert (a + b)[1..] == a[1..] + b;
    } else {
      assert a + b == b;
    }
  }

  lemma {:induction false} DumpRecordsStep(es: seq<Entry>, i: nat, ino: nat)
    requires i < |es|
    ensures DumpRecords(es[i..], ino) == if es[i].remove then DumpRecords(es[i + 1..], ino)
                                         else Record(es[i], ino) + DumpRecords(es[i + 1..], ino + 1)
  {
    assert es[i..][1..] == es[i + 1..];
  }

  lemma {:induction false} LivePrefixStep(es: seq<Entry>, i: nat)
    requires i < |es|
    ensures |Live(es[..i + 1])| == |Live(es[..i])| + if es[i].remove then 0 else 1
  {
    assert es[..i + 1] == es[..i] + [es[i]];
    LiveAppend(es[..i], [es[i]]);
  }

  lemma {:induction false} Assoc(a: seq<char>, b: seq<char>, c: seq<char>)
    ensures a + (b + c) == (a + b) + c
  {
  }

  /** One turn of the write loop: the invariant at `i` gives it at `i + 1`. */
  lemma {:induction false} WriteStep(es: seq<Entry>, i: nat, ino: nat, out: seq<char>)
    requires i < |es|
    ensures !es[i].remove ==>
      out + DumpRecords(es[i..], ino) == (out + Record(es[i], ino)) + DumpRecords(es[i + 1..], ino + 1)
    ensures es[i].remove ==> DumpRecords(es[i..], ino) == DumpRecords(es[i + 1..], ino)
    ensures |Live(es[..i + 1])| == |Live(es[..i])| + if es[i].remove then 0 else 1
  {
    DumpRecordsStep(es, i, ino);
    LivePrefixStep(es, i);
  }

  /** The write loop of `dump_cpio`. */
  method WriteCpio(es: seq<Entry>) returns (out: seq<char>)
    ensures out == DumpCpio(es)
  {
    out := [];
    var inode := FIRST_INODE;
    for i := 0 to |es|
      invariant DumpRecords(es, FIRST_INODE) == out + DumpRecords(es[i..], inode)
      invariant inode == FIRST_INODE + |Live(es[..i])|
    {
      WriteStep(es, i, inode, out);
      if es[i].remove {
        continue;
      }
      out := out + Record(es[i], inode);
      inode := inode + 1;
    }
    assert es[..|es|] == es && es[|es|..] == [];
    assert out + DumpRecords([], inode) == out;
    out := out + Trailer(inode);
  }

  // ----------------------------------------------------------- round trip

  /** An entry whose name survives a dump and a re-parse. */
  predicate Dumpable(e: Entry)
  {
    Fits(e) && NUL !in e.name && e.name != "." && e.name != ".." && e.name != TRAILER
  }

  /** Where the parts of a record sit. */
  lemma {:induction false} FrameLayout(h: string, name: string, data: seq<char>, rest: seq<char>)
    requires |h| == HEADER_SIZE
    ensures var f := Frame(h, name, data) + rest;
      var n := HEADER_SIZE + |name| + 1;
      var next := Align4(n);
      |f| >= n && f[..HEADER_SIZE] == h && f[HEADER_SIZE..n] == name + [NUL]
      && (|data| == 0 ==> |Frame(h, name, data)| == next)
      && (|data| > 0 ==> next + |data| <= |f| && f[next..next + |data|] == data
                         && |Frame(h, name, data)| == Align4(next + |data|))
  {
    var head := h + name + [NUL];
    var tail := if |data| == 0 then [] else data + Pad(|data|);
    assert Frame(h, name, data) + rest == head + (Pad(|head|) + (tail + rest));
    if |data| > 0 {
      Align4Shift(Align4(|head|), |data|);
    }
  }

  /** Reading a record at an aligned offset gives back what it was laid
      out from. */
  lemma {:induction false} FrameStep(h: string, name: string, data: seq<char>, hd: Header, rest: seq<char>)
    requires |h| == HEADER_SIZE && ParseHeader(h) == Ok(hd)
    requires hd.filesize == |data| && hd.namesize == |name| + 1 && NUL !in name
    ensures var st := StepIn(Frame(h, name, data) + rest);
      (name == TRAILER ==> st == Stop)
      && (name != "." && name != ".." && name != TRAILER ==>
            st.Emit? && st.entry == Entry(name, hd.mode, hd.uid, hd.gid, data, false)
            && st.len == |Frame(h, name, data)|)
  {
    FrameLayout(h, name, data, rest);
    SameIsEqual(name, ".");
    SameIsEqual(name, "..");
    SameIsEqual(name, TRAILER);
    FindAt(name + [NUL], NUL, |name|);
    assert (name + [NUL])[..|name|] == name;
  }

  /** A written record reads back as its entry. */
  lemma {:induction false} RecordParses(e: Entry, ino: nat, rest: seq<char>)
    requires Dumpable(e) && !e.remove
    ensures ParseFrom(Record(e, ino) + rest) == Prepend([e], ParseFrom(rest))
  {
    var h := HeaderText(ino, e.mode, e.uid, e.gid, |e.data|, |e.name| + 1);
    var f := Record(e, ino) + rest;
    HeaderTextFields(ino, e.mode, e.uid, e.gid, |e.data|, |e.name| + 1);
    FrameStep(h, e.name, e.data, Header(e.mode, e.uid, e.gid, |e.data|, |e.name| + 1), rest);
    ParseFromStep(f);
    assert Drop(f, |Record(e, ino)|) == rest;
  }

  /** The trailer ends reading, whatever follows it. */
  lemma {:induction false} TrailerParses(ino: nat)
    ensures ParseFrom(Trailer(ino)) == Ok([])
  {
    var h := HeaderText(ino, 0, 0, 0, 0, 11);
    HeaderTextFields(ino, 0, 0, 0, 0, 11);
    var t := Trailer(ino);
    assert |TRAILER| + 1 == 11 && NUL !in TRAILER;
    FrameStep(h, TRAILER, [], Header(0, 0, 0, 0, 11), []);
    assert t + [] == t;
    ParseFromStep(t);
  }

  lemma {:induction false} DumpRecordsParse(es: seq<Entry>, ino: nat, rest: seq<char>)
    requires forall k :: 0 <= k < |es| && !es[k].remove ==> Dumpable(es[k])
    ensures ParseFrom(DumpRecords(es, ino) + rest) == Prepend(Live(es), ParseFrom(rest))
    decreases |es|
  {
    if |es| == 0 {
      assert DumpRecords(es, ino) + rest == rest;
      PrependEmpty(ParseFrom(rest));
    } else if es[0].remove {
      DumpRecordsParse(es[1..], ino, rest);
      assert DumpRecords(es, ino) == DumpRecords(es[1..], ino);
      assert Live(es) == Live(es[1..]);
    } else {
      var r1 := DumpRecords(es[1..], ino + 1);
      DumpRecordsParse(es[1..], ino + 1, rest);
      var tail := r1 + rest;
      assert DumpRecords(es, ino) + rest == Record(es[0], ino) + tail;
      RecordParses(es[0], ino, tail);
      assert Live(es) == [es[0]] + Live(es[1..]);
      PrependPrepend([es[0]], Live(es[1..]), ParseFrom(rest));
    }
  }

  lemma {:induction false} ParseCpioOf(file: seq<char>, es: seq<Entry>)
    requires ParseFrom(file) == Ok(es) && Sorted(es)
    ensures ParseCpio(file) == Ok(es)
  {
    SortByNameSortedIdentity(es);
  }

  /** Re-parsing a dump gives back exactly the live entries: names, modes,
      owners and payloads, in the vector's (sorted) order. */
  lemma {:induction false} DumpParseRoundTrip(es: seq<Entry>)
    requires Sorted(es)
    requires forall k :: 0 <= k < |es| && !es[k].remove ==> Dumpable(es[k])
    ensures ParseCpio(DumpCpio(es)) == Ok(Live(es))
  {
    DumpedRecords(es);
    LiveSorted(es);
    ParseCpioOf(DumpCpio(es), Live(es));
  }

  /** The records of a dump, before sorting, are the live entries. */
  lemma {:induction false} DumpedRecords(es: seq<Entry>)
    requires forall k :: 0 <= k < |es| && !es[k].remove ==> Dumpable(es[k])
    ensures ParseFrom(DumpCpio(es)) == Ok(Live(es))
  {
    var t := Trailer(FIRST_INODE + |Live(es)|);
    DumpRecordsParse(es, FIRST_INODE, t);
    TrailerParses(FIRST_INODE + |Live(es)|);
    PrependNothing(Live(es));
  }

  lemma {:induction false} LiveSorted(es: seq<Entry>)
    requires Sorted(es)
    ensures Sorted(Live(es))
    decreases |es|
  {
    if |es| > 0 {
      assert Sorted(es[1..]);
      LiveSorted(es[1..]);
      if !es[0].remove {
        var r := Live(es[1..]);
        forall k | 0 <= k < |r| ensures !Less(r[k].name, es[0].name) {
          var m := LiveIndex(es[1..], k);
          assert es[m + 1] == r[k];
        }
        SortedCons(es[0], r);
      }
    }
  }
}
