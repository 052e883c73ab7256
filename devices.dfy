/**
  * `parse_device` and `setup_block` of jni/init/magiskinit.c: reading a
  * block device's `uevent` record into a `struct device`, and finding the
  * device of a named partition among the entries of `/sys/dev/block`.
  *
  * The directory listing and each entry's `uevent` text come in as values;
  * creating `/dev/block` and the device node is left to the caller.
  */
module Devices {
  import opened Strings
  import opened Results
  import opened Scanf

  /** The fields of `struct device`, as a value. */
  datatype Dev = Dev(major: nat, minor: nat, devname: string, partname: string, path: string)

  /** The fields a `uevent` line can set, and the values it can carry. */
  datatype Field = Major | Minor | DevName | PartName
  datatype Value = Num(n: nat) | Text(s: string)

  const BLOCK_DIR: string := "/dev/block/"

  function Get(d: Dev, f: Field): Value
  {
    match f
    case Major => Num(d.major)
    case Minor => Num(d.minor)
    case DevName => Text(d.devname)
    case PartName => Text(d.partname)
  }

  /** The value a line `<key>=...` converts for field `f`, if the literal
      `<key>=` matches and the conversion succeeds. */
  function Convert(tok: string, key: string, f: Field): (r: Option<Value>)
    ensures r.Some? ==> (r.value.Num? <==> f == Major || f == Minor)
  {
    var lit := key + "=";
    if !HasPrefix(lit, tok) then None
    else if f == Major || f == Minor then
      match ScanDecimal(tok[|lit|..])
      case None => None
      case Some(n) => Some(Num(n))
    else
      match ScanString(tok[|lit|..])
      case None => None
      case Some(s) => Some(Text(s))
  }

  /** What line `tok` sets: the `strncmp` chain picks the field by its key,
      then `sscanf` needs `<key>=` and a value. */
  function Setting(tok: string, f: Field): (r: Option<Value>)
    ensures r.Some? ==> (r.value.Num? <==> f == Major || f == Minor)
  {
    if HasPrefix("MAJOR", tok) then (if f == Major then Convert(tok, "MAJOR", f) else None)
    else if HasPrefix("MINOR", tok) then (if f == Minor then Convert(tok, "MINOR", f) else None)
    else if HasPrefix("DEVNAME", tok) then (if f == DevName then Convert(tok, "DEVNAME", f) else None)
    else if HasPrefix("PARTNAME", tok) then (if f == PartName then Convert(tok, "PARTNAME", f) else None)
    else None
  }

  /** Field `f` of `d` set to `v` when `v` has the field's kind. */
  function Set(d: Dev, f: Field, v: Value): Dev
  {
    match (f, v)
    case (Major, Num(n)) => d.(major := n)
    case (Minor, Num(n)) => d.(minor := n)
    case (DevName, Text(s)) => d.(devname := s)
    case (PartName, Text(s)) => d.(partname := s)
    case _ => d
  }

  /** One line of a `uevent` record applied to the device. */
  function Apply(d: Dev, tok: string): Dev
  {
    var d1 := if Setting(tok, Major).Some? then Set(d, Major, Setting(tok, Major).value) else d;
    var d2 := if Setting(tok, Minor).Some? then Set(d1, Minor, Setting(tok, Minor).value) else d1;
    var d3 := if Setting(tok, DevName).Some? then Set(d2, DevName, Setting(tok, DevName).value) else d2;
    if Setting(tok, PartName).Some? then Set(d3, PartName, Setting(tok, PartName).value) else d3
  }

  /** The lines `toks` applied in order. */
  function ParseAll(d: Dev, toks: seq<string>): Dev
    decreases |toks|
  {
    if |toks| == 0 then d else ParseAll(Apply(d, toks[0]), toks[1..])
  }

  /** The value of the last line that sets `f`, if any line does. */
  function LastSetting(toks: seq<string>, f: Field): (r: Option<Value>)
    ensures r.None? <==> forall j :: 0 <= j < |toks| ==> Setting(toks[j], f).None?
    decreases |toks|
  {
    if |toks| == 0 then None
    else
      var rest := LastSetting(toks[1..], f);
      assert forall j :: 1 <= j < |toks| ==> toks[j] == toks[1..][j - 1];
      if rest.Some? then rest else Setting(toks[0], f)
  }

  /** A line that sets `f` is overridden only by a later line setting `f`. */
  lemma {:induction false} LastSettingIs(toks: seq<string>, f: Field, j: nat)
    requires j < |toks| && Setting(toks[j], f).Some?
    requires forall k :: j < k < |toks| ==> Setting(toks[k], f).None?
    ensures LastSetting(toks, f) == Setting(toks[j], f)
    decreases |toks|
  {
    TailNone(toks, f, j);
    if j > 0 {
      assert toks[1..][j - 1] == toks[j];
      LastSettingIs(toks[1..], f, j - 1);
      LastFromTail(toks, f);
    } else {
      LastIsFirst(toks, f);
    }
  }

  lemma {:induction false} LastFromTail(toks: seq<string>, f: Field)
    requires |toks| > 0 && LastSetting(toks[1..], f).Some?
    ensures LastSetting(toks, f) == LastSetting(toks[1..], f)
  {
  }

  lemma {:induction false} LastIsFirst(toks: seq<string>, f: Field)
    requires |toks| > 0 && forall k :: 0 <= k < |toks| - 1 ==> Setting(toks[1..][k], f).None?
    ensures LastSetting(toks, f) == Setting(toks[0], f)
  {
  }

  /** The lines after `j` that leave `f` alone, counted in the tail. */
  lemma {:induction false} TailNone(toks: seq<string>, f: Field, j: nat)
    requires j < |toks|
    requires forall k :: j < k < |toks| ==> Setting(toks[k], f).None?
    ensures forall k :: j <= k < |toks| - 1 ==> Setting(toks[1..][k], f).None?
  {
    forall k | j <= k < |toks| - 1 ensures Setting(toks[1..][k], f).None? {
      assert toks[1..][k] == toks[k + 1];
    }
  }

  lemma {:induction false} ApplyField(d: Dev, tok: string, f: Field)
    ensures Get(Apply(d, tok), f) == (if Setting(tok, f).Some? then Setting(tok, f).value else Get(d, f))
    ensures Apply(d, tok).path == d.path
  {
  }

  /** Each field ends up with the value of the last line that sets it, and
      keeps its old value when no line does; `path` is never touched. */
  lemma {:induction false} ParseAllLast(d: Dev, toks: seq<string>, f: Field)
    ensures Get(ParseAll(d, toks), f) == (if LastSetting(toks, f).Some? then LastSetting(toks, f).value else Get(d, f))
    ensures ParseAll(d, toks).path == d.path
    decreases |toks|
  {
    if |toks| > 0 {
      ApplyField(d, toks[0], f);
      ParseAllLast(Apply(d, toks[0]), toks[1..], f);
    }
  }

  /** An entry of `/sys/dev/block`: its name and the text of its `uevent`. */
  datatype Entry = Entry(name: string, uevent: string)

  predicate IsDot(e: Entry)
  {
    e.name == "." || e.name == ".."
  }

  /** The lines `strtok` yields for a `uevent` text. */
  function Lines(e: Entry): seq<string>
  {
    Tokens(e.uevent, '\n')
  }

  /** The device after visiting entry `e` with the reused `dev`. */
  function Visit(d: Dev, e: Entry): Dev
  {
    if IsDot(e) then d else ParseAll(d, Lines(e))
  }

  /** The `readdir` loop from device state `d`: the final state and whether
      an entry matched. */
  function Lookup(d: Dev, es: seq<Entry>, partname: string): (Dev, bool)
    decreases |es|
  {
    if |es| == 0 then (d, false)
    else if IsDot(es[0]) then Lookup(d, es[1..], partname)
    else
      var d1 := ParseAll(d, Lines(es[0]));
      if d1.partname == partname then (d1.(path := BLOCK_DIR + d1.devname), true)
      else Lookup(d1, es[1..], partname)
  }

  /** The device state after visiting the first `k` entries. */
  function State(d: Dev, es: seq<Entry>, k: nat): Dev
    requires k <= |es|
    decreases k
  {
    if k == 0 then d else Visit(State(d, es, k - 1), es[k - 1])
  }

  /** Entry `k` is one the loop would stop at, given what it saw before. */
  predicate Hit(d: Dev, es: seq<Entry>, partname: string, k: nat)
    requires k < |es|
  {
    !IsDot(es[k]) && State(d, es, k + 1).partname == partname
  }

  lemma {:induction false} StateShift(d: Dev, es: seq<Entry>, k: nat)
    requires 0 < |es| && k < |es|
    ensures State(d, es, k + 1) == State(Visit(d, es[0]), es[1..], k)
    decreases k
  {
    if k > 0 {
      StateShift(d, es, k - 1);
      assert es[1..][k - 1] == es[k];
    }
  }

  lemma {:induction false} HitShift(d: Dev, es: seq<Entry>, partname: string, k: nat)
    requires 0 < k < |es|
    ensures Hit(d, es, partname, k) == Hit(Visit(d, es[0]), es[1..], partname, k - 1)
  {
    StateShift(d, es, k);
    assert es[1..][k - 1] == es[k];
  }

  /** The first entry whose parsed `partname` equals the request wins; the
      path names its `devname` under `/dev/block/`. */
  lemma {:induction false} LookupFirst(d: Dev, es: seq<Entry>, partname: string, k: nat)
    requires k < |es| && Hit(d, es, partname, k)
    requires forall j :: 0 <= j < k ==> !Hit(d, es, partname, j)
    ensures var s := State(d, es, k + 1); Lookup(d, es, partname) == (s.(path := BLOCK_DIR + s.devname), true)
    decreases |es|
  {
    StateShift(d, es, 0);
    if k > 0 {
      assert !Hit(d, es, partname, 0);
      forall j | 0 <= j < k - 1
        ensures !Hit(Visit(d, es[0]), es[1..], partname, j)
      {
        HitShift(d, es, partname, j + 1);
      }
      HitShift(d, es, partname, k);
      LookupFirst(Visit(d, es[0]), es[1..], partname, k - 1);
      StateShift(d, es, k);
    }
  }

  /** With no entry to stop at, the loop visits them all and fails. */
  lemma {:induction false} LookupNone(d: Dev, es: seq<Entry>, partname: string)
    requires forall j :: 0 <= j < |es| ==> !Hit(d, es, partname, j)
    ensures Lookup(d, es, partname) == (State(d, es, |es|), false)
    decreases |es|
  {
    if |es| > 0 {
      StateShift(d, es, 0);
      assert !Hit(d, es, partname, 0);
      forall j | 0 <= j < |es| - 1
        ensures !Hit(Visit(d, es[0]), es[1..], partname, j)
      {
        HitShift(d, es, partname, j + 1);
      }
      LookupNone(Visit(d, es[0]), es[1..], partname);
      StateShift(d, es, |es| - 1);
    }
  }

  /** `dev` is reused across entries: when the matching entry has no
      `DEVNAME=` line, the path is built from an earlier entry's name. */
  lemma {:induction false} StaleDevname(d: Dev, es: seq<Entry>, partname: string, k: nat)
    requires k < |es| && Hit(d, es, partname, k)
    requires forall j :: 0 <= j < k ==> !Hit(d, es, partname, j)
    requires forall j :: 0 <= j < |Lines(es[k])| ==> Setting(Lines(es[k])[j], DevName).None?
    ensures Lookup(d, es, partname).0.path == BLOCK_DIR + State(d, es, k).devname
  {
    LookupFirst(d, es, partname, k);
    ParseAllLast(State(d, es, k), Lines(es[k]), DevName);
  }

  /** `struct device`, updated in place by `parse_device` and `setup_block`. */
  class Device {
    var major: nat
    var minor: nat
    var devname: string
    var partname: string
    var path: string

    function Fields(): Dev
      reads this
    {
      Dev(major, minor, devname, partname, path)
    }

    constructor(d: Dev)
      ensures Fields() == d
    {
      major, minor, devname, partname, path := d.major, d.minor, d.devname, d.partname, d.path;
    }

    /** The body of the `strtok` loop of `parse_device` for one line. */
    method ParseLine(tok: string)
      modifies this
      ensures Fields() == Apply(old(Fields()), tok)
    {
      if HasPrefix("MAJOR", tok) {
        var v := Convert(tok, "MAJOR", Major);
        if v.Some? { major := v.value.n; }
      } else if HasPrefix("MINOR", tok) {
        var v := Convert(tok, "MINOR", Minor);
        if v.Some? { minor := v.value.n; }
      } else if HasPrefix("DEVNAME", tok) {
        var v := Convert(tok, "DEVNAME", DevName);
        if v.Some? { devname := v.value.s; }
      } else if HasPrefix("PARTNAME", tok) {
        var v := Convert(tok, "PARTNAME", PartName);
        if v.Some? { partname := v.value.s; }
      }
    }

    /** `parse_device(dev, uevent)`. */
    method ParseDevice(uevent: string)
      modifies this
      ensures Fields() == ParseAll(old(Fields()), Tokens(uevent, '\n'))
    {
      var toks := Tokens(uevent, '\n');
      var i := 0;
      while i < |toks|
        invariant 0 <= i <= |toks|
        invariant ParseAll(Fields(), toks[i..]) == ParseAll(old(Fields()), toks)
      {
        assert toks[i..][1..] == toks[i + 1..];
        ParseLine(toks[i]);
        i := i + 1;
      }
    }
  }

  /** `setup_block(dev, partname)` over the listing of `/sys/dev/block`
      (`None` when it cannot be opened): 0 when a device matched, with its
      path filled in, else 1. */
  method SetupBlock(dev: Device, dir: Option<seq<Entry>>, partname: string) returns (ret: int)
    modifies dev
    ensures dir.None? ==> ret == 1 && dev.Fields() == old(dev.Fields())
    ensures dir.Some? ==> var r := Lookup(old(dev.Fields()), dir.value, partname);
      dev.Fields() == r.0 && (ret == 0 <==> r.1) && (ret == 0 || ret == 1)
  {
    if dir.None? {
      return 1;
    }
    var es := dir.value;
    ghost var goal := Lookup(dev.Fields(), es, partname);
    var found := false;
    var i := 0;
    while i < |es| && !found
      invariant 0 <= i <= |es|
      invariant !found ==> Lookup(dev.Fields(), es[i..], partname) == goal
      invariant found ==> (dev.Fields(), true) == goal
    {
      var e := es[i];
      assert es[i..][1..] == es[i + 1..];
      if !IsDot(e) {
        dev.ParseDevice(e.uevent);
        if dev.partname == partname {
          dev.path := BLOCK_DIR + dev.devname;
          found := true;
        }
      }
      i := i + 1;
    }
    ret := if found then 0 else 1;
  }
}
