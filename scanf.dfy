/**
  * The two `sscanf` conversions the boot-time parsers of
  * jni/init/magiskinit.c use after a literal prefix: `%s` (a word) and
  * `%ld` (a decimal number). Both skip leading whitespace and fail when
  * nothing follows it; a failed conversion leaves its target unwritten.
  */
module Scanf {
  import opened Strings
  import opened Results

  /** How many whitespace characters `s` starts with. */
  function SpaceRun(s: string): (k: nat)
    ensures k <= |s|
    ensures forall j :: 0 <= j < k ==> IsSpace(s[j])
    ensures k < |s| ==> !IsSpace(s[k])
    decreases |s|
  {
    if |s| == 0 || !IsSpace(s[0]) then 0 else 1 + SpaceRun(s[1..])
  }

  /** How many non-whitespace characters `s` starts with. */
  function WordRun(s: string): (k: nat)
    ensures k <= |s|
    ensures forall j :: 0 <= j < k ==> !IsSpace(s[j])
    ensures k < |s| ==> IsSpace(s[k])
    decreases |s|
  {
    if |s| == 0 || IsSpace(s[0]) then 0 else 1 + WordRun(s[1..])
  }

  /** `%s`: the word after any leading whitespace; no word, no conversion. */
  function ScanString(s: string): (r: Option<string>)
    ensures r.Some? ==> |r.value| > 0 && forall j :: 0 <= j < |r.value| ==> !IsSpace(r.value[j])
  {
    var t := s[SpaceRun(s)..];
    var w := t[..WordRun(t)];
    if |w| == 0 then None else Some(w)
  }

  /** The runs are determined by where they stop. */
  lemma {:induction false} SpaceRunStops(pad: string, t: string)
    requires forall j :: 0 <= j < |pad| ==> IsSpace(pad[j])
    requires |t| == 0 || !IsSpace(t[0])
    ensures SpaceRun(pad + t) == |pad|
    decreases |pad|
  {
    if |pad| > 0 {
      assert (pad + t)[1..] == pad[1..] + t;
      SpaceRunStops(pad[1..], t);
    } else {
      assert pad + t == t;
    }
  }

  lemma {:induction false} WordRunStops(w: string, t: string)
    requires forall j :: 0 <= j < |w| ==> !IsSpace(w[j])
    requires |t| == 0 || IsSpace(t[0])
    ensures WordRun(w + t) == |w|
    decreases |w|
  {
    if |w| > 0 {
      assert (w + t)[1..] == w[1..] + t;
      WordRunStops(w[1..], t);
    } else {
      assert w + t == t;
    }
  }

  /** A word written after some whitespace and before whitespace or the end
      is read back by `%s`. */
  lemma {:induction false} ScanStringWord(pad: string, w: string, rest: string)
    requires forall j :: 0 <= j < |pad| ==> IsSpace(pad[j])
    requires |w| > 0 && forall j :: 0 <= j < |w| ==> !IsSpace(w[j])
    requires |rest| == 0 || IsSpace(rest[0])
    ensures ScanString(pad + w + rest) == Some(w)
  {
    var s := pad + w + rest;
    SpaceRunStops(pad, w + rest);
    assert s == pad + (w + rest);
    assert s[|pad|..] == w + rest;
    WordRunStops(w, rest);
    assert (w + rest)[..|w|] == w;
  }

  /** How many decimal digits `s` starts with. */
  function DigitRun(s: string): (k: nat)
    ensures k <= |s|
    ensures forall j :: 0 <= j < k ==> IsDigit(s[j])
    ensures k < |s| ==> !IsDigit(s[k])
    decreases |s|
  {
    if |s| == 0 || !IsDigit(s[0]) then 0 else 1 + DigitRun(s[1..])
  }

  /** The value of a run of decimal digits, most significant first. */
  function DecimalValue(ds: string): nat
    requires forall j :: 0 <= j < |ds| ==> IsDigit(ds[j])
    decreases |ds|
  {
    if |ds| == 0 then 0
    else
      assert IsDigit(ds[|ds| - 1]);
      DecimalValue(ds[..|ds| - 1]) * 10 + (ds[|ds| - 1] as int - '0' as int)
  }

  /** `%ld` on unsigned input: the digits after any leading whitespace. */
  function ScanDecimal(s: string): Option<nat>
  {
    var t := s[SpaceRun(s)..];
    var k := DigitRun(t);
    if k == 0 then None else Some(DecimalValue(t[..k]))
  }

  /** The decimal digits of `n`, without leading zeros. */
  function DecimalText(n: nat): (s: string)
    ensures |s| > 0 && forall j :: 0 <= j < |s| ==> IsDigit(s[j])
    decreases n
  {
    var d := [('0' as int + n % 10) as char];
    if n < 10 then d else DecimalText(n / 10) + d
  }

  lemma {:induction false} DecimalTextValue(n: nat)
    ensures DecimalValue(DecimalText(n)) == n
    decreases n
  {
    var s := DecimalText(n);
    if n >= 10 {
      DecimalTextValue(n / 10);
      assert s[..|s| - 1] == DecimalText(n / 10);
    } else {
      assert s[..0] == [];
    }
  }

  lemma {:induction false} DigitRunStops(ds: string, t: string)
    requires forall j :: 0 <= j < |ds| ==> IsDigit(ds[j])
    requires |t| == 0 || !IsDigit(t[0])
    ensures DigitRun(ds + t) == |ds|
    decreases |ds|
  {
    if |ds| > 0 {
      assert (ds + t)[1..] == ds[1..] + t;
      DigitRunStops(ds[1..], t);
    } else {
      assert ds + t == t;
    }
  }

  /** A number printed in decimal and followed by anything but a digit is
      read back by `%ld`. */
  lemma {:induction false} ScanDecimalText(n: nat, rest: string)
    requires |rest| == 0 || !IsDigit(rest[0])
    ensures ScanDecimal(DecimalText(n) + rest) == Some(n)
  {
    var ds := DecimalText(n);
    var s := ds + rest;
    assert !IsSpace(s[0]);
    assert SpaceRun(s) == 0;
    assert s[0..] == s;
    DigitRunStops(ds, rest);
    assert s[..|ds|] == ds;
    DecimalTextValue(n);
  }
}
