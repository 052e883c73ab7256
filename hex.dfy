/**
  * The 8-character hexadecimal header fields of the "newc" cpio format:
  * `x8u` reads one (jni/magiskboot/cpio.c), `%08x` writes one.
  */
module Hex {
  import opened Results

  const FIELD_LIMIT: nat := 0x1_0000_0000

  predicate IsHexDigit(c: char)
  {
    ('0' <= c <= '9') || ('a' <= c <= 'f') || ('A' <= c <= 'F')
  }

  predicate AllHex(s: string)
  {
    forall i :: 0 <= i < |s| ==> IsHexDigit(s[i])
  }

  function DigitValue(c: char): (v: nat)
    requires IsHexDigit(c)
    ensures v < 16
  {
    if '0' <= c <= '9' then (c - '0') as nat
    else if 'a' <= c <= 'f' then (c - 'a') as nat + 10
    else (c - 'A') as nat + 10
  }

  /** The number a string of hex digits denotes, most significant first. */
  function HexValue(s: string): nat
    requires AllHex(s)
  {
    if |s| == 0 then 0 else HexValue(s[..|s| - 1]) * 16 + DigitValue(s[|s| - 1])
  }

  function Pow16(k: nat): (p: nat)
    ensures p >= 1
  {
    if k == 0 then 1 else 16 * Pow16(k - 1)
  }

  lemma {:induction false} ZerosValue(s: string)
    requires forall j :: 0 <= j < |s| ==> s[j] == '0'
    ensures AllHex(s) && HexValue(s) == 0
    decreases |s|
  {
    if |s| > 0 { ZerosValue(s[..|s| - 1]); }
  }

  /** Leading zeros do not change the value of a hex string. */
  lemma {:induction false} LeadingZerosValue(s: string, k: nat)
    requires AllHex(s) && k <= |s|
    requires forall j :: 0 <= j < k ==> s[j] == '0'
    ensures HexValue(s) == HexValue(s[k..])
    decreases |s|
  {
    if |s| == k {
      ZerosValue(s);
      assert s[k..] == [];
    } else {
      var init := s[..|s| - 1];
      LeadingZerosValue(init, k);
      assert init[k..] == s[k..][..|s[k..]| - 1];
    }
  }

  /** The loop of `x8u` that skips leading '0's: all of them gives 0,
      otherwise the rest must scan completely as hex. */
  function SkipZeros(s: string): (r: Result<nat>)
    ensures r.Ok? <==> AllHex(s)
    ensures r.Ok? ==> r.value == HexValue(s)
    decreases |s|
  {
    if |s| == 0 then Ok(0)
    else if s[0] == '0' then
      var r := SkipZeros(s[1..]);
      assert AllHex(s) <==> AllHex(s[1..]) by {
        if AllHex(s[1..]) {
          forall i | 0 <= i < |s| ensures IsHexDigit(s[i]) {
            if i > 0 { assert s[i] == s[1..][i - 1]; }
          }
        }
      }
      assert AllHex(s) ==> HexValue(s) == HexValue(s[1..]) by {
        if AllHex(s) { LeadingZerosValue(s, 1); }
      }
      r
    else if AllHex(s) then Ok(HexValue(s))
    else Err(BadHeader)
  }

  /** `x8u`: one 8-character header field. */
  function X8u(field: string): (r: Result<nat>)
    requires |field| == 8
    ensures r.Ok? <==> AllHex(field)
    ensures r.Ok? ==> r.value == HexValue(field) && r.value < FIELD_LIMIT
  {
    var r := SkipZeros(field);
    assert r.Ok? ==> r.value < FIELD_LIMIT by {
      if r.Ok? { HexBound(field); assert Pow16(8) == FIELD_LIMIT; }
    }
    r
  }

  lemma {:induction false} HexBound(s: string)
    requires AllHex(s)
    ensures HexValue(s) < Pow16(|s|)
    decreases |s|
  {
    if |s| > 0 { HexBound(s[..|s| - 1]); }
  }

  function Digit(v: nat): (c: char)
    requires v < 16
    ensures IsHexDigit(c) && DigitValue(c) == v
  {
    if v < 10 then ('0' as int + v) as char else ('a' as int + v - 10) as char
  }

  /** `%0<k>x`: the lower-case hex digits of `n`, zero-padded to `k`. */
  function HexDigits(n: nat, k: nat): (s: string)
    ensures |s| == k && AllHex(s)
  {
    if k == 0 then [] else HexDigits(n / 16, k - 1) + [Digit(n % 16)]
  }

  lemma {:induction false} HexDigitsValue(n: nat, k: nat)
    requires n < Pow16(k)
    ensures HexValue(HexDigits(n, k)) == n
  {
    if k > 0 {
      HexDigitsValue(n / 16, k - 1);
      var s := HexDigits(n, k);
      assert s[..|s| - 1] == HexDigits(n / 16, k - 1);
    }
  }

  /** `%08x` of a 32-bit value. */
  function Hex8(n: nat): (s: string)
    requires n < FIELD_LIMIT
    ensures |s| == 8
  {
    HexDigits(n, 8)
  }

  /** Reading back a written field gives the value written. */
  lemma {:induction false} Hex8RoundTrip(n: nat)
    requires n < FIELD_LIMIT
    ensures X8u(Hex8(n)) == Ok(n)
  {
    assert Pow16(8) == FIELD_LIMIT;
    HexDigitsValue(n, 8);
  }
}
