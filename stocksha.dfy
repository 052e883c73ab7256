/**
  * `cpio_stocksha1` of jni/magiskboot/cpio.c: in the `init.magisk.rc`
  * entry, the 40 bytes that follow a line starting with `# STOCKSHA1=`.
  * Every scan stops at the payload end.
  *
  * The source steps from one line to the next with `strchr(pos + 1, '\n')`,
  * which passes over the newline of an empty line and so never looks at
  * the line after it. `ScanAsWritten` keeps that step; `Scan`, used by
  * the rest of the model, searches from `pos` and visits every line.
  */
module StockSha {
  import opened Strings
  import opened Results
  import opened Entries
  import opened Store

  const SHA_PREFIX: string := "# STOCKSHA1="
  const SHA_LENGTH: nat := 40

  /** The bytes copied after a prefix at `p`: 40 of them, fewer at the payload end. */
  function ShaAt(d: seq<char>, p: nat): (sha: string)
    requires p + |SHA_PREFIX| <= |d|
  {
    var t := d[p + |SHA_PREFIX|..];
    if |t| <= SHA_LENGTH then t else t[..SHA_LENGTH]
  }

  /** A line of the payload starts at `p`. */
  predicate LineStart(d: seq<char>, p: nat)
  {
    p < |d| && (p == 0 || d[p - 1] == '\n')
  }

  /** A line starting at `p` begins with the prefix. */
  predicate ShaLine(d: seq<char>, p: nat)
  {
    LineStart(d, p) && HasPrefix(SHA_PREFIX, d[p..])
  }

  /** `q` is the first prefixed line at or after `p`. */
  predicate FirstShaLine(d: seq<char>, p: nat, q: nat)
  {
    p <= q && ShaLine(d, q) && forall x :: p <= x < q ==> !ShaLine(d, x)
  }

  /** The scan as the source writes it: after a line that does not match,
      the search for the next newline starts one byte past the line start. */
  function ScanAsWritten(d: seq<char>, p: nat): (r: Option<string>)
    decreases |d| - p
  {
    if p >= |d| then None
    else if HasPrefix(SHA_PREFIX, d[p..]) then Some(ShaAt(d, p))
    else
      var k := Find(d[p + 1..], '\n');
      if p + 1 + k == |d| then None else ScanAsWritten(d, p + k + 2)
  }

  /** The scan that visits every line: the search for the next newline
      starts at the line start itself. */
  function Scan(d: seq<char>, p: nat): (r: Option<string>)
    decreases |d| - p
  {
    if p >= |d| then None
    else if HasPrefix(SHA_PREFIX, d[p..]) then Some(ShaAt(d, p))
    else
      var k := Find(d[p..], '\n');
      if p + k == |d| then None else Scan(d, p + k + 1)
  }

  /** No line from `p` on starts with the prefix. */
  ghost predicate NoShaFrom(d: seq<char>, p: nat)
  {
    forall q :: p <= q ==> !ShaLine(d, q)
  }

  /** `r` holds the bytes after the first prefixed line from `p` on, if there is one. */
  ghost predicate FindsFirst(d: seq<char>, p: nat, r: Option<string>)
  {
    forall q :: FirstShaLine(d, p, q) ==> r == Some(ShaAt(d, q))
  }

  /** `r` is what the scan from the line start `p` should find: nothing
      exactly when no prefixed line follows, and otherwise the bytes after
      the first one. */
  ghost predicate Agrees(d: seq<char>, p: nat, r: Option<string>)
  {
    (r.None? <==> NoShaFrom(d, p)) && FindsFirst(d, p, r)
  }

  /** From a line start, the scan finds nothing exactly when no later line
      starts with the prefix, and otherwise the bytes after the first one. */
  lemma {:induction false} ScanFindsFirstLine(d: seq<char>, p: nat)
    requires p <= |d| && (p == 0 || d[p - 1] == '\n')
    ensures Agrees(d, p, Scan(d, p))
    decreases |d| - p, 1
  {
    if p == |d| {
      AtEnd(d, p);
    } else {
      if HasPrefix(SHA_PREFIX, d[p..]) {
        MatchHere(d, p);
      } else {
        var k := Find(d[p..], '\n');
        NoLineInside(d, p, k);
        if p + k < |d| {
          NewlineAt(d, p, k);
          ScanSkips(d, p, k);
          NoShaInside(d, p, k);
          SkipCase(d, p, k);
        } else {
          LastLine(d, p, k);
        }
      }
    }
  }

  lemma {:induction false} AtEnd(d: seq<char>, p: nat)
    requires p == |d|
    ensures Scan(d, p) == None && Agrees(d, p, None)
  {
  }

  lemma {:induction false} MatchHere(d: seq<char>, p: nat)
    requires p < |d| && (p == 0 || d[p - 1] == '\n') && HasPrefix(SHA_PREFIX, d[p..])
    ensures Scan(d, p) == Some(ShaAt(d, p)) && Agrees(d, p, Scan(d, p))
  {
    assert ShaLine(d, p);
    forall q: nat | p < q ensures !FirstShaLine(d, p, q) {
      assert p <= p < q;
    }
  }

  /** After a line without the prefix, the scan goes on from the next line
      and finds what it finds there. */
  lemma {:induction false} SkipCase(d: seq<char>, p: nat, k: nat)
    requires p < |d| && p + k < |d| && d[p + k] == '\n'
    requires forall q :: p <= q <= p + k ==> !ShaLine(d, q)
    ensures Agrees(d, p, Scan(d, p + k + 1))
    decreases |d| - p, 0
  {
    ScanFindsFirstLine(d, p + k + 1);
    SkipLine(d, p, k, Scan(d, p + k + 1));
  }

  /** The line ends with a newline when its end lies inside the payload. */
  lemma {:induction false} NewlineAt(d: seq<char>, p: nat, k: nat)
    requires p < |d| && k == Find(d[p..], '\n') && p + k < |d|
    ensures d[p + k] == '\n'
  {
    assert d[p..][k] == d[p + k];
  }

  /** The scan passes over a line without the prefix. */
  lemma {:induction false} ScanSkips(d: seq<char>, p: nat, k: nat)
    requires p < |d| && !HasPrefix(SHA_PREFIX, d[p..]) && p + k < |d| && k == Find(d[p..], '\n')
    ensures Scan(d, p) == Scan(d, p + k + 1)
  {
  }

  /** No prefixed line starts inside a line without the prefix. */
  lemma {:induction false} NoShaInside(d: seq<char>, p: nat, k: nat)
    requires p < |d| && !HasPrefix(SHA_PREFIX, d[p..]) && NoLineBetween(d, p, k)
    ensures forall q :: p <= q <= p + k ==> !ShaLine(d, q)
  {
  }

  /** Neither the absence of a prefixed line nor the first one changes
      across a line without the prefix. */
  lemma {:induction false} SkipLine(d: seq<char>, p: nat, k: nat, r: Option<string>)
    requires forall q :: p <= q <= p + k ==> !ShaLine(d, q)
    requires Agrees(d, p + k + 1, r)
    ensures Agrees(d, p, r)
  {
    forall q | FirstShaLine(d, p, q) ensures FirstShaLine(d, p + k + 1, q) {
    }
  }

  /** A line that does not match and runs to the payload end. */
  lemma {:induction false} LastLine(d: seq<char>, p: nat, k: nat)
    requires p < |d| && !HasPrefix(SHA_PREFIX, d[p..]) && p + k == |d| && k == Find(d[p..], '\n')
    requires NoLineBetween(d, p, k)
    ensures Scan(d, p) == None && Agrees(d, p, None)
  {
  }

  /** No line starts after `p` up to `p + k`. */
  ghost predicate NoLineBetween(d: seq<char>, p: nat, k: nat)
  {
    forall q :: p < q <= p + k && q < |d| ==> !LineStart(d, q)
  }

  /** Between a line start and the next newline no other line starts. */
  lemma {:induction false} NoLineInside(d: seq<char>, p: nat, k: nat)
    requires p < |d| && k == Find(d[p..], '\n')
    ensures NoLineBetween(d, p, k)
  {
    forall q | p < q <= p + k && q < |d| ensures !LineStart(d, q) {
      assert d[p..][q - 1 - p] == d[q - 1];
    }
  }

  /** An empty line hides the line after it from the scan as written. */
  lemma {:induction false} EmptyLineHidesNext()
    ensures var d := "\n# STOCKSHA1=x";
      ScanAsWritten(d, 0) == None && Scan(d, 0) == Some("x")
  {
    var d := "\n# STOCKSHA1=x";
    assert d[1..] == SHA_PREFIX + "x";
    assert |d| == 14 && d[0] == '\n';
    NoNewline(d[1..]);
    AsWrittenFirst(d);
    ScanFirst(d);
  }

  lemma {:induction false} NoNewline(t: string)
    requires t == SHA_PREFIX + "x"
    ensures Find(t, '\n') == |t|
  {
    FindAt(t, '\n', |t|);
  }

  lemma {:induction false} AsWrittenFirst(d: string)
    requires |d| == 14 && d[0] == '\n' && Find(d[1..], '\n') == 13
    ensures ScanAsWritten(d, 0) == None
  {
    assert !HasPrefix(SHA_PREFIX, d[0..]);
  }

  lemma {:induction false} ScanFirst(d: string)
    requires |d| == 14 && d[0] == '\n' && d[1..] == SHA_PREFIX + "x"
    ensures Scan(d, 0) == Some("x")
  {
    assert !HasPrefix(SHA_PREFIX, d[0..]);
    FindAt(d[0..], '\n', 0);
    assert d[1..][..|SHA_PREFIX|] == SHA_PREFIX;
    assert Scan(d, 1) == Some(ShaAt(d, 1));
    assert d[1 + |SHA_PREFIX|..] == "x";
  }

  /** What `cpio_stocksha1` prints: the scan result of the first entry named
      `init.magisk.rc` whose payload holds a prefixed line, if any. */
  function StockShaOf(es: seq<Entry>): (r: Option<string>)
    ensures r.Some? ==> exists k :: 0 <= k < |es| && es[k].name == MAGISK_RC && Scan(es[k].data, 0) == r
    ensures r.None? <==> forall k :: 0 <= k < |es| && es[k].name == MAGISK_RC ==> Scan(es[k].data, 0).None?
    decreases |es|
  {
    if |es| == 0 then None
    else if es[0].name == MAGISK_RC && Scan(es[0].data, 0).Some? then Scan(es[0].data, 0)
    else
      var r := StockShaOf(es[1..]);
      assert forall k :: 1 <= k < |es| ==> es[k] == es[1..][k - 1];
      r
  }

  /** `cpio_stocksha1`: the entry loop with the line scan inside it. */
  method StockSha1(es: seq<Entry>) returns (r: Option<string>)
    ensures r == StockShaOf(es)
  {
    var i := 0;
    assert es[0..] == es;
    while i < |es|
      invariant i <= |es|
      invariant StockShaOf(es[i..]) == StockShaOf(es)
    {
      StockShaStep(es, i);
      if Cmp(es[i].name, MAGISK_RC) == 0 {
        var sha := ScanLines(es[i].data);
        if sha.Some? {
          return sha;
        }
      }
      i := i + 1;
    }
    assert es[i..] == [];
    r := None;
  }

  lemma {:induction false} StockShaStep(es: seq<Entry>, i: nat)
    requires i < |es|
    ensures StockShaOf(es[i..]) ==
      if es[i].name == MAGISK_RC && Scan(es[i].data, 0).Some? then Scan(es[i].data, 0) else StockShaOf(es[i + 1..])
  {
    assert es[i..][0] == es[i] && es[i..][1..] == es[i + 1..];
  }

  /** The line scan over one payload. */
  method ScanLines(d: seq<char>) returns (r: Option<string>)
    ensures r == Scan(d, 0)
  {
    var pos := 0;
    while pos < |d|
      invariant pos <= |d| && Scan(d, pos) == Scan(d, 0)
      decreases |d| - pos
    {
      var done, res, next := ScanTurn(d, pos);
      if done {
        return res;
      }
      pos := next;
    }
    r := None;
  }

  /** One line of the scan: the bytes after the prefix when the line starts
      with it, nothing when the line runs to the payload end, and otherwise
      the start of the next line. */
  method ScanTurn(d: seq<char>, pos: nat) returns (done: bool, r: Option<string>, next: nat)
    requires pos < |d|
    ensures done ==> r == Scan(d, pos)
    ensures !done ==> pos < next <= |d| && Scan(d, next) == Scan(d, pos)
  {
    var sha := StartsWithSha(d, pos);
    if sha {
      ScanMatch(d, pos);
      return true, Some(ShaAt(d, pos)), pos;
    }
    var q := NextNewline(d, pos);
    ScanStep(d, pos, q);
    if q == |d| {
      return true, None, q;
    }
    return false, None, q + 1;
  }

  /** `strchr(pos, '\n')`, stopped at the payload end. */
  method NextNewline(d: seq<char>, pos: nat) returns (q: nat)
    requires pos <= |d|
    ensures pos <= q <= |d| && (q < |d| ==> d[q] == '\n')
    ensures forall j :: pos <= j < q ==> d[j] != '\n'
  {
    q := pos;
    while q < |d| && d[q] != '\n'
      invariant pos <= q <= |d|
      invariant forall j :: pos <= j < q ==> d[j] != '\n'
    {
      q := q + 1;
    }
  }

  /** `memcmp(pos, "# STOCKSHA1=", 12) == 0`, with the payload end in view. */
  method StartsWithSha(d: seq<char>, pos: nat) returns (b: bool)
    requires pos <= |d|
    ensures b == HasPrefix(SHA_PREFIX, d[pos..])
  {
    b := |SHA_PREFIX| <= |d| - pos && d[pos..pos + |SHA_PREFIX|] == SHA_PREFIX;
    if |SHA_PREFIX| <= |d| - pos {
      assert d[pos..][..|SHA_PREFIX|] == d[pos..pos + |SHA_PREFIX|];
    }
  }

  lemma {:induction false} ScanMatch(d: seq<char>, p: nat)
    requires p < |d| && HasPrefix(SHA_PREFIX, d[p..])
    ensures Scan(d, p) == Some(ShaAt(d, p))
  {
  }

  /** One line of the scan, with the newline found by a byte loop. */
  lemma {:induction false} ScanStep(d: seq<char>, p: nat, q: nat)
    requires p < |d| && !HasPrefix(SHA_PREFIX, d[p..])
    requires p <= q <= |d| && (q < |d| ==> d[q] == '\n')
    requires forall j :: p <= j < q ==> d[j] != '\n'
    ensures q == |d| ==> Scan(d, p) == None
    ensures q < |d| ==> Scan(d, p) == Scan(d, q + 1)
  {
    LineEnd(d, p, q);
  }

  /** The newline the byte loop finds is the one `Find` finds. */
  lemma {:induction false} LineEnd(d: seq<char>, p: nat, q: nat)
    requires p <= q <= |d| && (q < |d| ==> d[q] == '\n')
    requires forall j :: p <= j < q ==> d[j] != '\n'
    ensures Find(d[p..], '\n') == q - p
  {
    var t := d[p..];
    forall j | 0 <= j < q - p ensures t[j] != '\n' {
      assert t[j] == d[p + j];
    }
    FindAt(t, '\n', q - p);
  }
}
