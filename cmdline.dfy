/**
  * `parse_cmdline` of jni/init/magiskinit.c: the kernel command line split
  * into words, looking for `skip_initramfs` and the last
  * `androidboot.slot_suffix=<slot>`.
  *
  * The text of `/proc/cmdline` comes in as a value; mounting `/proc` and
  * reading the file are left out.
  */
module Cmdline {
  import opened Strings
  import opened Results
  import opened Scanf

  const SLOT_KEY: string := "androidboot.slot_suffix"
  const SKIP: string := "skip_initramfs"

  /** The slot word `tok` sets: the key picks the branch (`strncmp` on 23
      bytes), then `sscanf` needs the `=` and a word. */
  function SlotArg(tok: string): (r: Option<string>)
    ensures r.Some? ==> HasPrefix(SLOT_KEY + "=", tok) && |r.value| > 0
    ensures r.Some? ==> forall j :: 0 <= j < |r.value| ==> !IsSpace(r.value[j])
  {
    if HasPrefix(SLOT_KEY, tok) && HasPrefix(SLOT_KEY + "=", tok) then ScanString(tok[|SLOT_KEY| + 1..])
    else None
  }

  /** The slot of the last word that sets one, if any does. */
  function LastSlot(toks: seq<string>): (r: Option<string>)
    ensures r.None? <==> forall j :: 0 <= j < |toks| ==> SlotArg(toks[j]).None?
    decreases |toks|
  {
    if |toks| == 0 then None
    else
      var rest := LastSlot(toks[1..]);
      assert forall j :: 1 <= j < |toks| ==> toks[j] == toks[1..][j - 1];
      if rest.Some? then rest else SlotArg(toks[0])
  }

  /** A word that sets the slot is overridden only by a later such word. */
  lemma {:induction false} LastSlotIs(toks: seq<string>, j: nat)
    requires j < |toks| && SlotArg(toks[j]).Some?
    requires forall k :: j < k < |toks| ==> SlotArg(toks[k]).None?
    ensures LastSlot(toks) == SlotArg(toks[j])
    decreases |toks|
  {
    if j > 0 {
      assert toks[1..][j - 1] == toks[j];
      assert forall k :: j - 1 < k < |toks| - 1 ==> toks[1..][k] == toks[k + 1];
      LastSlotIs(toks[1..], j - 1);
    } else {
      assert forall k :: 0 <= k < |toks| - 1 ==> toks[1..][k] == toks[k + 1];
    }
  }

  /** The slot after the words `toks`, starting from `slot`. */
  function SlotAfter(slot: string, toks: seq<string>): string
  {
    if LastSlot(toks).Some? then LastSlot(toks).value else slot
  }

  /** One more word: the slot it sets, if any, replaces the current one. */
  lemma {:induction false} SlotStep(slot: string, toks: seq<string>, i: nat)
    requires i < |toks|
    ensures SlotAfter(if SlotArg(toks[i]).Some? then SlotArg(toks[i]).value else slot, toks[i + 1..]) ==
      SlotAfter(slot, toks[i..])
  {
    assert toks[i..][1..] == toks[i + 1..];
    assert toks[i..][0] == toks[i];
  }

  /** One more word: `skip_initramfs` is among the first `i + 1` words exactly
      when it is among the first `i` or is word `i`. */
  lemma {:induction false} SkipStep(toks: seq<string>, i: nat)
    requires i < |toks|
    ensures (SKIP in toks[..i + 1]) == (SKIP in toks[..i] || toks[i] == SKIP)
  {
    assert toks[..i + 1] == toks[..i] + [toks[i]];
  }

  /** The text with each newline read as a space. */
  function Blanked(s: string): (r: string)
    ensures |r| == |s| && '\n' !in r
    ensures forall i :: 0 <= i < |s| ==> r[i] == (if s[i] == '\n' then ' ' else s[i])
  {
    seq(|s|, i requires 0 <= i < |s| => if s[i] == '\n' then ' ' else s[i])
  }

  /** The words of the command line, split on spaces and on the newline the
      kernel ends `/proc/cmdline` with. */
  function CmdlineTokens(text: string): seq<string>
  {
    Tokens(Blanked(text), ' ')
  }

  /** The words as `strtok(buffer, " ")` yields them: split on spaces only. */
  function CmdlineTokensAsWritten(text: string): seq<string>
  {
    Tokens(text, ' ')
  }

  /** A separator at the end adds only an empty last piece. */
  lemma {:induction false} SplitSnoc(s: string, c: char)
    ensures Split(s + [c], c) == Split(s, c) + [[]]
    decreases |s|
  {
    var k := Find(s, c);
    var t := s + [c];
    if k < |s| {
      FindAt(t, c, k);
      SnocSlices(s, c, k);
      SplitCut(t, c, k);
      SplitCut(s, c, k);
      SplitSnoc(s[k + 1..], c);
      ConsSnoc(s[..k], Split(s[k + 1..], c), []);
    } else {
      FindAt(t, c, |s|);
      SnocWhole(s, c);
      SplitCut(t, c, |s|);
      SplitWhole([], c);
      SplitWhole(s, c);
    }
  }

  /** `Split` at a separator found at `k`. */
  lemma {:induction false} SplitCut(s: string, c: char, k: nat)
    requires k == Find(s, c) && k < |s|
    ensures Split(s, c) == [s[..k]] + Split(s[k + 1..], c)
  {
  }

  /** `Split` of a text without the separator. */
  lemma {:induction false} SplitWhole(s: string, c: char)
    requires Find(s, c) == |s|
    ensures Split(s, c) == [s]
  {
  }

  /** Slicing a sequence with one element appended, before its old end. */
  lemma {:induction false} SnocSlices<T>(s: seq<T>, x: T, k: nat)
    requires k < |s|
    ensures (s + [x])[..k] == s[..k] && (s + [x])[k + 1..] == s[k + 1..] + [x]
  {
  }

  /** Slicing a sequence with one element appended, at its old end. */
  lemma {:induction false} SnocWhole<T>(s: seq<T>, x: T)
    ensures (s + [x])[..|s|] == s && (s + [x])[|s| + 1..] == []
  {
  }

  lemma {:induction false} ConsSnoc<T>(a: T, rest: seq<T>, x: T)
    ensures [a] + (rest + [x]) == ([a] + rest) + [x]
  {
  }

  lemma {:induction false} NonEmptySnoc(ls: seq<string>)
    ensures NonEmpty(ls + [[]]) == NonEmpty(ls)
    decreases |ls|
  {
    if |ls| > 0 {
      assert (ls + [[]])[1..] == ls[1..] + [[]];
      NonEmptySnoc(ls[1..]);
    } else {
      assert ls + [[]] == [[]];
      assert NonEmpty([[]]) == NonEmpty([]);
    }
  }

  /** The kernel's trailing newline does not change the words. */
  lemma {:induction false} TrailingNewlineIgnored(text: string)
    ensures CmdlineTokens(text + "\n") == CmdlineTokens(text)
  {
    assert Blanked(text + "\n") == Blanked(text) + [' '];
    SplitSnoc(Blanked(text), ' ');
    NonEmptySnoc(Split(Blanked(text), ' '));
  }

  /** Without newlines the words are those `strtok` yields. */
  lemma {:induction false} NoNewlineAsWritten(text: string)
    requires '\n' !in text
    ensures CmdlineTokens(text) == CmdlineTokensAsWritten(text)
  {
    assert Blanked(text) == text;
  }

  /** A word holding no separator is the only piece `strtok` yields. */
  lemma {:induction false} OneWord(w: string, c: char)
    requires w != [] && c !in w
    ensures Tokens(w, c) == [w]
  {
    FindAt(w, c, |w|);
    assert Split(w, c) == [w];
  }

  /** A last word followed by the kernel's newline: `strtok` keeps the
      newline in the word, the corrected split drops it. */
  lemma {:induction false} LastWord(w: string)
    requires w != [] && ' ' !in w && '\n' !in w
    ensures CmdlineTokensAsWritten(w + "\n") == [w + "\n"]
    ensures CmdlineTokens(w + "\n") == [w]
  {
    OneWord(w + "\n", ' ');
    TrailingNewlineIgnored(w);
    NoNewlineAsWritten(w);
    OneWord(w, ' ');
  }

  /** As written, a command line ending in `skip_initramfs` reaches `strcmp`
      as `skip_initramfs\n`, so the flag is missed; read with the newline
      as a separator it is found. */
  lemma {:induction false} TrailingNewlineHidesSkip()
    ensures SKIP !in CmdlineTokensAsWritten(SKIP + "\n")
    ensures SKIP in CmdlineTokens(SKIP + "\n")
  {
    assert forall j :: 0 <= j < |SKIP| ==> SKIP[j] != ' ' && SKIP[j] != '\n';
    LastWord(SKIP);
    assert |SKIP + "\n"| != |SKIP|;
  }

  /** `struct cmdline`, filled in place by `parse_cmdline`. */
  class Cmdline {
    var skipInitramfs: int
    var slot: string

    /** One turn of the `strtok` loop. */
    method ParseWord(tok: string)
      modifies this
      ensures slot == (if SlotArg(tok).Some? then SlotArg(tok).value else old(slot))
      ensures skipInitramfs == (if tok == SKIP then 1 else old(skipInitramfs))
    {
      if HasPrefix(SLOT_KEY, tok) {
        var v := SlotArg(tok);
        if v.Some? {
          slot := v.value;
        }
      } else if tok == SKIP {
        skipInitramfs := 1;
      }
    }

    /** `parse_cmdline` over the text of `/proc/cmdline`: the flag says
        whether some word is exactly `skip_initramfs`, the slot is the last
        one set, or empty. */
    method Parse(text: string)
      modifies this
      ensures skipInitramfs == (if SKIP in CmdlineTokens(text) then 1 else 0)
      ensures slot == SlotAfter("", CmdlineTokens(text))
    {
      ParseWords(CmdlineTokens(text));
    }

    /** The `strtok` loop over the words, from a cleared `struct cmdline`. */
    method ParseWords(toks: seq<string>)
      modifies this
      ensures skipInitramfs == (if SKIP in toks then 1 else 0)
      ensures slot == SlotAfter("", toks)
    {
      skipInitramfs := 0;
      slot := "";
      var i := 0;
      while i < |toks|
        invariant 0 <= i <= |toks|
        invariant skipInitramfs == (if SKIP in toks[..i] then 1 else 0)
        invariant SlotAfter(slot, toks[i..]) == SlotAfter("", toks)
      {
        SlotStep(slot, toks, i);
        SkipStep(toks, i);
        ParseWord(toks[i]);
        i := i + 1;
      }
      assert toks[..i] == toks;
    }
  }
}
