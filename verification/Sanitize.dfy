/**
 The terminal-escape scrubber. The source looks ahead in a peekable iterator and stops at a byte
 budget; the reference here is a five-mode automaton that sees one character at a time and has
 no budget. The scrubber is proved to give the longest prefix of the automaton's output that
 fits the budget in UTF-8.
 */
module Sanitize {
  import opened Text

  const MAX_BANNER_BYTES: nat := 4096

  const ESC: char := '\U{1B}'
  const BEL: char := '\U{07}'

  /** `char::is_control`: the C0 block, DEL and the C1 block. */
  predicate IsControl(c: char) {
    c < ' ' || '\U{7F}' <= c <= '\U{9F}'
  }

  function Utf8Len(c: char): (n: nat)
    ensures 1 <= n <= 4
  {
    if c < '\U{80}' then 1 else if c < '\U{800}' then 2 else if c < '\U{10000}' then 3 else 4
  }

  function Utf8Bytes(s: string): nat {
    if s == [] then 0 else Utf8Bytes(s[..|s| - 1]) + Utf8Len(s[|s| - 1])
  }

  // ---- the reference automaton ----

  datatype Mode = Ground | Escape | Csi | Osc | OscEscape

  predicate CsiFinal(c: char) { '@' <= c <= '~' }

  function Next(m: Mode, c: char): Mode {
    match m
    case Ground => if c == ESC then Escape else Ground
    case Escape => if c == '[' then Csi else if c == ']' then Osc else Ground
    case Csi => if CsiFinal(c) then Ground else Csi
    case Osc => if c == BEL then Ground else if c == ESC then OscEscape else Osc
    case OscEscape => if c == BEL || c == '\\' then Ground else if c == ESC then OscEscape else Osc
  }

  /** Only the ground mode prints: a tab as a space, other control characters not at all. */
  function Emit(m: Mode, c: char): string {
    if m != Ground then [] else if c == '\t' then " " else if IsControl(c) then [] else [c]
  }

  function ModeAfter(m: Mode, s: string): Mode
    decreases |s|
  {
    if s == [] then m else ModeAfter(Next(m, s[0]), s[1..])
  }

  function Scrub(m: Mode, s: string): string
    decreases |s|
  {
    if s == [] then [] else Emit(m, s[0]) + Scrub(Next(m, s[0]), s[1..])
  }

  /** The scrub without a budget. */
  function Scrubbed(s: string): string { Scrub(Ground, s) }

  lemma Turn(m: Mode, s: string, i: nat)
    requires i < |s|
    ensures Scrub(m, s[i..]) == Emit(m, s[i]) + Scrub(Next(m, s[i]), s[i + 1..])
    ensures Emit(m, s[i]) == [] ==> Scrub(m, s[i..]) == Scrub(Next(m, s[i]), s[i + 1..])
  {
    assert s[i..][1..] == s[i + 1..];
  }

  // ---- what is printed and what is skipped, by code points ----

  /** Outside escapes: a tab is a space, other control characters vanish, all else is printed. */
  lemma PlainCharacter(c: char, rest: string)
    requires c != '\U{1B}'
    ensures Scrubbed([c] + rest) ==
      (if c == '\t' then " " else if c as int < 0x20 || 0x7f <= c as int <= 0x9f then "" else [c]) + Scrubbed(rest)
  {
    assert ([c] + rest)[1..] == rest;
  }

  predicate IsFinal(c: char) { 0x40 <= c as int <= 0x7e }

  lemma {:induction false} CsiBody(params: string, tail: string)
    requires forall i :: 0 <= i < |params| ==> !IsFinal(params[i])
    ensures Scrub(Csi, params + tail) == Scrub(Csi, tail)
    decreases |params|
  {
    if params == [] {
      assert params + tail == tail;
    } else {
      assert (params + tail)[1..] == params[1..] + tail;
      CsiBody(params[1..], tail);
    }
  }

  /** A control sequence vanishes with its first final byte, and everything does when there is none. */
  lemma CsiIsSkipped(params: string, final: char, rest: string)
    requires (forall i :: 0 <= i < |params| ==> !IsFinal(params[i])) && IsFinal(final)
    ensures Scrubbed(['\U{1B}', '['] + (params + ([final] + rest))) == Scrubbed(rest)
    ensures Scrubbed(['\U{1B}', '['] + params) == []
  {
    Escaped('[', params + ([final] + rest));
    CsiBody(params, [final] + rest);
    assert ([final] + rest)[1..] == rest;
    Escaped('[', params);
    CsiBody(params, []);
    assert params + [] == params;
  }

  lemma Escaped(c: char, tail: string)
    ensures Scrubbed(['\U{1B}', c] + tail) == Scrub(if c == '[' then Csi else if c == ']' then Osc else Ground, tail)
  {
    var s := ['\U{1B}', c] + tail;
    assert s[1..] == [c] + tail && ([c] + tail)[1..] == tail;
    assert Scrub(Ground, s) == Scrub(Escape, [c] + tail);
  }

  /** ESC and a character that opens no sequence vanish together, and a last ESC alone. */
  lemma EscapePairIsSkipped(c: char, rest: string)
    requires c != '[' && c != ']'
    ensures Scrubbed(['\U{1B}', c] + rest) == Scrubbed(rest)
    ensures Scrubbed(['\U{1B}']) == []
  {
    Escaped(c, rest);
    assert ['\U{1B}'][1..] == [];
  }

  /** No BEL, and no ESC with a backslash behind it. */
  predicate NoOscEnd(body: string) {
    && (forall i :: 0 <= i < |body| ==> body[i] != '\U{07}')
    && (forall i :: 0 <= i < |body| - 1 ==> !(body[i] == '\U{1B}' && body[i + 1] == '\\'))
  }

  lemma {:induction false} OscBody(m: Mode, body: string, tail: string)
    requires m == Osc || m == OscEscape
    requires NoOscEnd(body) && (m == OscEscape && body != [] ==> body[0] != '\\')
    ensures exists m' :: (m' == Osc || m' == OscEscape) && Scrub(m, body + tail) == Scrub(m', tail)
    decreases |body|
  {
    if body == [] {
      assert body + tail == tail;
    } else {
      assert (body + tail)[1..] == body[1..] + tail;
      assert |body| > 1 ==> !(body[0] == '\U{1B}' && body[0 + 1] == '\\');
      OscBody(Next(m, body[0]), body[1..], tail);
    }
  }

  /** An operating system command vanishes with its first BEL or ESC backslash, and all does when there is none. */
  lemma OscIsSkipped(body: string, rest: string)
    requires NoOscEnd(body)
    ensures Scrubbed(['\U{1B}', ']'] + (body + (['\U{07}'] + rest))) == Scrubbed(rest)
    ensures Scrubbed(['\U{1B}', ']'] + (body + (['\U{1B}', '\\'] + rest))) == Scrubbed(rest)
    ensures Scrubbed(['\U{1B}', ']'] + body) == []
  {
    var bell, st := ['\U{07}'] + rest, ['\U{1B}', '\\'] + rest;
    Escaped(']', body + bell);
    OscBody(Osc, body, bell);
    assert bell[1..] == rest;
    Escaped(']', body + st);
    OscBody(Osc, body, st);
    assert st[1..] == ['\\'] + rest && (['\\'] + rest)[1..] == rest;
    assert Scrub(OscEscape, ['\\'] + rest) == Scrub(Ground, rest);
    Escaped(']', body);
    OscBody(Osc, body, []);
    assert body + [] == body;
  }

  lemma Utf8Lengths(c: char)
    ensures Utf8Bytes([c]) ==
      if c as int < 0x80 then 1 else if c as int < 0x800 then 2 else if c as int < 0x1_0000 then 3 else 4
  {
    assert [c][..0] == [];
  }

  // ---- the longest prefix within a budget ----

  function FitPrefix(t: string, budget: nat): string {
    if t == [] || Utf8Len(t[0]) > budget then [] else [t[0]] + FitPrefix(t[1..], budget - Utf8Len(t[0]))
  }

  lemma FitPrefixOfCons(c: char, rest: string, budget: nat)
    ensures FitPrefix([c] + rest, budget)
         == if Utf8Len(c) > budget then [] else [c] + FitPrefix(rest, budget - Utf8Len(c))
  {
    assert ([c] + rest)[1..] == rest;
  }

  lemma {:induction false} BytesOfCons(c: char, s: string)
    ensures Utf8Bytes([c] + s) == Utf8Len(c) + Utf8Bytes(s)
  {
    var t := [c] + s;
    if s == [] {
      assert t[..0] == [];
    } else {
      assert t[..|t| - 1] == [c] + s[..|s| - 1];
      BytesOfCons(c, s[..|s| - 1]);
    }
  }

  /** `FitPrefix` is a prefix within the budget. */
  lemma {:induction false} FitPrefixFits(t: string, budget: nat)
    ensures FitPrefix(t, budget) <= t && Utf8Bytes(FitPrefix(t, budget)) <= budget
    decreases |t|
  {
    if t != [] && Utf8Len(t[0]) <= budget {
      FitPrefixFits(t[1..], budget - Utf8Len(t[0]));
      BytesOfCons(t[0], FitPrefix(t[1..], budget - Utf8Len(t[0])));
    }
  }

  /** Every prefix within the budget is a prefix of `FitPrefix`, so that is the longest one. */
  lemma {:induction false} FitPrefixIsLongest(t: string, budget: nat, p: string)
    requires p <= t && Utf8Bytes(p) <= budget
    ensures p <= FitPrefix(t, budget)
    decreases |t|
  {
    if p != [] {
      assert p == [t[0]] + p[1..] && p[1..] <= t[1..];
      BytesOfCons(t[0], p[1..]);
      FitPrefixIsLongest(t[1..], budget - Utf8Len(t[0]), p[1..]);
    }
  }

  // ---- the scrubber ----

  /** Skips to just after the final byte of a CSI sequence, or to the end. */
  method SkipCsi(input: string, start: nat) returns (i: nat)
    requires start <= |input|
    ensures start <= i <= |input|
    ensures Scrub(Csi, input[start..]) == Scrub(Ground, input[i..])
  {
    i := start;
    while i < |input|
      invariant start <= i <= |input|
      invariant Scrub(Csi, input[start..]) == Scrub(Csi, input[i..])
    {
      var c := input[i];
      Turn(Csi, input, i);
      i := i + 1;
      if CsiFinal(c) {
        return;
      }
    }
  }

  /** Skips to just after the BEL or ST that ends an OSC sequence, or to the end. */
  method SkipOsc(input: string, start: nat) returns (i: nat)
    requires start <= |input|
    ensures start <= i <= |input|
    ensures Scrub(Osc, input[start..]) == Scrub(Ground, input[i..])
  {
    i := start;
    while i < |input|
      invariant start <= i <= |input|
      invariant Scrub(Osc, input[start..]) == Scrub(Osc, input[i..])
    {
      var c := input[i];
      OscTurn(input, i);
      i := i + 1;
      if c == BEL {
        return;
      }
      if c == ESC && i < |input| && input[i] == '\\' {
        i := i + 1;
        return;
      }
    }
  }

  /** One look at an OSC sequence with one character of look-ahead. */
  lemma OscTurn(input: string, i: nat)
    requires i < |input|
    ensures Scrub(Osc, input[i..]) ==
      if input[i] == BEL then Scrub(Ground, input[i + 1..])
      else if input[i] == ESC && i + 1 < |input| && input[i + 1] == '\\' then Scrub(Ground, input[i + 2..])
      else Scrub(Osc, input[i + 1..])
  {
    assert input[i..][1..] == input[i + 1..];
    if input[i] == ESC && i + 1 < |input| {
      assert input[i + 1..][1..] == input[i + 2..];
      assert Scrub(OscEscape, input[i + 1..]) == Scrub(Next(OscEscape, input[i + 1]), input[i + 2..]);
      assert Scrub(Osc, input[i + 1..]) == Scrub(Next(Osc, input[i + 1]), input[i + 2..]);
    }
  }

  /** Skips the rest of an escape sequence whose ESC has been taken. */
  method SkipEscape(input: string, start: nat) returns (i: nat)
    requires start <= |input|
    ensures start <= i <= |input|
    ensures Scrub(Escape, input[start..]) == Scrub(Ground, input[i..])
  {
    i := start;
    if i < |input| {
      Turn(Escape, input, i);
      if input[i] == '[' {
        i := SkipCsi(input, i + 1);
      } else if input[i] == ']' {
        i := SkipOsc(input, i + 1);
      } else {
        i := i + 1;
      }
    }
  }

  /** The characters still to be printed, given what the budget has left, complete the output. */
  predicate Completes(whole: string, out: string, rest: string, left: nat) {
    whole == out + FitPrefix(rest, left)
  }

  lemma PrintOne(whole: string, out: string, c: char, rest: string, left: nat)
    requires Completes(whole, out, [c] + rest, left)
    ensures if Utf8Len(c) > left then whole == out
            else Completes(whole, out + [c], rest, left - Utf8Len(c))
  {
    FitPrefixOfCons(c, rest, left);
  }

  method ScrubAnsiAndControl(input: string, maxBytes: nat) returns (out: string)
    ensures out == FitPrefix(Scrubbed(input), maxBytes)
  {
    out := [];
    var outLen, i := 0, 0;
    ghost var whole := FitPrefix(Scrubbed(input), maxBytes);
    assert input[0..] == input;
    while i < |input|
      invariant i <= |input| && outLen <= maxBytes
      invariant Completes(whole, out, Scrubbed(input[i..]), maxBytes - outLen)
    {
      var ch := input[i];
      Turn(Ground, input, i);
      if outLen >= maxBytes {
        return;
      }
      i := i + 1;
      if ch == ESC {
        i := SkipEscape(input, i);
        continue;
      }
      if IsControl(ch) {
        if ch == '\t' {
          PrintOne(whole, out, ' ', Scrubbed(input[i..]), maxBytes - outLen);
          out := out + [' '];
          outLen := outLen + 1;
        }
        continue;
      }
      PrintOne(whole, out, ch, Scrubbed(input[i..]), maxBytes - outLen);
      if outLen + Utf8Len(ch) > maxBytes {
        return;
      }
      out := out + [ch];
      outLen := outLen + Utf8Len(ch);
    }
  }

  // ---- what scrubbing means ----

  predicate Clean(s: string) {
    forall i :: 0 <= i < |s| ==> !IsControl(s[i])
  }

  /** What the scrubber returns. */
  function ScrubWithin(s: string, maxBytes: nat): string {
    FitPrefix(Scrubbed(s), maxBytes)
  }

  lemma {:induction false} ScrubIsClean(m: Mode, s: string)
    ensures Clean(Scrub(m, s))
    decreases |s|
  {
    if s != [] {
      ScrubIsClean(Next(m, s[0]), s[1..]);
    }
  }

  lemma {:induction false} CleanIsUntouched(s: string)
    requires Clean(s)
    ensures Scrubbed(s) == s
  {
    if s != [] {
      assert s == [s[0]] + s[1..];
      CleanIsUntouched(s[1..]);
    }
  }

  /** No control character survives, and scrubbing again with the same budget changes nothing. */
  lemma ScrubWithinIsCleanAndIdempotent(s: string, maxBytes: nat)
    ensures Clean(ScrubWithin(s, maxBytes)) && Utf8Bytes(ScrubWithin(s, maxBytes)) <= maxBytes
    ensures ScrubWithin(ScrubWithin(s, maxBytes), maxBytes) == ScrubWithin(s, maxBytes)
  {
    var out := ScrubWithin(s, maxBytes);
    ScrubIsClean(Ground, s);
    FitPrefixFits(Scrubbed(s), maxBytes);
    CleanWithinBudgetIsUntouched(out, maxBytes);
  }

  /** Clean text within the budget comes back as it was, and only such text does. */
  lemma CleanWithinBudgetIsUntouched(s: string, maxBytes: nat)
    ensures ScrubWithin(s, maxBytes) == s <==> Clean(s) && Utf8Bytes(s) <= maxBytes
  {
    if Clean(s) && Utf8Bytes(s) <= maxBytes {
      CleanIsUntouched(s);
      FitPrefixFits(s, maxBytes);
      FitPrefixIsLongest(s, maxBytes, s);
    } else {
      ScrubIsClean(Ground, s);
      FitPrefixFits(Scrubbed(s), maxBytes);
    }
  }

  lemma {:induction false} ScrubConcat(m: Mode, a: string, b: string)
    ensures Scrub(m, a + b) == Scrub(m, a) + Scrub(ModeAfter(m, a), b)
    decreases |a|
  {
    if a == [] {
      assert a + b == b;
    } else {
      assert (a + b)[1..] == a[1..] + b;
      ScrubConcat(Next(m, a[0]), a[1..], b);
    }
  }

  /** Text can be scrubbed in two pieces, whatever the second, exactly when the first ends outside an escape. */
  lemma ScrubDistributesExactlyOutsideEscapes(a: string)
    ensures (forall b :: Scrubbed(a + b) == Scrubbed(a) + Scrubbed(b)) <==> ModeAfter(Ground, a) == Ground
  {
    forall b {
      ScrubConcat(Ground, a, b);
    }
    if ModeAfter(Ground, a) != Ground {
      var b := "1";
      assert b[1..] == [];
      assert Scrub(ModeAfter(Ground, a), b) == [] && Scrubbed(b) == b;
      assert Scrubbed(a + b) != Scrubbed(a) + Scrubbed(b);
    }
  }

  // ---- formula neutralisation ----

  function TrimSpaces(s: string): string {
    if s != [] && s[0] == ' ' then TrimSpaces(s[1..]) else s
  }

  predicate StartsDangerous(s: string) {
    s != [] && s[0] in "=+-@\t\r"
  }

  function NeutralizeFormula(val: string): string {
    var scrubbed := ScrubWithin(val, MAX_BANNER_BYTES);
    if StartsDangerous(val) || StartsDangerous(TrimSpaces(val)) || StartsFormula(scrubbed) then "'" + scrubbed
    else scrubbed
  }

  /** No neutralised value starts with a formula character or holds a control character. */
  lemma NeutralizedIsSafe(val: string)
    ensures !StartsFormula(NeutralizeFormula(val)) && Clean(NeutralizeFormula(val))
  {
    ScrubWithinIsCleanAndIdempotent(val, MAX_BANNER_BYTES);
  }

  lemma {:induction false} TrimSpacesStrips(front: string, rest: string)
    requires (forall i :: 0 <= i < |front| ==> front[i] == ' ') && (rest != [] ==> rest[0] != ' ')
    ensures TrimSpaces(front + rest) == rest
  {
    if front == [] {
      assert front + rest == rest;
    } else {
      assert (front + rest)[1..] == front[1..] + rest;
      TrimSpacesStrips(front[1..], rest);
    }
  }

  /** The quote goes in front exactly of values that open with one of the listed characters; 4096 bytes are kept. */
  lemma NeutralizedExactly(front: string, rest: string)
    requires (forall i :: 0 <= i < |front| ==> front[i] == ' ') && (rest != [] ==> rest[0] != ' ')
    ensures var out := ScrubWithin(front + rest, 4096);
      NeutralizeFormula(front + rest) ==
        if (rest != [] && rest[0] in ['=', '+', '-', '@', '\t', '\r'])
           || (out != [] && out[0] in ['=', '+', '-', '@']) then ['\''] + out
        else out
  {
    TrimSpacesStrips(front, rest);
    if front != [] {
      assert (front + rest)[0] == ' ';
    } else {
      assert front + rest == rest;
    }
  }

  // ---- formulas behind spaces ----

  predicate OnlySpaces(s: string) {
    forall i :: 0 <= i < |s| ==> s[i] == ' '
  }

  /** Scrubbing from the given mode shows fewer spaces than the budget, then this formula character. */
  predicate ShowsFormulaAt(m: Mode, s: string, budget: nat, i: nat)
    requires i < |s|
  {
    && s[i] in "=+-@" && ModeAfter(m, s[..i]) == Ground
    && OnlySpaces(Scrub(m, s[..i])) && |Scrub(m, s[..i])| < budget
  }

  predicate ShowsFormula(m: Mode, s: string, budget: nat) {
    exists i :: 0 <= i < |s| && ShowsFormulaAt(m, s, budget, i)
  }

  /** Past the first character, what it prints is taken off the budget. */
  lemma ShowsFormulaLater(m: Mode, s: string, budget: nat, i: nat)
    requires 0 < i < |s|
    ensures ShowsFormulaAt(m, s, budget, i) <==>
      && OnlySpaces(Emit(m, s[0])) && |Emit(m, s[0])| <= budget
      && ShowsFormulaAt(Next(m, s[0]), s[1..], budget - |Emit(m, s[0])|, i - 1)
  {
    var shown, rest := Emit(m, s[0]), Scrub(Next(m, s[0]), s[1..][..i - 1]);
    assert s[..i][1..] == s[1..][..i - 1];
    assert Scrub(m, s[..i]) == shown + rest;
    assert OnlySpaces(shown + rest) <==> OnlySpaces(shown) && OnlySpaces(rest) by {
      if OnlySpaces(shown + rest) {
        assert forall k :: 0 <= k < |shown| ==> shown[k] == (shown + rest)[k];
        assert forall k :: 0 <= k < |rest| ==> rest[k] == (shown + rest)[|shown| + k];
      }
    }
  }

  lemma ShowsFormulaStep(m: Mode, s: string, budget: nat)
    requires s != []
    ensures ShowsFormula(m, s, budget) <==>
      || (m == Ground && s[0] in "=+-@" && budget > 0)
      || (OnlySpaces(Emit(m, s[0])) && |Emit(m, s[0])| <= budget
          && ShowsFormula(Next(m, s[0]), s[1..], budget - |Emit(m, s[0])|))
  {
    assert s[..0] == [];
    assert ShowsFormulaAt(m, s, budget, 0) <==> m == Ground && s[0] in "=+-@" && budget > 0;
    forall i | 0 < i < |s| {
      ShowsFormulaLater(m, s, budget, i);
    }
    if OnlySpaces(Emit(m, s[0])) && |Emit(m, s[0])| <= budget
       && ShowsFormula(Next(m, s[0]), s[1..], budget - |Emit(m, s[0])|) {
      var i :| 0 <= i < |s[1..]| && ShowsFormulaAt(Next(m, s[0]), s[1..], budget - |Emit(m, s[0])|, i);
      assert ShowsFormulaAt(m, s, budget, i + 1);
    }
  }

  /** What fits the budget opens a formula after spaces. */
  predicate Opens(t: string, budget: nat) {
    StartsFormula(TrimSpaces(FitPrefix(t, budget)))
  }

  lemma OpensOfCons(c: char, rest: string, budget: nat)
    ensures Opens([c] + rest, budget) <==> budget > 0 && (c in "=+-@" || (c == ' ' && Opens(rest, budget - 1)))
  {
    FitPrefixOfCons(c, rest, budget);
    if c == ' ' && budget > 0 {
      assert ([c] + FitPrefix(rest, budget - 1))[1..] == FitPrefix(rest, budget - 1);
    }
  }

  /** The scrubbed text within the budget opens a formula after spaces exactly when scrubbing shows one. */
  lemma {:induction false} OpensExactlyWhenShown(m: Mode, s: string, budget: nat)
    ensures Opens(Scrub(m, s), budget) <==> ShowsFormula(m, s, budget)
    decreases |s|
  {
    if s == [] {
      assert !Opens([], budget);
    } else {
      var shown, rest := Emit(m, s[0]), Scrub(Next(m, s[0]), s[1..]);
      ShowsFormulaStep(m, s, budget);
      if shown == [] {
        assert Scrub(m, s) == rest;
        OpensExactlyWhenShown(Next(m, s[0]), s[1..], budget);
      } else {
        OpensOfCons(shown[0], rest, budget);
        assert Scrub(m, s) == [shown[0]] + rest;
        if budget > 0 {
          OpensExactlyWhenShown(Next(m, s[0]), s[1..], budget - 1);
        }
      }
    }
  }

  lemma ShownAsSpace(c: char)
    requires OnlySpaces(Emit(Ground, c))
    ensures c == ' ' || IsControl(c)
  {
    if !IsControl(c) {
      assert Emit(Ground, c)[0] == c;
    }
  }

  /** The character behind the leading spaces of the raw text is then a formula or a control character. */
  lemma {:induction false} FirstRawCharacter(s: string, budget: nat, i: nat)
    requires i < |s| && ShowsFormulaAt(Ground, s, budget, i)
    ensures TrimSpaces(s) != [] && (StartsFormula(TrimSpaces(s)) || IsControl(TrimSpaces(s)[0]))
    decreases |s|
  {
    if i > 0 {
      ShowsFormulaLater(Ground, s, budget, i);
      if s[0] == ' ' {
        FirstRawCharacter(s[1..], budget - 1, i - 1);
      } else {
        ShownAsSpace(s[0]);
      }
    }
  }

  lemma StartsFormulaWithin(t: string, budget: nat)
    ensures StartsFormula(FitPrefix(t, budget)) <==> StartsFormula(t) && budget > 0
  {
  }

  /** No space in front: then the scrubbed text itself starts with the formula character. */
  lemma SpacesInFront(s: string, budget: nat, i: nat)
    requires i < |s| && ShowsFormulaAt(Ground, s, budget, i)
    ensures StartsFormula(ScrubWithin(s, budget)) <==> Scrubbed(s[..i]) == []
  {
    var front := Scrubbed(s[..i]);
    assert s == s[..i] + s[i..];
    ScrubConcat(Ground, s[..i], s[i..]);
    assert Scrubbed(s) == front + Scrub(Ground, s[i..]);
    Turn(Ground, s, i);
    StartsFormulaWithin(Scrubbed(s), budget);
    if front == [] {
      assert Scrubbed(s)[0] == s[i];
    } else {
      assert Scrubbed(s)[0] == front[0];
    }
  }

  /** Behind its leading spaces the raw text starts with a control character that no guard looks for. */
  predicate StartsUnguarded(s: string) {
    var t := TrimSpaces(s);
    t != [] && IsControl(t[0]) && t[0] != '\t' && t[0] != '\r'
  }

  /** A formula character the raw text hides: at least one space and otherwise nothing is shown before it. */
  predicate HidesFormulaAt(val: string, i: nat)
    requires i < |val|
  {
    && StartsUnguarded(val)
    && ShowsFormulaAt(Ground, val, MAX_BANNER_BYTES, i) && Scrubbed(val[..i]) != []
  }

  /** No look-ahead guard of the neutralisation fires. */
  predicate Unguarded(val: string) {
    !StartsDangerous(TrimSpaces(val)) && !StartsFormula(ScrubWithin(val, MAX_BANNER_BYTES))
  }

  /** A neutralised value opens a formula after spaces exactly when no guard fires and its scrubbed text does. */
  lemma NeutralizedOpensExactlyWhenUnguarded(val: string)
    ensures StartsFormula(TrimSpaces(NeutralizeFormula(val)))
       <==> Unguarded(val) && StartsFormula(TrimSpaces(ScrubWithin(val, MAX_BANNER_BYTES)))
  {
    assert StartsDangerous(val) ==> TrimSpaces(val) == val;
    assert !StartsFormula(TrimSpaces("'" + ScrubWithin(val, MAX_BANNER_BYTES)));
  }

  lemma HidesExactlyWhenUnguarded(val: string, i: nat)
    requires i < |val| && ShowsFormulaAt(Ground, val, MAX_BANNER_BYTES, i)
    ensures HidesFormulaAt(val, i) <==> Unguarded(val)
  {
    FirstRawCharacter(val, MAX_BANNER_BYTES, i);
    SpacesInFront(val, MAX_BANNER_BYTES, i);
  }

  /** A neutralised value opens a formula after spaces exactly when the raw one hides a formula. */
  lemma NeutralizedOpensFormulaExactlyWhenHidden(val: string)
    ensures StartsFormula(TrimSpaces(NeutralizeFormula(val))) <==> exists i :: 0 <= i < |val| && HidesFormulaAt(val, i)
  {
    NeutralizedOpensExactlyWhenUnguarded(val);
    OpensExactlyWhenShown(Ground, val, MAX_BANNER_BYTES);
    forall i | 0 <= i < |val| && ShowsFormulaAt(Ground, val, MAX_BANNER_BYTES, i) {
      HidesExactlyWhenUnguarded(val, i);
    }
  }

  /** Failing inputs: any control character but tab, CR and ESC hides a formula, on either side of the space. */
  lemma NeutralizedMayStartFormulaAfterSpaces(c: char)
    requires IsControl(c) && c != '\t' && c != '\r' && c != ESC
    ensures StartsFormula(TrimSpaces(NeutralizeFormula([' ', c, '='])))
    ensures StartsFormula(TrimSpaces(NeutralizeFormula([c, ' ', '='])))
  {
    var behind, before := [' ', c, '='], [c, ' ', '='];
    NeutralizedOpensFormulaExactlyWhenHidden(behind);
    NeutralizedOpensFormulaExactlyWhenHidden(before);
    PairScrubs(' ', c);
    PairScrubs(c, ' ');
    assert behind[..2] == [' ', c] && before[..2] == [c, ' '];
    assert TrimSpaces(behind) == behind[1..] && TrimSpaces(before) == before;
    assert HidesFormulaAt(behind, 2) && HidesFormulaAt(before, 2);
  }

  lemma PairScrubs(a: char, b: char)
    requires a != ESC && b != ESC
    ensures Scrubbed([a, b]) == Emit(Ground, a) + Emit(Ground, b) && ModeAfter(Ground, [a, b]) == Ground
  {
    assert [a, b][1..] == [b] && [b][1..] == [];
    assert Scrub(Ground, [b]) == Emit(Ground, b) && ModeAfter(Ground, [b]) == Ground;
  }
}
