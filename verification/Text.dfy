/**
 The fragment of Rust's `str` that the modelled code calls: trimming, splitting, searching,
 ASCII lower-casing, `u64` parsing and decimal printing. A Dafny `char` is a Unicode scalar
 value, as a Rust `char` is.
 */
module Text {
  import opened Wrappers

  const U64_LIMIT: nat := 0x1_0000_0000_0000_0000

  /** The Unicode `White_Space` property, which `char::is_whitespace` tests. */
  predicate IsWhitespace(c: char) {
    || '\t' <= c <= '\r'
    || c == ' '
    || c == '\U{85}' || c == '\U{A0}' || c == '\U{1680}'
    || '\U{2000}' <= c <= '\U{200A}'
    || c == '\U{2028}' || c == '\U{2029}' || c == '\U{202F}' || c == '\U{205F}' || c == '\U{3000}'
  }

  function TrimStart(s: string): (r: string)
    ensures r == [] || !IsWhitespace(r[0])
  {
    if s != [] && IsWhitespace(s[0]) then TrimStart(s[1..]) else s
  }

  function TrimEnd(s: string): (r: string)
    ensures r == [] || !IsWhitespace(r[|r| - 1])
  {
    if s != [] && IsWhitespace(s[|s| - 1]) then TrimEnd(s[..|s| - 1]) else s
  }

  function Trim(s: string): string {
    TrimEnd(TrimStart(s))
  }

  /** The white space characters by their code points. */
  lemma WhitespaceCodePoints(c: char)
    ensures IsWhitespace(c) <==>
      || 9 <= c as int <= 13 || c as int == 32 || c as int == 0x85 || c as int == 0xA0 || c as int == 0x1680
      || 0x2000 <= c as int <= 0x200A || c as int == 0x2028 || c as int == 0x2029
      || c as int == 0x202F || c as int == 0x205F || c as int == 0x3000
  {
  }

  predicate AllWhitespace(s: string) {
    forall i :: 0 <= i < |s| ==> IsWhitespace(s[i])
  }

  lemma {:induction false} TrimStartStrips(front: string, rest: string)
    requires AllWhitespace(front)
    ensures TrimStart(front + rest) == TrimStart(rest)
  {
    if front == [] {
      assert front + rest == rest;
    } else {
      assert (front + rest)[1..] == front[1..] + rest;
      TrimStartStrips(front[1..], rest);
    }
  }

  lemma {:induction false} TrimEndStrips(rest: string, back: string)
    requires AllWhitespace(back)
    ensures TrimEnd(rest + back) == TrimEnd(rest)
  {
    if back == [] {
      assert rest + back == rest;
    } else {
      assert (rest + back)[..|rest + back| - 1] == rest + back[..|back| - 1];
      TrimEndStrips(rest, back[..|back| - 1]);
    }
  }

  lemma {:induction false} TrimEndIsPrefix(s: string)
    ensures TrimEnd(s) <= s
  {
    if s != [] && IsWhitespace(s[|s| - 1]) {
      TrimEndIsPrefix(s[..|s| - 1]);
    }
  }

  lemma TrimTwice(s: string)
    ensures Trim(Trim(s)) == Trim(s)
  {
    TrimEndIsPrefix(TrimStart(s));
    TrimOfClean(Trim(s));
  }

  /** Trimming takes the white space off both ends and nothing else. */
  lemma TrimStrips(front: string, core: string, back: string)
    requires AllWhitespace(front) && AllWhitespace(back)
    requires core != [] ==> !IsWhitespace(core[0]) && !IsWhitespace(core[|core| - 1])
    ensures Trim(front + core + back) == core
  {
    assert front + core + back == front + (core + back);
    TrimStartStrips(front, core + back);
    if core == [] {
      assert core + back == back && back + [] == back;
      TrimStartStrips(back, []);
    } else {
      TrimEndStrips(core, back);
    }
  }

  predicate OccursAt(s: string, needle: string, i: int) {
    0 <= i <= |s| - |needle| && s[i..i + |needle|] == needle
  }

  predicate HasSubstring(s: string, needle: string) {
    exists i :: 0 <= i <= |s| - |needle| && OccursAt(s, needle, i)
  }

  function ToAsciiLower(c: char): char {
    if 'A' <= c <= 'Z' then c - 'A' + 'a' else c
  }

  function AsciiLower(s: string): (r: string)
    ensures |r| == |s|
    ensures forall i :: 0 <= i < |s| ==> r[i] == ToAsciiLower(s[i])
  {
    seq(|s|, i requires 0 <= i < |s| => ToAsciiLower(s[i]))
  }

  /** The first character makes a spreadsheet read the text as a formula. */
  predicate StartsFormula(s: string) {
    s != [] && s[0] in "=+-@"
  }

  lemma Regroup<T>(a: seq<T>, b: seq<T>, c: seq<T>)
    ensures a + (b + c) == a + b + c
  {
  }

  lemma LowerCodePoints(c: char)
    ensures ToAsciiLower(c) as int == if 65 <= c as int <= 90 then c as int + 32 else c as int
  {
  }

  // ---- split and join ----

  /** `str::split` on one character: always at least one part. */
  function Split(s: string, sep: char): (parts: seq<string>)
    ensures |parts| >= 1
  {
    if s == [] then [[]]
    else
      var rest := Split(s[1..], sep);
      if s[0] == sep then [[]] + rest else [[s[0]] + rest[0]] + rest[1..]
  }

  function Join(parts: seq<string>, sep: char): string {
    if parts == [] then []
    else if |parts| == 1 then parts[0]
    else parts[0] + [sep] + Join(parts[1..], sep)
  }

  lemma {:induction false} JoinOfSplit(s: string, sep: char)
    ensures Join(Split(s, sep), sep) == s
  {
    if s != [] {
      JoinOfSplit(s[1..], sep);
      var rest := Split(s[1..], sep);
      if s[0] != sep {
        assert ([[s[0]] + rest[0]] + rest[1..])[1..] == rest[1..];
      } else {
        assert ([[]] + rest)[1..] == rest;
      }
    }
  }

  lemma {:induction false} SplitWithoutSeparator(s: string, sep: char)
    requires sep !in s
    ensures Split(s, sep) == [s]
  {
    if s != [] {
      SplitWithoutSeparator(s[1..], sep);
      assert [s[0]] + s[1..] == s;
    }
  }

  lemma {:induction false} SplitAtSeparator(first: string, rest: string, sep: char)
    requires sep !in first
    ensures Split(first + [sep] + rest, sep) == [first] + Split(rest, sep)
  {
    var s := first + [sep] + rest;
    if first == [] {
      assert s[0] == sep && s[1..] == rest;
    } else {
      assert s[1..] == first[1..] + [sep] + rest;
      SplitAtSeparator(first[1..], rest, sep);
      assert [s[0]] + first[1..] == first;
    }
  }

  lemma SplitOfCons(w: char, s: string, sep: char)
    requires w != sep
    ensures Split([w] + s, sep) == [[w] + Split(s, sep)[0]] + Split(s, sep)[1..]
  {
    assert ([w] + s)[1..] == s;
  }

  function AddToLast(parts: seq<string>, w: char): seq<string>
    requires parts != []
  {
    parts[..|parts| - 1] + [parts[|parts| - 1] + [w]]
  }

  lemma AddToLastBehindPart(first: string, rest: seq<string>, w: char)
    requires rest != []
    ensures AddToLast([first] + rest, w) == [first] + AddToLast(rest, w)
  {
  }

  lemma AddToLastBehindChar(c: char, rest: seq<string>, w: char)
    requires rest != []
    ensures var longer := AddToLast(rest, w);
      AddToLast([[c] + rest[0]] + rest[1..], w) == [[c] + longer[0]] + longer[1..]
  {
    var longer := AddToLast(rest, w);
    if |rest| == 1 {
      assert longer == [rest[0] + [w]];
      assert [c] + rest[0] + [w] == [c] + (rest[0] + [w]);
    }
  }

  lemma {:induction false} SplitOfSnoc(s: string, w: char, sep: char)
    requires w != sep
    ensures Split(s + [w], sep) == AddToLast(Split(s, sep), w)
  {
    if s == [] {
      SplitOfCons(w, [], sep);
      assert [] + [w] == [w] + [];
      assert Split([w] + [], sep) == [[w] + []];
    } else {
      assert (s + [w])[1..] == s[1..] + [w];
      SplitOfSnoc(s[1..], w, sep);
      if s[0] == sep {
        AddToLastBehindPart([], Split(s[1..], sep), w);
      } else {
        AddToLastBehindChar(s[0], Split(s[1..], sep), w);
      }
    }
  }

  lemma {:induction false} SplitOfJoin(parts: seq<string>, sep: char)
    requires parts != []
    requires forall i :: 0 <= i < |parts| ==> sep !in parts[i]
    ensures Split(Join(parts, sep), sep) == parts
  {
    if |parts| == 1 {
      SplitWithoutSeparator(parts[0], sep);
    } else {
      SplitOfJoin(parts[1..], sep);
      SplitAtSeparator(parts[0], Join(parts[1..], sep), sep);
    }
  }

  lemma {:induction false} SplitPartsHaveNoSeparator(s: string, sep: char)
    ensures forall i :: 0 <= i < |Split(s, sep)| ==> sep !in Split(s, sep)[i]
  {
    if s != [] {
      SplitPartsHaveNoSeparator(s[1..], sep);
    }
  }

  function MapText(f: string -> string, parts: seq<string>): (r: seq<string>)
    ensures |r| == |parts|
  {
    if parts == [] then [] else [f(parts[0])] + MapText(f, parts[1..])
  }

  lemma {:induction false} MapByIndex(f: string -> string, parts: seq<string>, i: nat)
    requires i < |parts|
    ensures MapText(f, parts)[i] == f(parts[i])
  {
    if i > 0 {
      MapByIndex(f, parts[1..], i - 1);
    }
  }

  // ---- numbers ----

  predicate IsDigit(c: char) { '0' <= c <= '9' }

  predicate AllDigits(s: string) { forall i :: 0 <= i < |s| ==> IsDigit(s[i]) }

  function DigitsValue(s: string): nat
    requires AllDigits(s)
  {
    if s == [] then 0 else 10 * DigitsValue(s[..|s| - 1]) + (s[|s| - 1] as int - '0' as int)
  }

  /** `str::parse::<u64>`: an optional `+`, then at least one digit, and no overflow. */
  function ParseU64(s: string): (r: Option<nat>)
    ensures r.Some? ==> r.value < U64_LIMIT
  {
    var digits := if s != [] && s[0] == '+' then s[1..] else s;
    if digits != [] && AllDigits(digits) && DigitsValue(digits) < U64_LIMIT
    then Some(DigitsValue(digits)) else None
  }

  /** Decimal text of a number, as `u64::to_string` prints it. */
  function ShowNat(n: nat): (s: string)
    ensures s != [] && AllDigits(s)
  {
    var digit := ('0' as int + n % 10) as char;
    if n < 10 then [digit] else ShowNat(n / 10) + [digit]
  }

  lemma {:induction false} DigitsOfShow(n: nat)
    ensures DigitsValue(ShowNat(n)) == n
  {
    if n >= 10 {
      DigitsOfShow(n / 10);
      assert ShowNat(n)[..|ShowNat(n)| - 1] == ShowNat(n / 10);
    } else {
      assert ShowNat(n)[..0] == [];
    }
  }

  lemma ParseOfShow(n: nat)
    requires n < U64_LIMIT
    ensures ParseU64(ShowNat(n)) == Some(n)
  {
    DigitsOfShow(n);
    assert IsDigit(ShowNat(n)[0]);
  }

  /** Parsing takes an optional plus sign, ASCII digits, and values below 2^64, and nothing else. */
  lemma ParseU64Exactly(s: string, n: nat)
    ensures ParseU64(ShowNat(n)) == if n < 0x1_0000_0000_0000_0000 then Some(n) else None
    ensures ParseU64(['+'] + ShowNat(n)) == if n < 0x1_0000_0000_0000_0000 then Some(n) else None
    ensures ParseU64(s).Some? ==>
      && s != [] && (48 <= s[0] as int <= 57 || (s[0] == '+' && |s| > 1))
      && forall i :: 1 <= i < |s| ==> 48 <= s[i] as int <= 57
  {
    DigitsOfShow(n);
    assert IsDigit(ShowNat(n)[0]);
    assert (['+'] + ShowNat(n))[1..] == ShowNat(n);
    if ParseU64(s).Some? {
      var digits := if s != [] && s[0] == '+' then s[1..] else s;
      assert AllDigits(digits) && digits != [];
      assert s[0] == '+' ==> forall i :: 1 <= i < |s| ==> s[i] == digits[i - 1];
    }
  }

  lemma SmallNumbersShown()
    ensures ShowNat(0) == "0" && ShowNat(7) == "7" && ShowNat(42) == "42"
  {
  }

  lemma TrimOfClean(s: string)
    requires s == [] || (!IsWhitespace(s[0]) && !IsWhitespace(s[|s| - 1]))
    ensures Trim(s) == s
  {
  }
}
