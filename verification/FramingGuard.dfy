/**
 The request framing guard: which header sections it lets through, as a predicate over the
 headers, and what acceptance says about the Content-Length elements a receiver would see
 (section 6.3 of RFC 9112).
 */
module FramingGuard {
  import opened Wrappers
  import opened Bytes
  import opened Text

  /** One header line; names are lower case, as `HeaderName` keeps them. */
  datatype Header = Header(name: string, value: seq<Byte>)

  datatype Method = Get | Head | OtherMethod

  datatype Violation =
    | ConflictingFraming
    | MultipleContentLengths
    | MalformedContentLength(text: string)
    | UnsupportedTransferEncoding(text: string)
    | IllegalHeaderCharacter(name: string)
    | PayloadTooLarge(limit: nat, requested: nat)

  const CONTENT_LENGTH := "content-length"
  const NOT_TEXT := MalformedContentLength("Non-ASCII Content-Length")
  const TRANSFER_ENCODING := "transfer-encoding"
  const CHUNKED := "chunked"

  // ---- header values as text ----

  predicate IsVisibleAscii(b: Byte) {
    32 <= b < 127 || b == 9
  }

  /** `HeaderValue::to_str`. */
  function ToStr(value: seq<Byte>): (r: Option<string>)
    ensures r.Some? <==> forall i :: 0 <= i < |value| ==> IsVisibleAscii(value[i])
    ensures r.Some? ==> |r.value| == |value| && forall i :: 0 <= i < |value| ==> r.value[i] as int == value[i]
  {
    if forall i :: 0 <= i < |value| ==> IsVisibleAscii(value[i])
    then Some(seq(|value|, i requires 0 <= i < |value| => value[i] as char))
    else None
  }

  /** The values of one header, in order. */
  function GetAll(headers: seq<Header>, name: string): seq<seq<Byte>> {
    if headers == [] then []
    else
      var before, last := GetAll(headers[..|headers| - 1], name), headers[|headers| - 1];
      if last.name == name then before + [last.value] else before
  }

  /** Text is printable ASCII and tabs, character for byte. */
  lemma TextIsPrintableAscii(value: seq<Byte>)
    ensures ToStr(value).Some? <==> forall i :: 0 <= i < |value| ==> 0x20 <= value[i] <= 0x7e || value[i] == 9
  {
  }

  lemma {:induction false} GetAllOfConcat(a: seq<Header>, b: seq<Header>, name: string)
    ensures GetAll(a + b, name) == GetAll(a, name) + GetAll(b, name)
  {
    if b == [] {
      assert a + b == a;
    } else {
      assert (a + b)[..|a + b| - 1] == a + b[..|b| - 1];
      GetAllOfConcat(a, b[..|b| - 1], name);
    }
  }

  lemma GetAllOfOne(h: Header, name: string)
    ensures GetAll([h], name) == if h.name == name then [h.value] else []
  {
    assert [h][..0] == [];
  }

  // ---- acceptance ----

  predicate LegalByte(b: Byte) {
    !((b < 0x20 && b != 9) || b == 0x7f)
  }

  predicate LegalValue(value: seq<Byte>) {
    forall i :: 0 <= i < |value| ==> LegalByte(value[i])
  }

  /** The lines of one header as text, where they are text. */
  function Texts(values: seq<seq<Byte>>): (r: seq<Option<string>>)
    ensures |r| == |values|
  {
    if values == [] then [] else Texts(values[..|values| - 1]) + [ToStr(values[|values| - 1])]
  }

  /** Both lines are text, and the same text once trimmed. */
  predicate SameText(a: Option<string>, b: Option<string>) {
    a.Some? && b.Some? && Trim(a.value) == Trim(b.value)
  }

  predicate AllText(lines: seq<Option<string>>) {
    forall i :: 0 <= i < |lines| ==> lines[i].Some?
  }

  predicate SameLines(lines: seq<Option<string>>) {
    forall i :: 0 <= i < |lines| ==> SameText(lines[i], lines[0])
  }

  /** The trimmed, comma-separated elements of one line. */
  function Elements(line: string): (r: seq<string>)
    ensures |r| >= 1
  {
    MapText(Trim, Split(line, ','))
  }

  predicate AllSame(parts: seq<string>) {
    forall i :: 0 <= i < |parts| ==> parts[i] == parts[0]
  }

  predicate LengthWithin(text: string, maxBody: nat) {
    ParseU64(text).Some? && ParseU64(text).value <= maxBody
  }

  predicate ListAccepted(elements: seq<string>, maxBody: nat)
    requires elements != []
  {
    AllSame(elements) && LengthWithin(elements[0], maxBody)
  }

  predicate LineAccepted(line: Option<string>, maxBody: nat) {
    line.Some? && ListAccepted(Elements(line.value), maxBody)
  }

  /** What the code checks: equal trimmed lines, equal elements in the first, and its value. */
  predicate AcceptsContentLength(lines: seq<Option<string>>, maxBody: nat)
    requires lines != []
  {
    SameLines(lines) && LineAccepted(lines[0], maxBody)
  }

  predicate EndsWith(s: string, suffix: string) {
    |suffix| <= |s| && s[|s| - |suffix|..] == suffix
  }

  /** The text ends with `chunked`, in any case. */
  predicate EndsInChunked(s: string) {
    EndsWith(AsciiLower(s), CHUNKED)
  }

  predicate AcceptsTransferEncoding(line: Option<string>) {
    line.Some? && EndsInChunked(Trim(line.value))
  }

  predicate AcceptsCodings(lines: seq<Option<string>>) {
    forall i :: 0 <= i < |lines| ==> AcceptsTransferEncoding(lines[i])
  }

  predicate AllLegal(headers: seq<Header>) {
    forall i :: 0 <= i < |headers| ==> LegalValue(headers[i].value)
  }

  /** A GET or HEAD whose first Content-Length line is one number carries the number zero. */
  predicate NoBodyAnnounced(lines: seq<Option<string>>) {
    lines != [] && lines[0].Some? ==>
      var n := ParseU64(Trim(lines[0].value));
      n.Some? ==> n.value == 0
  }

  predicate Accepts(headers: seq<Header>, httpMethod: Method, maxBody: nat) {
    var cl, te := Texts(GetAll(headers, CONTENT_LENGTH)), Texts(GetAll(headers, TRANSFER_ENCODING));
    && (cl == [] || te == [])
    && (cl != [] ==> AcceptsContentLength(cl, maxBody))
    && AcceptsCodings(te)
    && AllLegal(headers)
    && (httpMethod != OtherMethod ==> NoBodyAnnounced(cl))
  }

  // ---- the guard ----

  method CheckHeaderValueBytes(name: string, bytes: seq<Byte>) returns (r: Result<(), Violation>)
    ensures r == if LegalValue(bytes) then Ok(()) else Err(IllegalHeaderCharacter(name))
  {
    for i := 0 to |bytes|
      invariant forall j :: 0 <= j < i ==> LegalByte(bytes[j])
    {
      if (bytes[i] < 0x20 && bytes[i] != 9) || bytes[i] == 0x7f {
        assert !LegalByte(bytes[i]);
        return Err(IllegalHeaderCharacter(name));
      }
    }
    return Ok(());
  }

  /** The loop over repeated Content-Length lines. */
  method CompareLines(lines: seq<Option<string>>) returns (r: Result<(), Violation>)
    requires lines != []
    ensures r.Ok? && lines[0].Some? ==> SameLines(lines)
    ensures r.Err? ==> !SameLines(lines)
    ensures r.Err? && AllText(lines) ==> r.error == MultipleContentLengths
    ensures r.Err? && !AllText(lines) ==> r.error == MultipleContentLengths || r.error == NOT_TEXT
  {
    if |lines| > 1 {
      var first := lines[0];
      if first.None? {
        assert !SameText(lines[0], lines[0]);
        return Err(NOT_TEXT);
      }
      for k := 1 to |lines|
        invariant forall i :: 0 <= i < k ==> SameText(lines[i], lines[0])
      {
        if lines[k].None? {
          assert !SameText(lines[k], lines[0]);
          return Err(NOT_TEXT);
        }
        if Trim(lines[k].value) != Trim(first.value) {
          assert !SameText(lines[k], lines[0]);
          return Err(MultipleContentLengths);
        }
      }
    }
    return Ok(());
  }

  method CompareParts(parts: seq<string>) returns (same: bool)
    requires parts != []
    ensures same == AllSame(parts)
  {
    for k := 1 to |parts|
      invariant forall i :: 0 <= i < k ==> parts[i] == parts[0]
    {
      if parts[k] != parts[0] {
        return false;
      }
    }
    return true;
  }

  /** The verdict on the elements of one line: repetition first, then syntax, then size. */
  function ElementsVerdict(line: string, parts: seq<string>, maxBody: nat): Result<(), Violation>
    requires parts != []
  {
    if !AllSame(parts) then Err(MultipleContentLengths)
    else match ParseU64(parts[0])
      case None => Err(MalformedContentLength(line))
      case Some(n) => if n > maxBody then Err(PayloadTooLarge(maxBody, n)) else Ok(())
  }

  /** The checks on the elements of the first line. */
  method ValidateElements(line: string, parts: seq<string>, maxBody: nat) returns (r: Result<(), Violation>)
    requires parts != [] && (',' !in line ==> |parts| == 1)
    ensures r == ElementsVerdict(line, parts, maxBody)
    ensures r.Ok? <==> ListAccepted(parts, maxBody)
  {
    if ',' in line {
      var same := CompareParts(parts);
      if !same {
        return Err(MultipleContentLengths);
      }
    }
    var parsed := ParseU64(parts[0]);
    if parsed.None? {
      return Err(MalformedContentLength(line));
    }
    if parsed.value > maxBody {
      return Err(PayloadTooLarge(maxBody, parsed.value));
    }
    return Ok(());
  }

  method ValidateContentLength(lines: seq<Option<string>>, maxBody: nat) returns (r: Result<(), Violation>)
    requires lines != []
    ensures r.Ok? <==> AcceptsContentLength(lines, maxBody)
    ensures AllText(lines) && !SameLines(lines) ==> r == Err(MultipleContentLengths)
    ensures AllText(lines) && SameLines(lines) ==>
      r == ElementsVerdict(lines[0].value, Elements(lines[0].value), maxBody)
    ensures !AllText(lines) ==>
      r == Err(MultipleContentLengths) || r == Err(MalformedContentLength("Non-ASCII Content-Length"))
  {
    var compared := CompareLines(lines);
    if compared.Err? {
      return compared;
    }
    if lines[0].None? {
      return Err(NOT_TEXT);
    }
    var line := lines[0].value;
    PartCount(line);
    r := ValidateElements(line, Elements(line), maxBody);
  }

  lemma PartCount(line: string)
    ensures ',' !in line ==> |Elements(line)| == 1
  {
    if ',' !in line {
      SplitWithoutSeparator(line, ',');
    }
  }

  method ValidateTransferEncodings(lines: seq<Option<string>>) returns (r: Result<(), Violation>)
    ensures r.Ok? <==> AcceptsCodings(lines)
    ensures r.Err? ==> r.error.UnsupportedTransferEncoding?
  {
    for k := 0 to |lines|
      invariant forall i :: 0 <= i < k ==> AcceptsTransferEncoding(lines[i])
    {
      if lines[k].None? {
        return Err(UnsupportedTransferEncoding("Non-ASCII Transfer-Encoding"));
      }
      if !EndsInChunked(Trim(lines[k].value)) {
        return Err(UnsupportedTransferEncoding(lines[k].value));
      }
    }
    return Ok(());
  }

  predicate IsFirstIllegal(headers: seq<Header>, i: nat)
    requires i < |headers|
  {
    !LegalValue(headers[i].value) && forall k :: 0 <= k < i ==> LegalValue(headers[k].value)
  }

  method CheckAllBytes(headers: seq<Header>) returns (r: Result<(), Violation>)
    ensures r.Ok? <==> AllLegal(headers)
    ensures r.Err? ==> exists i ::
      0 <= i < |headers| && IsFirstIllegal(headers, i) && r.error == IllegalHeaderCharacter(headers[i].name)
  {
    for k := 0 to |headers|
      invariant forall i :: 0 <= i < k ==> LegalValue(headers[i].value)
    {
      var checked := CheckHeaderValueBytes(headers[k].name, headers[k].value);
      if checked.Err? {
        assert IsFirstIllegal(headers, k);
        return checked;
      }
    }
    return Ok(());
  }

  /** The last check: a GET or HEAD with one number for its length. */
  method CheckMethod(httpMethod: Method, cl: seq<Option<string>>) returns (r: Result<(), Violation>)
    ensures r.Ok? <==> (httpMethod != OtherMethod ==> NoBodyAnnounced(cl))
    ensures r.Err? ==> r.error.MalformedContentLength?
  {
    if httpMethod != OtherMethod && cl != [] && cl[0].Some? {
      var n := ParseU64(Trim(cl[0].value));
      if n.Some? && n.value > 0 {
        return Err(MalformedContentLength("GET/HEAD method carries Content-Length > 0"));
      }
    }
    return Ok(());
  }

  method ValidateHeaders(headers: seq<Header>, httpMethod: Method, maxBody: nat) returns (r: Result<(), Violation>)
    ensures r.Ok? <==> Accepts(headers, httpMethod, maxBody)
    ensures r == Err(ConflictingFraming) <==>
      GetAll(headers, CONTENT_LENGTH) != [] && GetAll(headers, TRANSFER_ENCODING) != []
    ensures r.Err? && r.error.IllegalHeaderCharacter? ==>
      exists i :: 0 <= i < |headers| && IsFirstIllegal(headers, i) && r.error.name == headers[i].name
  {
    var cl, te := Texts(GetAll(headers, CONTENT_LENGTH)), Texts(GetAll(headers, TRANSFER_ENCODING));
    if cl != [] && te != [] {
      return Err(ConflictingFraming);
    }
    if cl != [] {
      var length := ValidateContentLength(cl, maxBody);
      if length.Err? {
        return length;
      }
    }
    if te != [] {
      var encoding := ValidateTransferEncodings(te);
      if encoding.Err? {
        return encoding;
      }
    }
    var bytes := CheckAllBytes(headers);
    if bytes.Err? {
      return bytes;
    }
    r := CheckMethod(httpMethod, cl);
  }

  // ---- what acceptance means for a receiver ----

  predicate AllAre(parts: seq<string>, text: string) {
    forall i :: 0 <= i < |parts| ==> parts[i] == text
  }

  predicate ElementsAre(line: Option<string>, text: string) {
    line.Some? && AllAre(Elements(line.value), text)
  }

  /** Every line is text, every element of every line is the same text, and it is a length within the limit. */
  predicate OneLength(lines: seq<Option<string>>, text: string, maxBody: nat) {
    (forall i :: 0 <= i < |lines| ==> ElementsAre(lines[i], text)) && LengthWithin(text, maxBody)
  }

  lemma TrimFront(w: char, s: string)
    requires IsWhitespace(w)
    ensures Trim([w] + s) == Trim(s)
  {
    assert ([w] + s)[1..] == s;
  }

  lemma {:induction false} TrimStartOfSnoc(s: string, w: char)
    requires IsWhitespace(w)
    ensures TrimStart(s + [w]) == if TrimStart(s) == [] then [] else TrimStart(s) + [w]
  {
    if s == [] {
      assert [] + [w] == [w] && [w][1..] == [];
    } else {
      assert (s + [w])[1..] == s[1..] + [w];
      if IsWhitespace(s[0]) {
        TrimStartOfSnoc(s[1..], w);
      }
    }
  }

  lemma TrimBack(s: string, w: char)
    requires IsWhitespace(w)
    ensures Trim(s + [w]) == Trim(s)
  {
    TrimStartOfSnoc(s, w);
    var t := TrimStart(s);
    assert (t + [w])[..|t|] == t;
  }

  lemma MapFirst(f: string -> string, parts: seq<string>, first: string)
    requires parts != [] && f(first) == f(parts[0])
    ensures MapText(f, [first] + parts[1..]) == MapText(f, parts)
  {
    assert ([first] + parts[1..])[1..] == parts[1..];
  }

  lemma {:induction false} MapLast(f: string -> string, parts: seq<string>, last: string)
    requires parts != [] && f(last) == f(parts[|parts| - 1])
    ensures MapText(f, parts[..|parts| - 1] + [last]) == MapText(f, parts)
  {
    var other := parts[..|parts| - 1] + [last];
    if |parts| == 1 {
      assert other[1..] == [] && parts[1..] == [];
    } else {
      MapLast(f, parts[1..], last);
      assert other[1..] == parts[1..][..|parts| - 2] + [last];
    }
  }

  lemma ElementsFront(w: char, s: string)
    requires IsWhitespace(w)
    ensures Elements([w] + s) == Elements(s)
  {
    assert w != ',';
    var parts := Split(s, ',');
    SplitOfCons(w, s, ',');
    TrimFront(w, parts[0]);
    MapFirst(Trim, parts, [w] + parts[0]);
  }

  lemma ElementsBack(s: string, w: char)
    requires IsWhitespace(w)
    ensures Elements(s + [w]) == Elements(s)
  {
    assert w != ',';
    var parts := Split(s, ',');
    SplitOfSnoc(s, w, ',');
    TrimBack(parts[|parts| - 1], w);
    MapLast(Trim, parts, parts[|parts| - 1] + [w]);
  }

  lemma {:induction false} ElementsOfTrimStart(s: string)
    ensures Elements(TrimStart(s)) == Elements(s)
  {
    if s != [] && IsWhitespace(s[0]) {
      ElementsOfTrimStart(s[1..]);
      ElementsFront(s[0], s[1..]);
      assert [s[0]] + s[1..] == s;
    }
  }

  /** What a white space at the end does not change, trimming the end does not change. */
  lemma {:induction false} TrimEndChangesNothing(f: string -> seq<string>, s: string)
    requires forall t: string, w: char {:trigger f(t + [w])} :: IsWhitespace(w) ==> f(t + [w]) == f(t)
    ensures f(TrimEnd(s)) == f(s)
  {
    if s != [] && IsWhitespace(s[|s| - 1]) {
      var init, last := s[..|s| - 1], s[|s| - 1];
      TrimEndChangesNothing(f, init);
      assert s == init + [last] && f(init + [last]) == f(init);
    }
  }

  lemma ElementsOfTrimEnd(s: string)
    ensures Elements(TrimEnd(s)) == Elements(s)
  {
    forall t: string, w: char {:trigger Elements(t + [w])} | IsWhitespace(w)
      ensures Elements(t + [w]) == Elements(t)
    {
      ElementsBack(t, w);
    }
    TrimEndChangesNothing(Elements, s);
  }

  lemma ElementsOfTrim(s: string)
    ensures Elements(Trim(s)) == Elements(s)
  {
    ElementsOfTrimStart(s);
    ElementsOfTrimEnd(TrimStart(s));
  }

  lemma SameTextSameElements(a: Option<string>, b: Option<string>)
    requires SameText(a, b)
    ensures Elements(a.value) == Elements(b.value)
  {
    ElementsOfTrim(a.value);
    ElementsOfTrim(b.value);
  }

  /**
   The Content-Length check passes exactly when every element of every line is one and the same
   length text within the limit and, besides, the lines are equal once trimmed.
   */
  lemma ContentLengthDecision(lines: seq<Option<string>>, maxBody: nat)
    requires lines != []
    ensures AcceptsContentLength(lines, maxBody)
       <==> SameLines(lines) && exists text :: OneLength(lines, text, maxBody)
  {
    if AcceptsContentLength(lines, maxBody) {
      var text := Elements(lines[0].value)[0];
      forall i | 0 <= i < |lines|
        ensures ElementsAre(lines[i], text)
      {
        SameTextSameElements(lines[i], lines[0]);
      }
      assert OneLength(lines, text, maxBody);
    }
    if SameLines(lines) && exists text :: OneLength(lines, text, maxBody) {
      var text :| OneLength(lines, text, maxBody);
      assert ElementsAre(lines[0], text);
    }
  }

  /** With one line, equal elements are all it takes. */
  lemma SingleLineDecision(line: Option<string>, maxBody: nat)
    ensures AcceptsContentLength([line], maxBody) <==> exists text :: OneLength([line], text, maxBody)
  {
    ContentLengthDecision([line], maxBody);
    if exists text :: OneLength([line], text, maxBody) {
      var text :| OneLength([line], text, maxBody);
      assert ElementsAre([line][0], text);
    }
  }

  lemma NumberIsPlain(text: string)
    requires ParseU64(text).Some?
    ensures text != [] && ',' !in text && !IsWhitespace(text[0]) && !IsWhitespace(text[|text| - 1])
  {
    var digits := if text[0] == '+' then text[1..] else text;
    forall i | 0 <= i < |text|
      ensures text[i] == '+' || IsDigit(text[i])
    {
      assert i > 0 && text[0] == '+' ==> text[i] == digits[i - 1];
    }
  }

  function Doubled(text: string): string { text + [','] + text }

  lemma DoubledIsTrimmed(text: string)
    requires ParseU64(text).Some?
    ensures Trim(text) == text && Trim(Doubled(text)) == Doubled(text)
  {
    NumberIsPlain(text);
    TrimOfClean(text);
    TrimOfClean(Doubled(text));
  }

  /** A number repeated in a list has equal elements. */
  lemma ElementsOfDoubled(text: string)
    requires ParseU64(text).Some?
    ensures Elements(text) == [text] && Elements(Doubled(text)) == [text, text]
  {
    NumberIsPlain(text);
    DoubledIsTrimmed(text);
    SplitWithoutSeparator(text, ',');
    SplitAtSeparator(text, text, ',');
    MapTwo(Trim, text, text);
  }

  lemma MapTwo(f: string -> string, a: string, b: string)
    ensures MapText(f, [a]) == [f(a)] && MapText(f, [a] + [b]) == [f(a), f(b)]
  {
    assert [a][1..] == [] && ([a] + [b])[1..] == [b] && [b][1..] == [];
  }

  /** `42` on one line and `42,42` on another: the same length everywhere, yet refused, because the lines differ. */
  lemma EqualElementsOnUnequalLinesRefused(text: string, maxBody: nat)
    requires LengthWithin(text, maxBody)
    ensures OneLength([Some(text), Some(Doubled(text))], text, maxBody)
    ensures !AcceptsContentLength([Some(text), Some(Doubled(text))], maxBody)
  {
    ElementsOfDoubled(text);
    DoubledIsTrimmed(text);
    assert |Doubled(text)| != |text|;
    var lines := [Some(text), Some(Doubled(text))];
    assert !SameText(lines[1], lines[0]);
  }

  // ---- the zero rule for GET and HEAD ----

  lemma {:induction false} TrimStartKeeps(s: string, c: char)
    requires c in s && !IsWhitespace(c)
    ensures c in TrimStart(s)
  {
    if IsWhitespace(s[0]) {
      TrimStartKeeps(s[1..], c);
    }
  }

  lemma {:induction false} TrimEndKeeps(s: string, c: char)
    requires c in s && !IsWhitespace(c)
    ensures c in TrimEnd(s)
  {
    if IsWhitespace(s[|s| - 1]) {
      TrimEndKeeps(s[..|s| - 1], c);
    }
  }

  /**
   Among the lengths that pass, the rule for GET and HEAD lets a line through exactly when it is a
   list, of whatever number, or the number zero.
   */
  lemma ZeroRuleExactly(lines: seq<Option<string>>, maxBody: nat)
    requires lines != [] && AcceptsContentLength(lines, maxBody)
    ensures NoBodyAnnounced(lines) <==> ',' in lines[0].value || ParseU64(Trim(lines[0].value)) == Some(0)
  {
    var line := lines[0].value;
    if ',' in line {
      TrimStartKeeps(line, ',');
      TrimEndKeeps(TrimStart(line), ',');
      if ParseU64(Trim(line)).Some? {
        NumberIsPlain(Trim(line));
      }
    } else {
      SplitWithoutSeparator(line, ',');
      assert Elements(line)[0] == Trim(line);
    }
  }

  lemma DoubledIsNoNumber(text: string)
    requires ParseU64(text).Some?
    ensures ParseU64(Doubled(text)) == None
  {
    NumberIsPlain(text);
    var line := Doubled(text);
    var digits := if line[0] == '+' then line[1..] else line;
    assert digits[|digits| - |text| - 1] == ',' && !IsDigit(',');
  }

  /** A failing input for every length: a GET with `5,5` passes. */
  lemma GetWithListedLengthAccepted(text: string, maxBody: nat)
    requires LengthWithin(text, maxBody)
    ensures var lines := [Some(Doubled(text))]; AcceptsContentLength(lines, maxBody) && NoBodyAnnounced(lines)
  {
    ElementsOfDoubled(text);
    DoubledIsTrimmed(text);
    DoubledIsNoNumber(text);
  }

  // ---- what the Transfer-Encoding test sees ----

  /** The last comma-separated element of a line: the coding that frames the message. */
  function FinalCoding(line: string): string {
    Elements(line)[|Elements(line)| - 1]
  }

  /** The last part starts at the front, or right behind a separator. */
  lemma {:induction false} LastPart(s: string, sep: char) returns (k: nat)
    ensures k <= |s| && Split(s, sep)[|Split(s, sep)| - 1] == s[k..]
    ensures k > 0 ==> s[k - 1] == sep
    ensures k > 0 <==> |Split(s, sep)| > 1
  {
    if s == [] {
      k := 0;
    } else {
      k := LastPart(s[1..], sep);
      assert s[1..][k..] == s[k + 1..];
      if k > 0 || s[0] == sep {
        k := k + 1;
      } else {
        assert [s[0]] + s[1..] == s;
      }
    }
  }

  /** Trimming at the front keeps every suffix that starts with no whitespace. */
  lemma {:induction false} TrimStartKeepsSuffix(s: string, k: nat)
    requires 0 < k <= |s| && !IsWhitespace(s[|s| - k])
    ensures k <= |TrimStart(s)| && EndsWith(s, TrimStart(s))
  {
    if IsWhitespace(s[0]) {
      TrimStartKeepsSuffix(s[1..], k);
      assert s[|s| - |TrimStart(s)|..] == s[1..][|s| - 1 - |TrimStart(s)|..];
    }
  }

  lemma ChunkedByIndex(s: string)
    ensures EndsInChunked(s) <==> |s| >= 7 && forall j :: 0 <= j < 7 ==> ToAsciiLower(s[|s| - 7 + j]) == CHUNKED[j]
  {
    if |s| >= 7 {
      var tail := AsciiLower(s)[|s| - 7..];
      assert forall j :: 0 <= j < 7 ==> tail[j] == ToAsciiLower(s[|s| - 7 + j]);
      assert tail == CHUNKED <==> forall j :: 0 <= j < 7 ==> tail[j] == CHUNKED[j];
    }
  }

  /** Two texts of which one ends the other, both long enough, end alike. */
  lemma ChunkedOfSuffix(s: string, suffix: string)
    requires EndsWith(s, suffix) && |suffix| >= 7
    ensures EndsInChunked(s) <==> EndsInChunked(suffix)
  {
    ChunkedByIndex(s);
    ChunkedByIndex(suffix);
    assert forall i :: |s| - 7 <= i < |s| ==> s[i] == suffix[i - (|s| - |suffix|)];
  }

  lemma ChunkedLetters(s: string)
    requires EndsInChunked(s)
    ensures |s| >= 7 && forall i :: |s| - 7 <= i < |s| ==> !IsWhitespace(s[i]) && s[i] != ','
  {
    ChunkedByIndex(s);
    forall i | |s| - 7 <= i < |s|
      ensures !IsWhitespace(s[i]) && s[i] != ','
    {
      var j := i - (|s| - 7);
      assert ToAsciiLower(s[|s| - 7 + j]) == CHUNKED[j];
    }
  }

  /** Trimming changes nothing for a text that ends in `chunked`, nor makes one of another. */
  lemma TrimKeepsChunked(s: string)
    requires s != [] && !IsWhitespace(s[|s| - 1])
    ensures EndsInChunked(Trim(s)) <==> EndsInChunked(s)
  {
    TrimStartKeepsSuffix(s, 1);
    assert Trim(s) == TrimStart(s);
    if EndsInChunked(s) {
      ChunkedLetters(s);
      TrimStartKeepsSuffix(s, 7);
    }
    if EndsInChunked(Trim(s)) {
      ChunkedLetters(Trim(s));
    }
    if |Trim(s)| >= 7 {
      ChunkedOfSuffix(s, Trim(s));
    }
  }

  /** What stands behind a comma decides. */
  lemma ChunkedBehindComma(t: string, k: nat)
    requires k < |t| && (k > 0 ==> t[k - 1] == ',')
    ensures EndsInChunked(t) <==> EndsInChunked(t[k..])
  {
    if EndsInChunked(t) {
      ChunkedLetters(t);
    }
    if EndsInChunked(t[k..]) {
      ChunkedLetters(t[k..]);
    }
    if |t| - k >= 7 {
      ChunkedOfSuffix(t, t[k..]);
    }
  }

  lemma CommaAtEndIsNotChunked(t: string)
    requires t == [] || t[|t| - 1] == ','
    ensures !EndsInChunked(t)
  {
    if EndsInChunked(t) {
      ChunkedLetters(t);
    }
  }

  /** For a line without whitespace at its end, the last part decides. */
  lemma LastPartDecides(t: string)
    requires t != [] && !IsWhitespace(t[|t| - 1])
    ensures var parts := Split(t, ','); EndsInChunked(t) <==> EndsInChunked(Trim(parts[|parts| - 1]))
  {
    var k := LastPart(t, ',');
    if k < |t| {
      ChunkedBehindComma(t, k);
      TrimKeepsChunked(t[k..]);
    } else {
      CommaAtEndIsNotChunked(t);
      CommaAtEndIsNotChunked([]);
      assert Trim([]) == [];
    }
  }

  /** The test on the whole line is a test on its final coding: that it ends in `chunked`. */
  lemma {:induction false} TransferEncodingDecision(line: string)
    ensures AcceptsTransferEncoding(Some(line)) <==> EndsWith(AsciiLower(FinalCoding(line)), "chunked")
    ensures AsciiLower(FinalCoding(line)) == "chunked"
       <==> AcceptsTransferEncoding(Some(line)) && |FinalCoding(line)| == 7
  {
    var t := Trim(line);
    ElementsOfTrim(line);
    var parts := Split(t, ',');
    MapByIndex(Trim, parts, |parts| - 1);
    if t != [] {
      LastPartDecides(t);
    } else {
      ChunkedByIndex(t);
      ChunkedByIndex(Trim(t));
    }
  }

  lemma LowerAtEnd(front: string, word: string)
    requires AsciiLower(word) == word
    ensures EndsWith(AsciiLower(front + word), word)
  {
    assert AsciiLower(front + word)[|front|..] == AsciiLower(word);
  }

  lemma ChunkedIsLower()
    ensures AsciiLower(CHUNKED) == CHUNKED
  {
    assert forall j :: 0 <= j < |CHUNKED| ==> AsciiLower(CHUNKED)[j] == CHUNKED[j];
  }

  /** So any name that ends in `chunked` passes, `xchunked` among them. */
  lemma AnyNameEndingInChunkedAccepted(front: string)
    ensures AcceptsTransferEncoding(Some(front + CHUNKED))
  {
    var line := front + CHUNKED;
    ChunkedIsLower();
    LowerAtEnd(front, CHUNKED);
    ChunkedLetters(line);
    TrimKeepsChunked(line);
  }

  // ---- the whole decision ----

  /** Lines that announce one length within the limit and, for GET and HEAD, a list or zero. */
  ghost predicate PlainLength(lines: seq<Option<string>>, httpMethod: Method, maxBody: nat)
    requires lines != []
  {
    && SameLines(lines)
    && (exists text :: OneLength(lines, text, maxBody))
    && (httpMethod != OtherMethod ==> ',' in lines[0].value || ParseU64(Trim(lines[0].value)) == Some(0))
  }

  lemma PlainLengthDecision(lines: seq<Option<string>>, httpMethod: Method, maxBody: nat)
    requires lines != []
    ensures PlainLength(lines, httpMethod, maxBody)
       <==> AcceptsContentLength(lines, maxBody) && (httpMethod != OtherMethod ==> NoBodyAnnounced(lines))
  {
    ContentLengthDecision(lines, maxBody);
    if AcceptsContentLength(lines, maxBody) {
      ZeroRuleExactly(lines, maxBody);
    }
  }

  /** A value is legal exactly when it has no byte below 0x20 other than the tab, and no DEL. */
  lemma LegalValueExactly(value: seq<Byte>)
    ensures LegalValue(value) <==>
      forall i :: 0 <= i < |value| ==> value[i] == 9 || 0x20 <= value[i] <= 0x7e || 0x80 <= value[i] <= 0xff
  {
  }

  lemma TextsOfOne(value: seq<Byte>)
    ensures Texts([value]) == [ToStr(value)]
  {
    assert [value][..0] == [];
  }

  /** Requests with a single header, by its name: one length, one coding, or neither. */
  lemma SingleHeaderDecision(name: string, value: seq<Byte>, maxBody: nat)
    requires LegalValue(value)
    ensures Accepts([Header(name, value)], OtherMethod, maxBody) <==>
      if name == "content-length" then AcceptsContentLength([ToStr(value)], maxBody)
      else name == "transfer-encoding" ==> ToStr(value).Some? && EndsInChunked(FinalCoding(ToStr(value).value))
  {
    var h, text := Header(name, value), ToStr(value);
    GetAllOfOne(h, CONTENT_LENGTH);
    GetAllOfOne(h, TRANSFER_ENCODING);
    TextsOfOne(value);
    assert Texts([]) == [] && AllLegal([h]);
    if text.Some? {
      TransferEncodingDecision(text.value);
    }
    assert AcceptsCodings([text]) <==> AcceptsTransferEncoding(text) by {
      assert [text][0] == text;
    }
    assert |"content-length"| != |"transfer-encoding"|;
  }

  /** A request with both is refused, whatever the values and the other headers. */
  lemma BothFramingHeadersRefused(headers: seq<Header>, i: nat, j: nat, httpMethod: Method, maxBody: nat)
    requires i < |headers| && headers[i].name == "content-length"
    requires j < |headers| && headers[j].name == "transfer-encoding"
    ensures !Accepts(headers, httpMethod, maxBody)
  {
    ListedInGetAll(headers, i, CONTENT_LENGTH);
    ListedInGetAll(headers, j, TRANSFER_ENCODING);
  }

  lemma ListedInGetAll(headers: seq<Header>, i: nat, name: string)
    requires i < |headers| && headers[i].name == name
    ensures GetAll(headers, name) != []
  {
    assert headers == headers[..i] + ([headers[i]] + headers[i + 1..]);
    GetAllOfConcat(headers[..i], [headers[i]] + headers[i + 1..], name);
    GetAllOfConcat([headers[i]], headers[i + 1..], name);
    GetAllOfOne(headers[i], name);
  }

  /** A plain number passes exactly within the limit; beyond it the verdict names the limit and the number. */
  lemma PlainNumberDecision(n: nat, maxBody: nat)
    requires n < 0x1_0000_0000_0000_0000
    ensures AcceptsContentLength([Some(ShowNat(n))], maxBody) <==> n <= maxBody
    ensures ElementsVerdict(ShowNat(n), Elements(ShowNat(n)), maxBody)
         == if n <= maxBody then Ok(()) else Err(PayloadTooLarge(maxBody, n))
  {
    var text := ShowNat(n);
    ParseOfShow(n);
    ElementsOfDoubled(text);
  }

  /** Elements that differ are refused as such, before any is parsed; a single text that is no number as malformed. */
  lemma BadElementsVerdict(line: string, parts: seq<string>, i: nat, maxBody: nat)
    requires i < |parts|
    ensures parts[i] != parts[0] ==> ElementsVerdict(line, parts, maxBody) == Err(MultipleContentLengths)
    ensures |parts| == 1 && ParseU64(parts[0]) == None ==>
      ElementsVerdict(line, parts, maxBody) == Err(MalformedContentLength(line))
  {
  }

  /** Every line's final coding ends in `chunked`. */
  predicate PlainCodings(lines: seq<Option<string>>) {
    forall i :: 0 <= i < |lines| ==> lines[i].Some? && EndsInChunked(FinalCoding(lines[i].value))
  }

  lemma PlainCodingsDecision(lines: seq<Option<string>>)
    ensures PlainCodings(lines) <==> AcceptsCodings(lines)
  {
    forall i | 0 <= i < |lines|
      ensures AcceptsTransferEncoding(lines[i]) <==> lines[i].Some? && EndsInChunked(FinalCoding(lines[i].value))
    {
      if lines[i].Some? {
        TransferEncodingDecision(lines[i].value);
      }
    }
  }

  /** A request passes exactly when at most one framing header is there, as described, and all bytes are legal. */
  lemma FramingDecision(headers: seq<Header>, httpMethod: Method, maxBody: nat)
    ensures var cl, te := Texts(GetAll(headers, CONTENT_LENGTH)), Texts(GetAll(headers, TRANSFER_ENCODING));
      Accepts(headers, httpMethod, maxBody) <==>
        && (cl == [] || te == [])
        && (cl != [] ==> PlainLength(cl, httpMethod, maxBody))
        && PlainCodings(te)
        && AllLegal(headers)
  {
    var cl, te := Texts(GetAll(headers, CONTENT_LENGTH)), Texts(GetAll(headers, TRANSFER_ENCODING));
    if cl != [] {
      PlainLengthDecision(cl, httpMethod, maxBody);
    }
    PlainCodingsDecision(te);
  }
}
