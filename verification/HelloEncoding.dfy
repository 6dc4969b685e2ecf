/**
 An encoder for a single-record ClientHello (section 4.1.2 of RFC 8446) with ALPN data (section
 3.1 of RFC 7301), and the proof that the fingerprint parser reads every encoded hello exactly.
 */
module HelloEncoding {
  import opened Wrappers
  import opened Bytes
  import opened Text
  import opened ClientHello

  datatype Extension = Extension(extType: nat, data: seq<Byte>)

  datatype Hello = Hello(
    recordVersion: nat, version: nat, random: seq<Byte>, sessionId: seq<Byte>,
    suites: seq<nat>, compression: seq<Byte>, extensions: seq<Extension>)

  function EncodeU16(v: nat): (b: seq<Byte>)
    requires v < 0x1_0000
    ensures |b| == 2
  {
    [v / 256, v % 256]
  }

  function EncodeSuites(suites: seq<nat>): (b: seq<Byte>)
    requires forall i :: 0 <= i < |suites| ==> suites[i] < 0x1_0000
    ensures |b| == 2 * |suites|
  {
    if suites == [] then [] else EncodeSuites(suites[..|suites| - 1]) + EncodeU16(suites[|suites| - 1])
  }

  predicate FitsU16(e: Extension) {
    e.extType < 0x1_0000 && |e.data| < 0x1_0000
  }

  function EncodeExtension(e: Extension): (b: seq<Byte>)
    requires FitsU16(e)
    ensures |b| == 4 + |e.data|
  {
    EncodeU16(e.extType) + EncodeU16(|e.data|) + e.data
  }

  function EncodeExtensions(es: seq<Extension>): seq<Byte>
    requires forall i :: 0 <= i < |es| ==> FitsU16(es[i])
  {
    if es == [] then [] else EncodeExtension(es[0]) + EncodeExtensions(es[1..])
  }

  /** The vector bounds of the handshake syntax, the session id's relaxed to its one-byte length. */
  predicate WellFormed(h: Hello) {
    && h.recordVersion < 0x1_0000 && h.version < 0x1_0000
    && |h.random| == 32 && |h.sessionId| < 256 && |h.compression| < 256
    && |h.suites| < 0x8000 && (forall i :: 0 <= i < |h.suites| ==> h.suites[i] < 0x1_0000)
    && (forall i :: 0 <= i < |h.extensions| ==> FitsU16(h.extensions[i]))
    && |EncodeExtensions(h.extensions)| < 0x1_0000
    && 4 + |Body(h)| <= 16384
  }

  /** Everything in front of the session id: record header, handshake header, version, random. */
  function Front(h: Hello, bodyLen: nat): (b: seq<Byte>)
    requires h.recordVersion < 0x1_0000 && h.version < 0x1_0000 && |h.random| == 32 && bodyLen + 4 < 0x1_0000
    ensures |b| == 43 && b[0] == 0x16 && b[5] == 0x01
  {
    [0x16] + EncodeU16(h.recordVersion) + EncodeU16(bodyLen + 4)
    + [0x01, 0] + EncodeU16(bodyLen) + EncodeU16(h.version) + h.random
  }

  /** The part after the random: session id, suites, compression, extensions. */
  function Tail(h: Hello): (b: seq<Byte>)
    requires |h.sessionId| < 256 && |h.compression| < 256
    requires |h.suites| < 0x8000 && (forall i :: 0 <= i < |h.suites| ==> h.suites[i] < 0x1_0000)
    requires forall i :: 0 <= i < |h.extensions| ==> FitsU16(h.extensions[i])
    requires |EncodeExtensions(h.extensions)| < 0x1_0000
  {
    var exts := EncodeExtensions(h.extensions);
    [|h.sessionId|] + h.sessionId
    + EncodeU16(2 * |h.suites|) + EncodeSuites(h.suites)
    + [|h.compression|] + h.compression
    + EncodeU16(|exts|) + exts
  }

  function Body(h: Hello): seq<Byte>
    requires h.version < 0x1_0000 && |h.random| == 32
    requires |h.sessionId| < 256 && |h.compression| < 256
    requires |h.suites| < 0x8000 && (forall i :: 0 <= i < |h.suites| ==> h.suites[i] < 0x1_0000)
    requires forall i :: 0 <= i < |h.extensions| ==> FitsU16(h.extensions[i])
    requires |EncodeExtensions(h.extensions)| < 0x1_0000
  {
    EncodeU16(h.version) + h.random + Tail(h)
  }

  function Encode(h: Hello): seq<Byte>
    requires WellFormed(h)
  {
    Front(h, |Body(h)|) + Tail(h)
  }

  // ---- reading back ----

  lemma ReadU16(before: seq<Byte>, v: nat, after: seq<Byte>)
    requires v < 0x1_0000
    ensures U16(before + EncodeU16(v) + after, |before|) == v
  {
    var b := before + EncodeU16(v) + after;
    assert b[|before|] == EncodeU16(v)[0] && b[|before| + 1] == EncodeU16(v)[1];
  }

  lemma {:induction false} SuiteBytes(suites: seq<nat>, i: nat)
    requires forall k :: 0 <= k < |suites| ==> suites[k] < 0x1_0000
    requires i < |suites|
    ensures U16(EncodeSuites(suites), 2 * i) == suites[i]
  {
    if i < |suites| - 1 {
      SuiteBytes(suites[..|suites| - 1], i);
    }
  }

  lemma U16Inside(before: seq<Byte>, data: seq<Byte>, after: seq<Byte>, k: nat)
    requires k + 2 <= |data|
    ensures U16(before + data + after, |before| + k) == U16(data, k)
  {
  }

  /** The bytes hold the suites, two each. */
  predicate HoldsSuites(data: seq<Byte>, suites: seq<nat>) {
    |data| == 2 * |suites| && forall i :: 0 <= i < |suites| ==> U16(data, 2 * i) == suites[i]
  }

  lemma {:induction false} EncodedHoldsSuites(suites: seq<nat>)
    requires forall i :: 0 <= i < |suites| ==> suites[i] < 0x1_0000
    ensures HoldsSuites(EncodeSuites(suites), suites)
  {
    forall i | 0 <= i < |suites|
      ensures U16(EncodeSuites(suites), 2 * i) == suites[i]
    {
      SuiteBytes(suites, i);
    }
  }

  lemma ReadSuites(before: seq<Byte>, data: seq<Byte>, suites: seq<nat>, after: seq<Byte>)
    requires HoldsSuites(data, suites)
    ensures SuitesAt(before + data + after, |before|, |suites|) == suites
  {
    forall i | 0 <= i < |suites|
      ensures U16(before + data + after, |before| + 2 * i) == suites[i]
    {
      U16Inside(before, data, after, 2 * i);
    }
  }

  predicate Shows(es: seq<Extension>, extType: nat) {
    exists i :: 0 <= i < |es| && es[i].extType == extType
  }

  predicate ShowsGrease(es: seq<Extension>) {
    exists i :: 0 <= i < |es| && IsGrease(es[i].extType)
  }

  /** The bytes `h` and `2`, one behind the other. */
  predicate HoldsPair(data: seq<Byte>) {
    exists i :: 0 <= i < |data| - 1 && data[i] == 0x68 && data[i + 1] == 0x32
  }

  /** Some ALPN extension holds the adjacent bytes `h2`. */
  predicate ShowsH2(es: seq<Extension>) {
    exists i :: 0 <= i < |es| && es[i].extType == 16 && HoldsPair(es[i].data)
  }

  function EvidenceOf(es: seq<Extension>): Evidence {
    Evidence(ShowsGrease(es), Shows(es, 0), ShowsH2(es))
  }

  lemma EvidenceOfCons(es: seq<Extension>)
    requires es != []
    ensures EvidenceOf(es) == Merge(ExtensionEvidence(es[0].extType, Some(es[0].data)), EvidenceOf(es[1..]))
  {
    var rest := es[1..];
    assert forall i :: 0 <= i < |rest| ==> rest[i] == es[i + 1];
    assert forall i :: 1 <= i < |es| ==> es[i] == rest[i - 1];
  }

  /** The first turn of the loop on an encoded extension followed by more. */
  lemma WalkOne(before: seq<Byte>, e: Extension, rest: seq<Byte>)
    requires FitsU16(e)
    ensures var b := before + EncodeExtension(e) + rest;
      Walk(b, |before|, |b|)
      == Merge(ExtensionEvidence(e.extType, Some(e.data)), Walk(b, |before + EncodeExtension(e)|, |b|))
  {
    var data := EncodeExtension(e);
    var b := before + data + rest;
    ReadU16([], e.extType, EncodeU16(|e.data|) + e.data);
    assert data == [] + EncodeU16(e.extType) + (EncodeU16(|e.data|) + e.data);
    ReadU16(EncodeU16(e.extType), |e.data|, e.data);
    U16Inside(before, data, rest, 0);
    U16Inside(before, data, rest, 2);
    assert b[|before| + 4..|before| + 4 + |e.data|] == e.data;
  }

  lemma {:induction false} WalkEncoded(before: seq<Byte>, es: seq<Extension>)
    requires forall i :: 0 <= i < |es| ==> FitsU16(es[i])
    ensures var b := before + EncodeExtensions(es); Walk(b, |before|, |b|) == EvidenceOf(es)
    decreases |es|
  {
    if es != [] {
      var rest := EncodeExtensions(es[1..]);
      assert before + EncodeExtensions(es) == before + EncodeExtension(es[0]) + rest;
      WalkOne(before, es[0], rest);
      WalkEncoded(before + EncodeExtension(es[0]), es[1..]);
      EvidenceOfCons(es);
    }
  }

  lemma PreludeFromFacts(b: seq<Byte>, suites: seq<nat>)
    requires |b| > 43 && b[0] == HANDSHAKE && b[5] == CLIENT_HELLO
    requires 44 + b[43] as int + 2 + 2 * |suites| < |b|
    requires U16(b, 44 + b[43] as int) == 2 * |suites|
    requires SuitesAt(b, 44 + b[43] as int + 2, |suites|) == suites
    ensures var compressionAt := 44 + b[43] as int + 2 + 2 * |suites|;
      ReadPrelude(b) == Some(Prelude(suites, compressionAt + 1 + b[compressionAt] as int))
  {
  }

  lemma ReadByte(before: seq<Byte>, v: Byte, after: seq<Byte>)
    ensures (before + [v] + after)[|before|] == v
  {
  }

  /** The prelude of a buffer laid out as the parser expects. */
  lemma PreludeOfParts(front: seq<Byte>, sessionId: seq<Byte>, lenField: seq<Byte>, data: seq<Byte>,
                       suites: seq<nat>, compression: seq<Byte>, rest: seq<Byte>)
    requires |front| == 43 && front[0] == HANDSHAKE && front[5] == CLIENT_HELLO
    requires |sessionId| < 256 && |compression| < 256
    requires |lenField| == 2 && U16(lenField, 0) == 2 * |suites| && HoldsSuites(data, suites)
    ensures var b := front + [|sessionId|] + sessionId + lenField + data + [|compression|] + compression + rest;
      ReadPrelude(b) == Some(Prelude(suites, |b| - |rest|))
  {
    var toSession := front + [|sessionId|] + sessionId;
    var toSuites := toSession + lenField;
    var tail := [|compression|] + compression + rest;
    var b := toSuites + data + [|compression|] + compression + rest;
    assert b == toSuites + data + [|compression|] + (compression + rest);
    ReadByte(toSuites + data, |compression|, compression + rest);
    assert b == toSuites + data + tail;
    ReadSuites(toSuites, data, suites, tail);
    assert b == toSession + lenField + (data + tail);
    U16Inside(toSession, lenField, data + tail, 0);
    assert b[..44] == front + [|sessionId|];
    assert b[43] as int == |sessionId| && b[0] == front[0] && b[5] == front[5];
    PreludeFromFacts(b, suites);
  }

  /** The encoding up to the extensions length. */
  function BeforeExtensions(h: Hello): seq<Byte>
    requires WellFormed(h)
  {
    Front(h, |Body(h)|) + [|h.sessionId|] + h.sessionId + EncodeU16(2 * |h.suites|)
      + EncodeSuites(h.suites) + [|h.compression|] + h.compression
  }

  lemma RegroupParts(a: seq<Byte>, b: seq<Byte>, c: seq<Byte>, d: seq<Byte>, e: seq<Byte>, f: seq<Byte>, g: seq<Byte>,
                     x: seq<Byte>, y: seq<Byte>)
    ensures a + (b + c + d + e + f + g + x + y) == (a + b + c + d + e + f + g) + x + y
  {
  }

  lemma EncodeLayout(h: Hello)
    requires WellFormed(h)
    ensures var exts := EncodeExtensions(h.extensions); Encode(h) == BeforeExtensions(h) + EncodeU16(|exts|) + exts
  {
    var exts := EncodeExtensions(h.extensions);
    RegroupParts(Front(h, |Body(h)|), [|h.sessionId|], h.sessionId, EncodeU16(2 * |h.suites|), EncodeSuites(h.suites),
                 [|h.compression|], h.compression, EncodeU16(|exts|), exts);
  }

  lemma PreludeOfBefore(h: Hello, rest: seq<Byte>)
    requires WellFormed(h)
    ensures ReadPrelude(BeforeExtensions(h) + rest) == Some(Prelude(h.suites, |BeforeExtensions(h)|))
  {
    EncodedHoldsSuites(h.suites);
    PreludeOfParts(Front(h, |Body(h)|), h.sessionId, EncodeU16(2 * |h.suites|), EncodeSuites(h.suites),
                   h.suites, h.compression, rest);
  }

  /** The extensions block of a layout whose front part is `before`. */
  lemma BlockOfLayout(b: seq<Byte>, before: seq<Byte>, exts: seq<Byte>)
    requires |exts| < 0x1_0000 && b == before + EncodeU16(|exts|) + exts
    ensures |b| == |before| + 2 + |exts| && U16(b, |before|) == |exts| && b == b[..|before| + 2] + exts
  {
    ReadU16(before, |exts|, exts);
  }

  lemma EvidenceOfBlock(b: seq<Byte>, at: nat, es: seq<Extension>)
    requires forall i :: 0 <= i < |es| ==> FitsU16(es[i])
    requires at + 2 + |EncodeExtensions(es)| == |b| && U16(b, at) == |EncodeExtensions(es)|
    requires b == b[..at + 2] + EncodeExtensions(es)
    ensures ExtensionsEvidence(b, at) == EvidenceOf(es)
  {
    WalkEncoded(b[..at + 2], es);
  }

  lemma ParseFromPrelude(b: seq<Byte>, suites: seq<nat>, at: nat, es: seq<Extension>)
    requires ReadPrelude(b) == Some(Prelude(suites, at)) && ExtensionsEvidence(b, at) == EvidenceOf(es)
    ensures Parse(b) == Some(ProfileOf(suites, EvidenceOf(es)))
  {
  }

  lemma PreludeOfEncoded(h: Hello)
    requires WellFormed(h)
    ensures ReadPrelude(Encode(h)) == Some(Prelude(h.suites, |BeforeExtensions(h)|))
  {
    var exts := EncodeExtensions(h.extensions);
    EncodeLayout(h);
    assert Encode(h) == BeforeExtensions(h) + (EncodeU16(|exts|) + exts);
    PreludeOfBefore(h, EncodeU16(|exts|) + exts);
  }

  /** Parsing an encoded hello gives its suites, and exactly the evidence its extensions show. */
  lemma {:induction false} RoundTrip(h: Hello)
    requires WellFormed(h)
    ensures Parse(Encode(h)) == Some(Profile(
      AnyGrease(h.suites) || ShowsGrease(h.extensions),
      |h.suites|,
      ShowsH2(h.extensions),
      Shows(h.extensions, 0),
      FirstThree(NonGrease(h.suites))))
  {
    var b, before, exts := Encode(h), BeforeExtensions(h), EncodeExtensions(h.extensions);
    EncodeLayout(h);
    PreludeOfEncoded(h);
    BlockOfLayout(b, before, exts);
    EvidenceOfBlock(b, |before|, h.extensions);
    ParseFromPrelude(b, h.suites, |before|, h.extensions);
  }

  // ---- a hello cut anywhere ----

  /** Where an extension starts within its block. */
  function Offset(es: seq<Extension>, i: nat): nat
    requires i <= |es| && forall k :: 0 <= k < |es| ==> FitsU16(es[k])
  {
    |EncodeExtensions(es[..i])|
  }

  /** The type and length fields of the extension lie within the first `m` bytes of the block. */
  predicate HeadWithin(es: seq<Extension>, i: nat, m: nat)
    requires i < |es| && forall k :: 0 <= k < |es| ==> FitsU16(es[k])
  {
    Offset(es, i) + 4 <= m
  }

  /** All of the extension does. */
  predicate AllWithin(es: seq<Extension>, i: nat, m: nat)
    requires i < |es| && forall k :: 0 <= k < |es| ==> FitsU16(es[k])
  {
    Offset(es, i) + 4 + |es[i].data| <= m
  }

  predicate CutShowsGrease(es: seq<Extension>, m: nat)
    requires forall k :: 0 <= k < |es| ==> FitsU16(es[k])
  {
    exists i :: 0 <= i < |es| && HeadWithin(es, i, m) && IsGrease(es[i].extType)
  }

  predicate CutShowsSni(es: seq<Extension>, m: nat)
    requires forall k :: 0 <= k < |es| ==> FitsU16(es[k])
  {
    exists i :: 0 <= i < |es| && HeadWithin(es, i, m) && es[i].extType == 0
  }

  predicate CutShowsH2(es: seq<Extension>, m: nat)
    requires forall k :: 0 <= k < |es| ==> FitsU16(es[k])
  {
    exists i :: 0 <= i < |es| && AllWithin(es, i, m) && es[i].extType == 16 && HoldsPair(es[i].data)
  }

  /** What the first `m` bytes of an encoded block show. */
  function CutEvidence(es: seq<Extension>, m: nat): Evidence
    requires forall k :: 0 <= k < |es| ==> FitsU16(es[k])
  {
    Evidence(CutShowsGrease(es, m), CutShowsSni(es, m), CutShowsH2(es, m))
  }

  lemma OffsetOfRest(es: seq<Extension>, i: nat)
    requires i < |es| && forall k :: 0 <= k < |es| ==> FitsU16(es[k])
    ensures Offset(es, 0) == 0 && Offset(es, i + 1) == 4 + |es[0].data| + Offset(es[1..], i)
  {
    assert es[..i + 1][1..] == es[1..][..i];
  }

  lemma WithinRest(es: seq<Extension>, i: nat, m: nat)
    requires i + 1 < |es| && forall k :: 0 <= k < |es| ==> FitsU16(es[k])
    ensures var size := 4 + |es[0].data|;
      && (HeadWithin(es, i + 1, m) <==> m >= size && HeadWithin(es[1..], i, m - size))
      && (AllWithin(es, i + 1, m) <==> m >= size && AllWithin(es[1..], i, m - size))
  {
    OffsetOfRest(es, i);
  }

  /** The first extension and the rest, when the cut is behind the first one's fields. */
  lemma CutEvidenceOfCons(es: seq<Extension>, m: nat)
    requires es != [] && forall k :: 0 <= k < |es| ==> FitsU16(es[k])
    ensures var size := 4 + |es[0].data|;
      CutEvidence(es, m) ==
        if m < 4 then NO_EVIDENCE
        else if m < size then ExtensionEvidence(es[0].extType, None)
        else Merge(ExtensionEvidence(es[0].extType, Some(es[0].data)), CutEvidence(es[1..], m - size))
  {
    var rest, size := es[1..], 4 + |es[0].data|;
    OffsetOfRest(es, 0);
    forall i {:trigger HeadWithin(es, i, m)} {:trigger AllWithin(es, i, m)} | 0 < i < |es|
      ensures HeadWithin(es, i, m) <==> m >= size && HeadWithin(rest, i - 1, m - size)
      ensures AllWithin(es, i, m) <==> m >= size && AllWithin(rest, i - 1, m - size)
    {
      WithinRest(es, i - 1, m);
    }
    if m >= size {
      forall i {:trigger HeadWithin(rest, i, m - size)} {:trigger AllWithin(rest, i, m - size)} | 0 <= i < |rest|
        ensures HeadWithin(es, i + 1, m) <==> HeadWithin(rest, i, m - size)
        ensures AllWithin(es, i + 1, m) <==> AllWithin(rest, i, m - size)
        ensures es[i + 1] == rest[i]
      {
        WithinRest(es, i, m);
      }
    }
  }

  /** The loop over a block that is cut after `m` bytes. */
  lemma {:induction false} WalkCut(before: seq<Byte>, es: seq<Extension>, m: nat)
    requires forall k :: 0 <= k < |es| ==> FitsU16(es[k])
    requires m <= |EncodeExtensions(es)|
    ensures var b := before + EncodeExtensions(es)[..m]; Walk(b, |before|, |b|) == CutEvidence(es, m)
    decreases |es|
  {
    var b := before + EncodeExtensions(es)[..m];
    if es != [] {
      var first, rest := EncodeExtension(es[0]), EncodeExtensions(es[1..]);
      CutEvidenceOfCons(es, m);
      if m >= |first| {
        var shorter := rest[..m - |first|];
        assert b == before + first + shorter;
        WalkOne(before, es[0], shorter);
        WalkCut(before + first, es[1..], m - |first|);
      } else if m >= 4 {
        WalkIntoCut(b, before, es[0], m);
      }
    }
  }

  lemma HeadOfExtension(before: seq<Byte>, e: Extension)
    requires FitsU16(e)
    ensures var whole := before + EncodeExtension(e);
      U16(whole, |before|) == e.extType && U16(whole, |before| + 2) == |e.data|
  {
    ReadU16([], e.extType, EncodeU16(|e.data|) + e.data);
    assert EncodeExtension(e) == [] + EncodeU16(e.extType) + (EncodeU16(|e.data|) + e.data);
    ReadU16(EncodeU16(e.extType), |e.data|, e.data);
    assert before + EncodeExtension(e) == before + EncodeExtension(e) + [];
    U16Inside(before, EncodeExtension(e), [], 0);
    U16Inside(before, EncodeExtension(e), [], 2);
  }

  lemma WalkIntoData(b: seq<Byte>, at: nat, extType: nat, size: nat)
    requires at + 4 <= |b| < at + 4 + size && U16(b, at) == extType && U16(b, at + 2) == size
    ensures Walk(b, at, |b|) == ExtensionEvidence(extType, None)
  {
  }

  lemma CutReads(before: seq<Byte>, data: seq<Byte>, m: nat, i: nat)
    requires m <= |data| && i + 2 <= |before| + m
    ensures U16(before + data[..m], i) == U16(before + data, i)
  {
    assert before + data[..m] == (before + data)[..|before| + m];
  }

  /** The loop on an extension whose fields are there and whose data is cut. */
  lemma WalkIntoCut(b: seq<Byte>, before: seq<Byte>, e: Extension, m: nat)
    requires FitsU16(e) && 4 <= m < |EncodeExtension(e)| && b == before + EncodeExtension(e)[..m]
    ensures Walk(b, |before|, |b|) == ExtensionEvidence(e.extType, None)
  {
    var data := EncodeExtension(e);
    HeadOfExtension(before, e);
    CutReads(before, data, m, |before|);
    CutReads(before, data, m, |before| + 2);
    WalkIntoData(b, |before|, e.extType, |e.data|);
  }

  /** The bytes of the extensions block that a cut leaves. */
  function BlockLeft(h: Hello, n: nat): nat
    requires WellFormed(h)
  {
    if n < |BeforeExtensions(h)| + 2 then 0 else n - |BeforeExtensions(h)| - 2
  }

  lemma EvidenceOfCutBlock(b: seq<Byte>, at: nat, es: seq<Extension>, n: nat)
    requires forall k :: 0 <= k < |es| ==> FitsU16(es[k])
    requires at + 2 + |EncodeExtensions(es)| == |b| && U16(b, at) == |EncodeExtensions(es)|
    requires b == b[..at + 2] + EncodeExtensions(es) && at + 2 <= n <= |b|
    ensures ExtensionsEvidence(b[..n], at) == CutEvidence(es, n - at - 2)
  {
    PrefixReads(b[..n], b, at);
    assert b[..n] == b[..at + 2] + EncodeExtensions(es)[..n - at - 2];
    WalkCut(b[..at + 2], es, n - at - 2);
  }

  lemma EvidenceOfCut(h: Hello, n: nat)
    requires WellFormed(h) && n <= |Encode(h)|
    ensures ExtensionsEvidence(Encode(h)[..n], |BeforeExtensions(h)|) == CutEvidence(h.extensions, BlockLeft(h, n))
  {
    EncodeLayout(h);
    BlockOfLayout(Encode(h), BeforeExtensions(h), EncodeExtensions(h.extensions));
    if |BeforeExtensions(h)| + 2 <= n {
      EvidenceOfCutBlock(Encode(h), |BeforeExtensions(h)|, h.extensions, n);
    }
  }

  /** Where the length of the compression methods ends. */
  function SuitesEnd(h: Hello): nat {
    47 + |h.sessionId| + 2 * |h.suites|
  }

  lemma FieldsOfParts(b: seq<Byte>, front: seq<Byte>, sessionId: seq<Byte>, lenField: seq<Byte>)
    requires |front| == 43 && |sessionId| < 256 && |lenField| == 2
    requires front + [|sessionId|] + sessionId + lenField <= b
    ensures b[43] as int == |sessionId| && U16(b, 44 + |sessionId|) == U16(lenField, 0)
  {
    var toSession := front + [|sessionId|] + sessionId;
    U16Inside(toSession, lenField, [], 0);
    assert toSession + lenField == toSession + lenField + [];
    PrefixReads(toSession + lenField, b, 44 + |sessionId|);
    assert b[43] == (toSession + lenField)[43];
  }

  lemma StartsSum(p: seq<Byte>, x: seq<Byte>, y: seq<Byte>, z: seq<Byte>, v: seq<Byte>, w: seq<Byte>)
    ensures p <= p + x + y + z + v + w
  {
    assert (p + x + y + z + v + w)[..|p|] == p;
  }

  lemma FieldsOfEncoded(h: Hello)
    requires WellFormed(h)
    ensures ReadPrelude(Encode(h)) == Some(Prelude(h.suites, |BeforeExtensions(h)|))
    ensures SuitesEnd(h) <= |Encode(h)| && ShortestCut(Encode(h)) == SuitesEnd(h)
  {
    var exts, lenField := EncodeExtensions(h.extensions), EncodeU16(2 * |h.suites|);
    PreludeOfEncoded(h);
    EncodeLayout(h);
    StartsSum(Front(h, |Body(h)|) + [|h.sessionId|] + h.sessionId + lenField,
              EncodeSuites(h.suites), [|h.compression|], h.compression, EncodeU16(|exts|), exts);
    FieldsOfParts(Encode(h), Front(h, |Body(h)|), h.sessionId, lenField);
    assert U16(lenField, 0) == 2 * |h.suites|;
  }

  /**
   A hello cut anywhere behind its compression length parses to the same suites and exactly the
   evidence that is left: GREASE and server name of every extension whose type and length are there,
   and `h2` of every ALPN extension that is there as a whole. Cut any shorter it does not parse.
   */
  lemma {:induction false} RoundTripOfCut(h: Hello, n: nat)
    requires WellFormed(h) && n <= |Encode(h)|
    ensures var m := BlockLeft(h, n);
      Parse(Encode(h)[..n]) == if n < SuitesEnd(h) then None else Some(Profile(
        AnyGrease(h.suites) || CutShowsGrease(h.extensions, m),
        |h.suites|,
        CutShowsH2(h.extensions, m),
        CutShowsSni(h.extensions, m),
        FirstThree(NonGrease(h.suites))))
  {
    var b := Encode(h);
    FieldsOfEncoded(h);
    if n < SuitesEnd(h) {
      if ReadPrelude(b[..n]).Some? {
        PrefixReads(b[..n], b, 44 + b[43] as int);
      }
    } else {
      ParseOfShortestCut(b);
      assert b[..ShortestCut(b)] == b[..n][..ShortestCut(b)];
      PreludeFromPrefix(b[..ShortestCut(b)], b[..n]);
      PreludeFromPrefix(b[..n], b);
      EvidenceOfCut(h, n);
    }
  }

  // ---- a coherent hello that is judged spoofed when cut ----

  /**
   A browser's hello with GREASE and `h2` among its extensions is coherent. When its suites do not
   vouch for it, the cut behind them is judged spoofed: without GREASE there for want of GREASE,
   otherwise, for Chrome and Edge with fewer than ten suites, for want of HTTP/2.
   */
  lemma CoherentHelloIsSpoofedWhenCut(h: Hello, ua: string)
    requires WellFormed(h) && ShowsGrease(h.extensions) && ShowsH2(h.extensions)
    requires !SuitesVouch(h.suites, Some(ua))
    ensures ReadPrelude(Encode(h)).Some? && Parse(Encode(h)).Some?
    ensures VerifyUserAgent(Parse(Encode(h)).value, Some(ua)) == Coherent
    ensures var cut := Parse(Encode(h)[..ShortestCut(Encode(h))]);
      cut.Some? && VerifyUserAgent(cut.value, Some(ua)) == if AnyGrease(h.suites) then LacksHttp2 else LacksGrease
  {
    RoundTrip(h);
    PreludeOfEncoded(h);
    ShortestCutIsSpoofed(Encode(h), ua);
  }

  const GREASE_EXTENSION := Extension(0x0a0a, [])
  const ALPN_EXTENSION := Extension(16, [0, 3, 2, 0x68, 0x32])

  /** A small hello with the given suites, GREASE and `h2`. */
  function SmallHello(suites: seq<nat>): Hello {
    Hello(0x0301, 0x0303, seq(32, _ => 0), [], suites, [0], [GREASE_EXTENSION, ALPN_EXTENSION])
  }

  lemma SmallExtensions()
    ensures var es := [GREASE_EXTENSION, ALPN_EXTENSION];
      |EncodeExtensions(es)| == 13 && ShowsGrease(es) && ShowsH2(es)
  {
    var es := [GREASE_EXTENSION, ALPN_EXTENSION];
    assert es[1..] == [ALPN_EXTENSION] && [ALPN_EXTENSION][1..] == [];
    assert |EncodeExtensions([ALPN_EXTENSION])| == 9;
    assert IsGrease(es[0].extType);
    assert es[1].data[3] == CHAR_H && es[1].data[3 + 1] == CHAR_2;
    assert HasH2(es[1].data);
  }

  lemma SmallHelloIsWellFormed(suites: seq<nat>)
    requires |suites| < 10 && forall i :: 0 <= i < |suites| ==> suites[i] < 0x1_0000
    ensures WellFormed(SmallHello(suites))
  {
    SmallExtensions();
    assert |Tail(SmallHello(suites))| == 20 + 2 * |suites|;
  }

  lemma PlainChromeNeedsTenSuites(suites: seq<nat>)
    requires |suites| < 10
    ensures !SuitesVouch(suites, Some("Chrome/"))
  {
    var ua := "Chrome/";
    TrimOfClean(ua);
    assert OccursAt(ua, "Chrome/", 0);
    assert ua[0] == 'C' && "bingbot"[0] == 'b';
  }

  /** For every list of fewer than ten suites, with GREASE or without, a hello coherent whole and spoofed cut. */
  lemma SmallHelloIsSpoofedWhenCut(suites: seq<nat>)
    requires |suites| < 10 && forall i :: 0 <= i < |suites| ==> suites[i] < 0x1_0000
    ensures WellFormed(SmallHello(suites))
    ensures var b := Encode(SmallHello(suites));
      && ReadPrelude(b).Some? && Parse(b).Some? && VerifyUserAgent(Parse(b).value, Some("Chrome/")) == Coherent
      && Parse(b[..ShortestCut(b)]).Some?
      && VerifyUserAgent(Parse(b[..ShortestCut(b)]).value, Some("Chrome/"))
         == if AnyGrease(suites) then LacksHttp2 else LacksGrease
  {
    SmallExtensions();
    SmallHelloIsWellFormed(suites);
    PlainChromeNeedsTenSuites(suites);
    CoherentHelloIsSpoofedWhenCut(SmallHello(suites), "Chrome/");
  }

  // ---- ALPN ----

  function EncodeNames(names: seq<seq<Byte>>): seq<Byte>
    requires forall i :: 0 <= i < |names| ==> |names[i]| < 256
  {
    if names == [] then [] else [|names[0]|] + names[0] + EncodeNames(names[1..])
  }

  function AlpnData(names: seq<seq<Byte>>): seq<Byte>
    requires forall i :: 0 <= i < |names| ==> |names[i]| < 256
    requires |EncodeNames(names)| < 0x1_0000
  {
    EncodeU16(|EncodeNames(names)|) + EncodeNames(names)
  }

  const H2: seq<Byte> := [0x68, 0x32]

  lemma HasH2Inside(before: seq<Byte>, data: seq<Byte>, after: seq<Byte>)
    requires HasH2(data)
    ensures HasH2(before + data + after)
  {
    var i :| 0 <= i < |data| - 1 && data[i] == CHAR_H && data[i + 1] == CHAR_2;
    var b := before + data + after;
    assert b[|before| + i] == CHAR_H && b[|before| + i + 1] == CHAR_2;
  }

  lemma {:induction false} OfferedNameIsSeen(names: seq<seq<Byte>>)
    requires forall i :: 0 <= i < |names| ==> |names[i]| < 256
    requires H2 in names
    ensures HasH2(EncodeNames(names))
  {
    if names[0] == H2 {
      assert HasH2(H2) by { assert H2[0] == CHAR_H && H2[0 + 1] == CHAR_2; }
      HasH2Inside([|names[0]|], names[0], EncodeNames(names[1..]));
    } else {
      OfferedNameIsSeen(names[1..]);
      HasH2Inside([|names[0]|] + names[0], EncodeNames(names[1..]), []);
      assert EncodeNames(names) == [|names[0]|] + names[0] + EncodeNames(names[1..]) + [];
    }
  }

  /** A hello whose ALPN list contains `h2` is always seen to offer it. */
  lemma OfferingH2IsSeen(h: Hello, k: nat, names: seq<seq<Byte>>)
    requires WellFormed(h) && k < |h.extensions| && h.extensions[k].extType == ALPN
    requires forall i :: 0 <= i < |names| ==> |names[i]| < 256
    requires |EncodeNames(names)| < 0x1_0000 && h.extensions[k].data == AlpnData(names)
    requires H2 in names
    ensures Parse(Encode(h)).Some? && Parse(Encode(h)).value.offersH2
  {
    OfferedNameIsSeen(names);
    var encoded := EncodeNames(names);
    HasH2Inside(EncodeU16(|encoded|), encoded, []);
    assert AlpnData(names) == EncodeU16(|encoded|) + encoded + [];
    RoundTrip(h);
  }

  // ---- which lists look like `h2` ----

  /** The pair lies in one part, or across the seam. */
  lemma HasH2OfConcat(a: seq<Byte>, b: seq<Byte>)
    ensures HasH2(a + b) <==>
      HasH2(a) || HasH2(b) || (a != [] && b != [] && a[|a| - 1] == CHAR_H && b[0] == CHAR_2)
  {
    assert a + b == [] + a + b && a + b == a + b + [];
    if HasH2(a) {
      HasH2Inside([], a, b);
    }
    if HasH2(b) {
      HasH2Inside(a, b, []);
    }
    if a != [] && b != [] && a[|a| - 1] == CHAR_H && b[0] == CHAR_2 {
      assert (a + b)[|a| - 1] == CHAR_H && (a + b)[|a| - 1 + 1] == CHAR_2;
    }
    if HasH2(a + b) {
      var i :| 0 <= i < |a + b| - 1 && (a + b)[i] == CHAR_H && (a + b)[i + 1] == CHAR_2;
      if i + 1 < |a| {
        assert a[i] == CHAR_H && a[i + 1] == CHAR_2;
      } else if i >= |a| {
        assert b[i - |a|] == CHAR_H && b[i - |a| + 1] == CHAR_2;
      }
    }
  }

  predicate ShortNames(names: seq<seq<Byte>>) {
    forall i :: 0 <= i < |names| ==> |names[i]| < 256
  }

  /**
   The pair shows at a name: inside it, as its length 0x68 before a first byte 0x32, or as its last
   byte before a next name of length 0x32.
   */
  predicate ShowsPairAt(names: seq<seq<Byte>>, i: nat)
    requires i < |names|
  {
    var name := names[i];
    || HasH2(name)
    || (|name| == CHAR_H && name[0] == CHAR_2)
    || (name != [] && name[|name| - 1] == CHAR_H && i + 1 < |names| && |names[i + 1]| == CHAR_2)
  }

  predicate ShowsPair(names: seq<seq<Byte>>) {
    exists i :: 0 <= i < |names| && ShowsPairAt(names, i)
  }

  lemma ShowsPairOfCons(names: seq<seq<Byte>>)
    requires names != []
    ensures ShowsPair(names) <==> ShowsPairAt(names, 0) || ShowsPair(names[1..])
  {
    assert forall i :: 0 <= i < |names| - 1 ==> (ShowsPairAt(names[1..], i) <==> ShowsPairAt(names, i + 1));
    if ShowsPair(names) && !ShowsPairAt(names, 0) {
      var i :| 0 <= i < |names| && ShowsPairAt(names, i);
      assert ShowsPairAt(names[1..], i - 1);
    }
    if ShowsPair(names[1..]) {
      var i :| 0 <= i < |names[1..]| && ShowsPairAt(names[1..], i);
      assert ShowsPairAt(names, i + 1);
    }
  }

  lemma {:induction false} PairInNames(names: seq<seq<Byte>>)
    requires ShortNames(names)
    ensures HasH2(EncodeNames(names)) <==> ShowsPair(names)
  {
    if names != [] {
      var first: seq<Byte> := [|names[0]|] + names[0];
      HasH2OfConcat([|names[0]|], names[0]);
      HasH2OfConcat(first, EncodeNames(names[1..]));
      PairInNames(names[1..]);
      ShowsPairOfCons(names);
    }
  }

  /** The list reads as an offer of `h2`: by one of its names, or by its own length bytes. */
  predicate LooksLikeH2(names: seq<seq<Byte>>)
    requires ShortNames(names)
  {
    var size := |EncodeNames(names)|;
    || ShowsPair(names)
    || size == 0x6832
    || (names != [] && size % 256 == CHAR_H && |names[0]| == CHAR_2)
  }

  lemma PairInAlpnData(names: seq<seq<Byte>>)
    requires ShortNames(names) && |EncodeNames(names)| < 0x1_0000
    ensures HasH2(AlpnData(names)) <==> LooksLikeH2(names)
  {
    var encoded := EncodeNames(names);
    var size := EncodeU16(|encoded|);
    HasH2OfConcat(size, encoded);
    HasH2OfConcat([size[0]], [size[1]]);
    assert size == [size[0]] + [size[1]];
    PairInNames(names);
    assert names != [] ==> encoded != [] && encoded[0] == |names[0]|;
  }

  /** Every ALPN extension of the hello carries its list of names. */
  predicate CarriesLists(h: Hello, lists: seq<seq<seq<Byte>>>) {
    && |lists| == |h.extensions|
    && forall i :: 0 <= i < |lists| && h.extensions[i].extType == ALPN ==>
         ShortNames(lists[i]) && |EncodeNames(lists[i])| < 0x1_0000 && h.extensions[i].data == AlpnData(lists[i])
  }

  /** A hello is seen to offer `h2` exactly when one of its name lists looks like it. */
  lemma SeenToOfferH2Exactly(h: Hello, lists: seq<seq<seq<Byte>>>)
    requires WellFormed(h) && CarriesLists(h, lists)
    ensures Parse(Encode(h)).Some?
    ensures Parse(Encode(h)).value.offersH2
       <==> exists i :: 0 <= i < |lists| && h.extensions[i].extType == ALPN && LooksLikeH2(lists[i])
  {
    RoundTrip(h);
    forall i | 0 <= i < |lists| && h.extensions[i].extType == ALPN
      ensures HasH2(h.extensions[i].data) <==> LooksLikeH2(lists[i])
    {
      PairInAlpnData(lists[i]);
    }
  }

  /** Two lists without `h2` that look like it: the name `h2c`, and `h` before any name of fifty bytes. */
  lemma OtherNamesCanLookLikeH2(name: seq<Byte>)
    requires |name| == CHAR_2
    ensures var cleartext: seq<Byte> := [CHAR_H, CHAR_2, 0x63]; H2 !in [cleartext] && LooksLikeH2([cleartext])
    ensures H2 !in [[CHAR_H], name] && LooksLikeH2([[CHAR_H], name])
  {
    var cleartext: seq<Byte> := [CHAR_H, CHAR_2, 0x63];
    assert cleartext[0] == CHAR_H && cleartext[0 + 1] == CHAR_2;
    assert ShowsPairAt([cleartext], 0);
    assert ShowsPairAt([[CHAR_H], name], 0);
  }
}
