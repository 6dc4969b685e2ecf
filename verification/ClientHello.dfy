/**
 The TLS ClientHello fingerprint: a cursor parser over a peeked, possibly truncated buffer, and
 the check of its profile against the claimed User-Agent.
 */
module ClientHello {
  import opened Wrappers
  import opened Bytes
  import opened Text

  const HANDSHAKE: Byte := 0x16
  const CLIENT_HELLO: Byte := 0x01
  const SNI: nat := 0x0000
  const ALPN: nat := 0x0010
  const CHAR_H: Byte := 0x68
  const CHAR_2: Byte := 0x32

  function U16(buf: seq<Byte>, i: nat): (v: nat)
    requires i + 2 <= |buf|
    ensures v < 0x1_0000
  {
    buf[i] as int * 256 + buf[i + 1] as int
  }

  /** Both bytes equal and both ending in the nibble 0xa. */
  predicate IsGrease(v: nat) {
    v % 16 == 10 && (v / 256) % 16 == 10 && v / 256 == v % 256
  }

  /** The reserved values of section 2 of RFC 8701, and only those, are GREASE. */
  lemma GreaseValues(v: nat)
    requires v < 0x1_0000
    ensures IsGrease(v) <==>
      v in {0x0a0a, 0x1a1a, 0x2a2a, 0x3a3a, 0x4a4a, 0x5a5a, 0x6a6a, 0x7a7a,
            0x8a8a, 0x9a9a, 0xaaaa, 0xbaba, 0xcaca, 0xdada, 0xeaea, 0xfafa}
  {
    var low := v % 256;
    assert IsGrease(v) ==> v == 257 * low && low % 16 == 10;
    if IsGrease(v) {
      var k := low / 16;
      assert low == 16 * k + 10 && 0 <= k < 16;
    }
  }

  datatype Profile = Profile(
    hasGrease: bool, cipherCount: nat, offersH2: bool, hasSni: bool, primaryCiphers: seq<nat>)

  // ---- what the parser computes ----

  /** The cipher suites at `start`, and where the extensions length would stand. */
  datatype Prelude = Prelude(suites: seq<nat>, extensionsAt: nat)

  function SuitesAt(buf: seq<Byte>, start: nat, count: nat): (suites: seq<nat>)
    requires start + 2 * count <= |buf|
    ensures |suites| == count
  {
    seq(count, i requires 0 <= i < count => U16(buf, start + 2 * i))
  }

  function ReadPrelude(buf: seq<Byte>): (r: Option<Prelude>)
    ensures r.Some? ==> |buf| > 43
  {
    if |buf| <= 43 || buf[0] != HANDSHAKE || buf[5] != CLIENT_HELLO then None
    else
      var suitesAt := 44 + buf[43] as int;
      if |buf| < suitesAt + 2 then None
      else
        var suitesLen := U16(buf, suitesAt);
        var compressionAt := suitesAt + 2 + suitesLen;
        if |buf| <= compressionAt then None
        else Some(Prelude(SuitesAt(buf, suitesAt + 2, suitesLen / 2), compressionAt + 1 + buf[compressionAt] as int))
  }

  predicate HasH2(data: seq<Byte>) {
    exists i :: 0 <= i < |data| - 1 && data[i] == CHAR_H && data[i + 1] == CHAR_2
  }

  datatype Evidence = Evidence(grease: bool, sni: bool, h2: bool)

  const NO_EVIDENCE := Evidence(false, false, false)

  function Merge(a: Evidence, b: Evidence): Evidence {
    Evidence(a.grease || b.grease, a.sni || b.sni, a.h2 || b.h2)
  }

  /** What one extension shows; ALPN data is looked at only when it lies within the block. */
  function ExtensionEvidence(extType: nat, data: Option<seq<Byte>>): Evidence {
    Evidence(IsGrease(extType), extType == SNI, extType == ALPN && data.Some? && HasH2(data.value))
  }

  /** The extension loop from `idx` to `end`; a length may carry it past `end`, which stops it. */
  function Walk(buf: seq<Byte>, idx: nat, end: nat): Evidence
    requires end <= |buf|
    decreases end - idx
  {
    if idx + 4 > end then NO_EVIDENCE
    else
      var next := idx + 4 + U16(buf, idx + 2);
      var data := if next <= end then Some(buf[idx + 4..next]) else None;
      Merge(ExtensionEvidence(U16(buf, idx), data), Walk(buf, next, end))
  }

  function Min(a: nat, b: nat): nat { if a < b then a else b }

  function ExtensionsEvidence(buf: seq<Byte>, at: nat): Evidence {
    if at + 2 <= |buf| then Walk(buf, at + 2, Min(at + 2 + U16(buf, at), |buf|)) else NO_EVIDENCE
  }

  predicate AnyGrease(suites: seq<nat>) {
    exists i :: 0 <= i < |suites| && IsGrease(suites[i])
  }

  function NonGrease(suites: seq<nat>): seq<nat> {
    if suites == [] then []
    else
      var before, last := NonGrease(suites[..|suites| - 1]), suites[|suites| - 1];
      if IsGrease(last) then before else before + [last]
  }

  /** What is left without GREASE, list by list: the reserved values drop out, others stay in place. */
  lemma {:induction false} NonGreaseOfConcat(a: seq<nat>, b: seq<nat>)
    ensures NonGrease(a + b) == NonGrease(a) + NonGrease(b)
  {
    if b == [] {
      assert a + b == a;
    } else {
      assert (a + b)[..|a + b| - 1] == a + b[..|b| - 1];
      NonGreaseOfConcat(a, b[..|b| - 1]);
    }
  }

  lemma NonGreaseOfOne(v: nat)
    ensures NonGrease([v]) == if IsGrease(v) then [] else [v]
    ensures AnyGrease([v]) <==> IsGrease(v)
  {
    assert [v][..0] == [] && [v][0] == v;
  }

  lemma AnyGreaseOfConcat(a: seq<nat>, b: seq<nat>)
    ensures AnyGrease(a + b) <==> AnyGrease(a) || AnyGrease(b)
  {
    if AnyGrease(a) {
      var i :| 0 <= i < |a| && IsGrease(a[i]);
      assert (a + b)[i] == a[i];
    }
    if AnyGrease(b) {
      var i :| 0 <= i < |b| && IsGrease(b[i]);
      assert (a + b)[|a| + i] == b[i];
    }
  }

  lemma FirstThreeIsPrefix(s: seq<nat>)
    ensures FirstThree(s) <= s && (|FirstThree(s)| == 3 || FirstThree(s) == s) && |FirstThree(s)| <= 3
  {
  }

  function FirstThree(s: seq<nat>): seq<nat> {
    if |s| <= 3 then s else s[..3]
  }

  function ProfileOf(suites: seq<nat>, e: Evidence): Profile {
    Profile(AnyGrease(suites) || e.grease, |suites|, e.h2, e.sni, FirstThree(NonGrease(suites)))
  }

  function Parse(buf: seq<Byte>): Option<Profile> {
    match ReadPrelude(buf)
    case None => None
    case Some(p) => Some(ProfileOf(p.suites, ExtensionsEvidence(buf, p.extensionsAt)))
  }

  // ---- the parser ----

  method ScanSuites(buf: seq<Byte>, start: nat, len: nat) returns (hasGrease: bool, primary: seq<nat>)
    requires start + len <= |buf|
    ensures hasGrease == AnyGrease(SuitesAt(buf, start, len / 2))
    ensures primary == FirstThree(NonGrease(SuitesAt(buf, start, len / 2)))
  {
    hasGrease, primary := false, [];
    ghost var suites := SuitesAt(buf, start, len / 2);
    for i := 0 to len / 2
      invariant hasGrease == AnyGrease(suites[..i])
      invariant primary == FirstThree(NonGrease(suites[..i]))
    {
      var cipher := U16(buf, start + 2 * i);
      assert suites[..i + 1][..i] == suites[..i] && suites[..i + 1][i] == cipher;
      if IsGrease(cipher) {
        hasGrease := true;
      } else if |primary| < 3 {
        primary := primary + [cipher];
      }
    }
    assert suites[..len / 2] == suites;
  }

  method ContainsH2(data: seq<Byte>) returns (found: bool)
    ensures found == HasH2(data)
  {
    found := false;
    for i := 0 to |data|
      invariant found == HasH2(data[..i])
    {
      assert data[..i + 1][..i] == data[..i];
      if i > 0 && data[i - 1] == CHAR_H && data[i] == CHAR_2 {
        found := true;
        assert data[..i + 1][i - 1] == CHAR_H && data[..i + 1][i - 1 + 1] == CHAR_2;
      } else {
        WindowEndsAtLast(data[..i + 1]);
      }
    }
    assert data[..|data|] == data;
  }

  lemma WindowEndsAtLast(data: seq<Byte>)
    requires data != []
    requires !(|data| > 1 && data[|data| - 2] == CHAR_H && data[|data| - 1] == CHAR_2)
    ensures HasH2(data) == HasH2(data[..|data| - 1])
  {
    var shorter := data[..|data| - 1];
    if HasH2(data) {
      var i :| 0 <= i < |data| - 1 && data[i] == CHAR_H && data[i + 1] == CHAR_2;
      assert shorter[i] == CHAR_H && shorter[i + 1] == CHAR_2;
    }
    if HasH2(shorter) {
      var i :| 0 <= i < |shorter| - 1 && shorter[i] == CHAR_H && shorter[i + 1] == CHAR_2;
      assert data[i] == CHAR_H && data[i + 1] == CHAR_2;
    }
  }

  method ScanExtensions(buf: seq<Byte>, start: nat, extEnd: nat) returns (e: Evidence)
    requires extEnd <= |buf|
    ensures e == Walk(buf, start, extEnd)
  {
    var idx := start;
    var hasGrease, hasSni, offersH2 := false, false, false;
    while idx + 4 <= extEnd
      invariant Merge(Evidence(hasGrease, hasSni, offersH2), Walk(buf, idx, extEnd)) == Walk(buf, start, extEnd)
      decreases extEnd - idx
    {
      var extType, extLen := U16(buf, idx), U16(buf, idx + 2);
      idx := idx + 4;
      if IsGrease(extType) {
        hasGrease := true;
      }
      if extType == SNI {
        hasSni := true;
      } else if extType == ALPN {
        if idx + extLen <= extEnd {
          var found := ContainsH2(buf[idx..idx + extLen]);
          if found {
            offersH2 := true;
          }
        }
      }
      idx := idx + extLen;
    }
    e := Evidence(hasGrease, hasSni, offersH2);
  }

  /** Total on every byte string. */
  method ParseClientHello(buf: seq<Byte>) returns (r: Option<Profile>)
    ensures r == Parse(buf)
  {
    if |buf| < 43 {
      return None;
    }
    if buf[0] != HANDSHAKE {
      return None;
    }
    if buf[5] != CLIENT_HELLO {
      return None;
    }
    var idx := 43;
    if |buf| <= idx {
      return None;
    }
    idx := idx + 1 + buf[idx] as int;
    if |buf| < idx + 2 {
      return None;
    }
    var suitesLen := U16(buf, idx);
    idx := idx + 2;
    if |buf| < idx + suitesLen {
      return None;
    }
    var hasGrease, primary := ScanSuites(buf, idx, suitesLen);
    idx := idx + suitesLen;
    if |buf| <= idx {
      return None;
    }
    idx := idx + 1 + buf[idx] as int;
    var e := NO_EVIDENCE;
    if |buf| >= idx + 2 {
      var extensionsLen := U16(buf, idx);
      idx := idx + 2;
      e := ScanExtensions(buf, idx, Min(idx + extensionsLen, |buf|));
    }
    return Some(Profile(hasGrease || e.grease, suitesLen / 2, e.h2, e.sni, primary));
  }

  // ---- truncation and locality ----

  lemma PrefixReads(p: seq<Byte>, b: seq<Byte>, i: nat)
    requires p <= b && i + 2 <= |p|
    ensures U16(p, i) == U16(b, i)
  {
  }

  /** A successful prelude is read the same from any longer buffer. */
  lemma PreludeFromPrefix(p: seq<Byte>, b: seq<Byte>)
    requires p <= b && ReadPrelude(p).Some?
    ensures ReadPrelude(b) == ReadPrelude(p)
  {
    var suitesAt := 44 + p[43] as int;
    PrefixReads(p, b, suitesAt);
    var count := U16(p, suitesAt) / 2;
    assert SuitesAt(p, suitesAt + 2, count) == SuitesAt(b, suitesAt + 2, count);
  }

  predicate Implied(a: Evidence, b: Evidence) {
    (a.grease ==> b.grease) && (a.sni ==> b.sni) && (a.h2 ==> b.h2)
  }

  lemma {:induction false} WalkGains(p: seq<Byte>, b: seq<Byte>, idx: nat, end: nat, longerEnd: nat)
    requires p <= b && end <= |p| && end <= longerEnd <= |b|
    ensures Implied(Walk(p, idx, end), Walk(b, idx, longerEnd))
    ensures end == longerEnd ==> Walk(p, idx, end) == Walk(b, idx, longerEnd)
    decreases end - idx
  {
    if idx + 4 <= end {
      PrefixReads(p, b, idx);
      PrefixReads(p, b, idx + 2);
      var next := idx + 4 + U16(p, idx + 2);
      if next <= end {
        assert p[idx + 4..next] == b[idx + 4..next];
      }
      WalkGains(p, b, next, end, longerEnd);
    }
  }

  /** The longer buffer shows the same cipher list and at least the same evidence. */
  predicate Gains(x: Profile, y: Profile) {
    && x.cipherCount == y.cipherCount && x.primaryCiphers == y.primaryCiphers
    && (x.hasGrease ==> y.hasGrease) && (x.hasSni ==> y.hasSni) && (x.offersH2 ==> y.offersH2)
  }

  lemma EvidenceGains(p: seq<Byte>, b: seq<Byte>, at: nat)
    requires p <= b
    ensures Implied(ExtensionsEvidence(p, at), ExtensionsEvidence(b, at))
  {
    if at + 2 <= |p| {
      PrefixReads(p, b, at);
      var end := at + 2 + U16(p, at);
      WalkGains(p, b, at + 2, Min(end, |p|), Min(end, |b|));
    }
  }

  /** If a prefix of a buffer parses, the whole buffer parses, and evidence is only gained. */
  lemma TruncationMonotone(buf: seq<Byte>, n: nat)
    requires n <= |buf| && Parse(buf[..n]).Some?
    ensures Parse(buf).Some? && Gains(Parse(buf[..n]).value, Parse(buf).value)
  {
    var p := buf[..n];
    PreludeFromPrefix(p, buf);
    EvidenceGains(p, buf, ReadPrelude(p).value.extensionsAt);
  }

  /** The buffer holds the whole extensions block it announces. */
  predicate BlockComplete(buf: seq<Byte>) {
    ReadPrelude(buf).Some? &&
    var at := ReadPrelude(buf).value.extensionsAt;
    at + 2 <= |buf| && at + 2 + U16(buf, at) <= |buf|
  }

  /** Bytes after a complete extensions block never change the result. */
  lemma TrailingBytesIgnored(p: seq<Byte>, b: seq<Byte>)
    requires p <= b && BlockComplete(p)
    ensures Parse(b) == Parse(p)
  {
    PreludeFromPrefix(p, b);
    var at := ReadPrelude(p).value.extensionsAt;
    BlockEvidenceIsLocal(p, b, at);
  }

  lemma BlockEvidenceIsLocal(p: seq<Byte>, b: seq<Byte>, at: nat)
    requires p <= b && at + 2 <= |p| && at + 2 + U16(p, at) <= |p|
    ensures ExtensionsEvidence(b, at) == ExtensionsEvidence(p, at)
  {
    PrefixReads(p, b, at);
    var end := at + 2 + U16(p, at);
    WalkGains(p, b, at + 2, end, end);
  }

  // ---- the User-Agent check ----

  datatype Verdict = Coherent | LacksGrease | LacksHttp2

  predicate ClaimsChrome(ua: string) { HasSubstring(ua, "Chrome/") || HasSubstring(ua, "CriOS/") }

  predicate ClaimsSafari(ua: string) {
    HasSubstring(ua, "Safari/") && !HasSubstring(ua, "Chrome/") && HasSubstring(ua, "Version/")
  }

  predicate ClaimsEdge(ua: string) { HasSubstring(ua, "Edg/") || HasSubstring(ua, "Edge/") }

  predicate ClaimsSpider(ua: string) {
    || HasSubstring(ua, "Googlebot") || HasSubstring(ua, "bingbot")
    || HasSubstring(ua, "Baiduspider") || HasSubstring(ua, "YandexBot")
  }

  /** The text makes the check look for a browser's handshake. */
  predicate ClaimsBrowser(ua: string) {
    !ClaimsSpider(ua) && (ClaimsChrome(ua) || ClaimsEdge(ua) || ClaimsSafari(ua))
  }

  function VerifyUserAgent(p: Profile, userAgent: Option<string>): Verdict {
    if userAgent.None? then Coherent
    else
      var ua := Trim(userAgent.value);
      if ClaimsSpider(ua) then Coherent
      else if (ClaimsChrome(ua) || ClaimsEdge(ua) || ClaimsSafari(ua)) && !p.hasGrease then LacksGrease
      else if (ClaimsChrome(ua) || ClaimsEdge(ua)) && !p.offersH2 && p.cipherCount < 10 then LacksHttp2
      else Coherent
  }

  /** The verdicts in terms of the tokens that occur in the trimmed text. */
  lemma VerdictByTokens(p: Profile, userAgent: string)
    ensures var ua := Trim(userAgent);
      var spider := HasSubstring(ua, "Googlebot") || HasSubstring(ua, "bingbot")
                    || HasSubstring(ua, "Baiduspider") || HasSubstring(ua, "YandexBot");
      var chromium := HasSubstring(ua, "Chrome/") || HasSubstring(ua, "CriOS/")
                      || HasSubstring(ua, "Edg/") || HasSubstring(ua, "Edge/");
      var safari := HasSubstring(ua, "Safari/") && HasSubstring(ua, "Version/");
      && (VerifyUserAgent(p, Some(userAgent)) == LacksGrease <==> !spider && (chromium || safari) && !p.hasGrease)
      && (VerifyUserAgent(p, Some(userAgent)) == LacksHttp2
          <==> !spider && chromium && p.hasGrease && !p.offersH2 && p.cipherCount <= 9)
      && VerifyUserAgent(p, None) == Coherent
  {
  }

  lemma OccursInside(before: string, token: string, after: string)
    ensures HasSubstring(before + token + after, token)
  {
    assert OccursAt(before + token + after, token, |before|);
  }

  /** A client judged coherent on a truncated hello would be judged coherent on the whole of it. */
  lemma {:induction false} TruncationKeepsCoherence(buf: seq<Byte>, n: nat, userAgent: Option<string>)
    requires n <= |buf| && Parse(buf[..n]).Some?
    requires VerifyUserAgent(Parse(buf[..n]).value, userAgent) == Coherent
    ensures Parse(buf).Some? && VerifyUserAgent(Parse(buf).value, userAgent) == Coherent
  {
    TruncationMonotone(buf, n);
  }

  /** Where the shortest truncation that still parses ends: after the length of the compression methods. */
  function ShortestCut(b: seq<Byte>): (n: nat)
    requires ReadPrelude(b).Some?
    ensures n <= |b|
  {
    var suitesAt := 44 + b[43] as int;
    suitesAt + 2 + U16(b, suitesAt) + 1
  }

  /** The shortest cut shows all the suites and nothing of the extensions. */
  lemma ParseOfShortestCut(b: seq<Byte>)
    requires ReadPrelude(b).Some?
    ensures Parse(b[..ShortestCut(b)]) == Some(ProfileOf(ReadPrelude(b).value.suites, NO_EVIDENCE))
  {
    var cut := b[..ShortestCut(b)];
    var suitesAt := 44 + b[43] as int;
    PrefixReads(cut, b, suitesAt);
    var count := U16(b, suitesAt) / 2;
    assert SuitesAt(cut, suitesAt + 2, count) == SuitesAt(b, suitesAt + 2, count);
    assert ReadPrelude(cut) == ReadPrelude(b);
  }

  /** The cipher suites alone satisfy the check, whatever the extensions say. */
  predicate SuitesVouch(suites: seq<nat>, userAgent: Option<string>) {
    userAgent.Some? && ClaimsBrowser(Trim(userAgent.value)) ==>
      && AnyGrease(suites)
      && (ClaimsChrome(Trim(userAgent.value)) || ClaimsEdge(Trim(userAgent.value)) ==> |suites| >= 10)
  }

  /** Every truncation that still parses is judged coherent. */
  ghost predicate AllCutsCoherent(b: seq<Byte>, userAgent: Option<string>) {
    forall n :: 0 <= n <= |b| && Parse(b[..n]).Some? ==> VerifyUserAgent(Parse(b[..n]).value, userAgent) == Coherent
  }

  /**
   No truncation turns a client into a spoofed one exactly when the suites alone vouch for it: no
   browser is claimed, or the suites hold GREASE and, for Chrome and Edge, are at least ten.
   */
  lemma TruncationIsHarmlessExactlyWhenSuitesVouch(b: seq<Byte>, userAgent: Option<string>)
    requires ReadPrelude(b).Some?
    ensures AllCutsCoherent(b, userAgent) <==> SuitesVouch(ReadPrelude(b).value.suites, userAgent)
  {
    var suites := ReadPrelude(b).value.suites;
    ParseOfShortestCut(b);
    assert AllCutsCoherent(b, userAgent) ==> SuitesVouch(suites, userAgent);
    if SuitesVouch(suites, userAgent) {
      forall n | 0 <= n <= |b| && Parse(b[..n]).Some?
        ensures VerifyUserAgent(Parse(b[..n]).value, userAgent) == Coherent
      {
        PreludeFromPrefix(b[..n], b);
        assert Parse(b[..n]).value.hasGrease || !AnyGrease(suites);
        assert Parse(b[..n]).value.cipherCount == |suites|;
      }
    }
  }

  /** When the suites do not vouch, the shortest cut is judged spoofed, also for a hello that is coherent as a whole. */
  lemma ShortestCutIsSpoofed(b: seq<Byte>, ua: string)
    requires ReadPrelude(b).Some? && !SuitesVouch(ReadPrelude(b).value.suites, Some(ua))
    ensures var cut := Parse(b[..ShortestCut(b)]);
      cut.Some? && VerifyUserAgent(cut.value, Some(ua))
                   == if AnyGrease(ReadPrelude(b).value.suites) then LacksHttp2 else LacksGrease
  {
    ParseOfShortestCut(b);
  }
}
