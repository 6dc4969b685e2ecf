/** The redaction of sensitive query parameters. */
module QueryRedaction {
  import opened Text

  const SENSITIVE_KEYS: seq<string> := ["token", "key", "secret", "password", "auth", "code", "pin", "jwt"]
  const REDACTED := "=[REDACTED]"

  /** The text in front of the first `=`, or all of it. */
  function KeyPart(pair: string): (k: string)
    ensures '=' !in k
  {
    if pair == [] || pair[0] == '=' then [] else [pair[0]] + KeyPart(pair[1..])
  }

  predicate SensitiveKey(key: string) {
    exists i :: 0 <= i < |SENSITIVE_KEYS| && HasSubstring(AsciiLower(key), SENSITIVE_KEYS[i])
  }

  /** The segment carries a value that has to be hidden. */
  predicate Secret(pair: string) {
    '=' in pair && SensitiveKey(KeyPart(pair))
  }

  function Redact(pair: string): string {
    if Secret(pair) then KeyPart(pair) + REDACTED else pair
  }

  function Segments(query: string): seq<string> { Split(query, '&') }

  function SanitizeQueryString(raw: string): string {
    if raw == [] then [] else Join(MapText(Redact, Segments(raw)), '&')
  }

  // ---- the sensitive words ----

  /** A key is sensitive exactly when one of eight words occurs in it, in any case. */
  lemma SensitiveExactly(key: string)
    ensures var k := AsciiLower(key);
      SensitiveKey(key) <==>
        || HasSubstring(k, "token") || HasSubstring(k, "key") || HasSubstring(k, "secret")
        || HasSubstring(k, "password")
        || HasSubstring(k, "auth") || HasSubstring(k, "code") || HasSubstring(k, "pin") || HasSubstring(k, "jwt")
  {
    var k := AsciiLower(key);
    assert SENSITIVE_KEYS[0] == "token" && SENSITIVE_KEYS[1] == "key" && SENSITIVE_KEYS[2] == "secret"
        && SENSITIVE_KEYS[3] == "password" && SENSITIVE_KEYS[4] == "auth" && SENSITIVE_KEYS[5] == "code"
        && SENSITIVE_KEYS[6] == "pin" && SENSITIVE_KEYS[7] == "jwt";
  }

  /** A keyed value is replaced exactly when its key is sensitive; a segment without `=` is left alone. */
  lemma RedactExactly(key: string, value: string)
    requires '=' !in key
    ensures Redact(key + ['='] + value)
         == if SensitiveKey(key) then key + "=[REDACTED]" else key + ['='] + value
    ensures Redact(key) == key
  {
    KeyOfKeyed(key, value);
    assert (key + ['='] + value)[|key|] == '=';
  }

  // ---- one segment ----

  lemma {:induction false} KeyOfKeyed(key: string, rest: string)
    requires '=' !in key
    ensures KeyPart(key + ['='] + rest) == key
  {
    var pair := key + ['='] + rest;
    if key != [] {
      assert pair[1..] == key[1..] + ['='] + rest;
      KeyOfKeyed(key[1..], rest);
      assert [key[0]] + key[1..] == key;
    }
  }

  lemma {:induction false} KeyPartHasOnlyItsCharacters(pair: string, c: char)
    requires c !in pair
    ensures c !in KeyPart(pair)
  {
    if pair != [] && pair[0] != '=' {
      KeyPartHasOnlyItsCharacters(pair[1..], c);
    }
  }

  lemma RedactedText(c: char)
    requires c == '&' || c == '='
    ensures c in REDACTED <==> c == '='
  {
    assert REDACTED[0] == '=';
  }

  /** Redaction keeps the key, keeps a secret segment secret, and is idempotent. */
  lemma RedactKeepsKey(pair: string)
    ensures KeyPart(Redact(pair)) == KeyPart(pair)
    ensures Secret(Redact(pair)) == Secret(pair)
    ensures Redact(Redact(pair)) == Redact(pair)
  {
    if Secret(pair) {
      var tail := REDACTED[1..];
      var out := KeyPart(pair) + REDACTED;
      assert REDACTED == ['='] + tail;
      assert out == KeyPart(pair) + ['='] + tail;
      KeyOfKeyed(KeyPart(pair), tail);
      assert out[|KeyPart(pair)|] == '=';
    }
  }

  lemma RedactAddsNoSeparator(pair: string)
    requires '&' !in pair
    ensures '&' !in Redact(pair)
  {
    KeyPartHasOnlyItsCharacters(pair, '&');
    RedactedText('&');
  }

  // ---- the whole query ----

  /** Sanitising maps the segments one by one: same number, same order. */
  lemma SegmentsOfSanitized(raw: string)
    ensures Segments(SanitizeQueryString(raw)) == MapText(Redact, Segments(raw))
  {
    var parts := MapText(Redact, Segments(raw));
    SplitPartsHaveNoSeparator(raw, '&');
    forall i | 0 <= i < |parts|
      ensures '&' !in parts[i]
    {
      MapByIndex(Redact, Segments(raw), i);
      RedactAddsNoSeparator(Segments(raw)[i]);
    }
    SplitOfJoin(parts, '&');
    if raw == [] {
      assert Segments(raw) == [[]] && [[]][0] == raw;
      assert !Secret(raw);
      assert MapText(Redact, Segments(raw)) == [raw] by {
        MapByIndex(Redact, Segments(raw), 0);
      }
    }
  }

  /** Every segment keeps its key; a segment that is not secret is kept whole. */
  lemma SegmentwiseEffect(raw: string, i: nat)
    requires i < |Segments(raw)|
    ensures |Segments(SanitizeQueryString(raw))| == |Segments(raw)|
    ensures var before, after := Segments(raw)[i], Segments(SanitizeQueryString(raw))[i];
      && KeyPart(after) == KeyPart(before)
      && after == if Secret(before) then KeyPart(before) + REDACTED else before
  {
    SegmentsOfSanitized(raw);
    MapByIndex(Redact, Segments(raw), i);
    RedactKeepsKey(Segments(raw)[i]);
  }

  lemma SanitizeIdempotent(raw: string)
    ensures SanitizeQueryString(SanitizeQueryString(raw)) == SanitizeQueryString(raw)
  {
    var once := SanitizeQueryString(raw);
    SegmentsOfSanitized(raw);
    SegmentsOfSanitized(once);
    forall i | 0 <= i < |Segments(once)|
      ensures MapText(Redact, Segments(once))[i] == Segments(once)[i]
    {
      MapByIndex(Redact, Segments(once), i);
      MapByIndex(Redact, Segments(raw), i);
      RedactKeepsKey(Segments(raw)[i]);
    }
    assert MapText(Redact, Segments(once)) == Segments(once);
    JoinOfSplit(once, '&');
  }

  /** The segments agree in everything but the values of secret ones. */
  predicate SameButSecrets(a: string, b: string) {
    && |Segments(a)| == |Segments(b)|
    && forall i :: 0 <= i < |Segments(a)| ==> SameButSecret(Segments(a)[i], Segments(b)[i])
  }

  predicate SameButSecret(p: string, q: string) {
    if Secret(p) then Secret(q) && KeyPart(p) == KeyPart(q) else p == q
  }

  lemma SameRedaction(p: string, q: string)
    ensures Redact(p) == Redact(q) <==> SameButSecret(p, q)
  {
    RedactKeepsKey(p);
    RedactKeepsKey(q);
  }

  /** Two queries sanitise alike exactly when they differ at most in secret values. */
  lemma SanitizedRevealsNoSecret(a: string, b: string)
    ensures SanitizeQueryString(a) == SanitizeQueryString(b) <==> SameButSecrets(a, b)
  {
    SegmentsOfSanitized(a);
    SegmentsOfSanitized(b);
    JoinOfSplit(SanitizeQueryString(a), '&');
    JoinOfSplit(SanitizeQueryString(b), '&');
    var x, y := MapText(Redact, Segments(a)), MapText(Redact, Segments(b));
    if |x| == |y| {
      forall i | 0 <= i < |x|
        ensures x[i] == y[i] <==> SameButSecret(Segments(a)[i], Segments(b)[i])
      {
        MapByIndex(Redact, Segments(a), i);
        MapByIndex(Redact, Segments(b), i);
        SameRedaction(Segments(a)[i], Segments(b)[i]);
      }
      assert x == y <==> SameButSecrets(a, b);
    }
    assert SanitizeQueryString(a) == Join(x, '&') && SanitizeQueryString(b) == Join(y, '&');
    assert Segments(SanitizeQueryString(a)) == x && Segments(SanitizeQueryString(b)) == y;
  }
}

/** The bounded telemetry buffer and what a query on it returns. */
module TelemetryRing {
  import opened Wrappers
  import opened Text

  datatype TelemetryRecord = TelemetryRecord(
    timestampMs: nat, clientIp: string, httpMethod: string, path: string, status: nat, durationUs: nat,
    upstreamTarget: Option<string>, threatTrapped: bool, threatCategory: Option<string>, userAgent: Option<string>)

  datatype TelemetryFilter = TelemetryFilter(
    clientIp: Option<string>, status: Option<nat>, threatsOnly: bool, pathContains: Option<string>, limit: nat)

  predicate Matches(f: TelemetryFilter, r: TelemetryRecord) {
    && (f.threatsOnly ==> r.threatTrapped)
    && (f.clientIp.Some? ==> r.clientIp == f.clientIp.value)
    && (f.status.Some? ==> r.status == f.status.value)
    && (f.pathContains.Some? ==> HasSubstring(r.path, f.pathContains.value))
  }

  const ANY := TelemetryFilter(None, None, false, None, 0)

  /** Each criterion by itself, and a filter as all of its criteria. */
  lemma MatchesExactly(f: TelemetryFilter, r: TelemetryRecord, ip: string, status: nat, part: string)
    ensures Matches(ANY, r)
    ensures Matches(ANY.(clientIp := Some(ip)), r) <==> r.clientIp == ip
    ensures Matches(ANY.(status := Some(status)), r) <==> r.status == status
    ensures Matches(ANY.(threatsOnly := true), r) <==> r.threatTrapped
    ensures Matches(ANY.(pathContains := Some(part)), r) <==> HasSubstring(r.path, part)
    ensures Matches(f, r) <==>
      && Matches(ANY.(clientIp := f.clientIp), r) && Matches(ANY.(status := f.status), r)
      && Matches(ANY.(threatsOnly := f.threatsOnly), r) && Matches(ANY.(pathContains := f.pathContains), r)
  {
  }

  const DEFAULT_LIMIT: nat := 50

  function Limit(f: TelemetryFilter): nat {
    if f.limit == 0 then DEFAULT_LIMIT else f.limit
  }

  // ---- the buffer as a view of its history ----

  datatype Event = Recorded(entry: TelemetryRecord) | Cleared

  /** Everything recorded since the latest clear, oldest first. */
  function SinceClear(history: seq<Event>): seq<TelemetryRecord> {
    if history == [] then []
    else match history[|history| - 1]
      case Cleared => []
      case Recorded(e) => SinceClear(history[..|history| - 1]) + [e]
  }

  function Latest<T>(s: seq<T>, n: nat): seq<T> {
    if |s| <= n then s else s[|s| - n..]
  }

  /** A buffer of capacity zero still keeps one entry: it makes room before it adds. */
  function Kept(capacity: nat): nat {
    if capacity == 0 then 1 else capacity
  }

  class TelemetryRingBuffer {
    const maxCapacity: nat
    var records: seq<TelemetryRecord>
    ghost var history: seq<Event>

    ghost predicate Valid()
      reads this
    {
      records == Latest(SinceClear(history), Kept(maxCapacity))
    }

    constructor (capacity: nat)
      ensures Valid() && history == [] && maxCapacity == capacity
    {
      maxCapacity := capacity;
      records := [];
      history := [];
    }

    method Record(entry: TelemetryRecord)
      requires Valid()
      modifies this
      ensures Valid() && history == old(history) + [Recorded(entry)]
      ensures var full := old(records) != [] && |old(records)| >= maxCapacity;
        records == (if full then old(records)[1..] else old(records)) + [entry]
      ensures |records| <= 1 || |records| <= maxCapacity
    {
      if |records| >= maxCapacity {
        if records != [] {
          records := records[1..];
        }
      }
      records := records + [entry];
      history := history + [Recorded(entry)];
      assert history[..|history| - 1] == old(history);
    }

    method Clear()
      requires Valid()
      modifies this
      ensures Valid() && history == old(history) + [Cleared] && records == []
    {
      records := [];
      history := history + [Cleared];
    }

    /** The filter and take of a query, from the newest end. */
    static method NewestMatches(entries: seq<TelemetryRecord>, f: TelemetryFilter, limit: nat)
      returns (found: seq<TelemetryRecord>)
      ensures found == Newest(r => Matches(f, r), entries, limit)
    {
      ghost var p := r => Matches(f, r);
      found := [];
      var i := |entries|;
      assert entries[..i] == entries;
      while i > 0 && |found| < limit
        invariant 0 <= i <= |entries| && |found| <= limit
        invariant Newest(p, entries, limit) == found + Newest(p, entries[..i], limit - |found|)
      {
        i := i - 1;
        assert entries[..i + 1][..i] == entries[..i];
        if Matches(f, entries[i]) {
          found := found + [entries[i]];
        }
      }
    }

    /** Matches of the retained entries, newest first, at most the limit. */
    method Query(f: TelemetryFilter) returns (found: seq<TelemetryRecord>)
      requires Valid()
      ensures var kept := Latest(SinceClear(history), if maxCapacity == 0 then 1 else maxCapacity);
        found == Newest(r => Matches(f, r), kept, if f.limit == 0 then 50 else f.limit)
    {
      found := NewestMatches(records, f, Limit(f));
    }
  }

  /** The first `limit` elements with the property, looking from the end. */
  function Newest<T>(p: T -> bool, s: seq<T>, limit: nat): (r: seq<T>)
    ensures |r| <= limit
  {
    if s == [] || limit == 0 then []
    else
      var last, init := s[|s| - 1], s[..|s| - 1];
      if p(last) then [last] + Newest(p, init, limit - 1) else Newest(p, init, limit)
  }

  /** The answers stand at these positions: newest first, all with the property. */
  ghost predicate Stands<T>(p: T -> bool, s: seq<T>, r: seq<T>, at: seq<nat>) {
    && |at| == |r|
    && (forall i :: 0 <= i < |at| ==> at[i] < |s| && r[i] == s[at[i]] && p(r[i]))
    && (forall i, j :: 0 <= i < j < |at| ==> at[i] > at[j])
  }

  /** The element at `k` is an answer, or the list is full and every answer is newer. */
  predicate Accounted<T>(r: seq<T>, at: seq<nat>, limit: nat, k: nat) {
    k in at || (|r| == limit && forall i :: 0 <= i < |at| ==> k < at[i])
  }

  lemma PushStands<T>(p: T -> bool, s: seq<T>, r: seq<T>, rest: seq<nat>)
    requires s != [] && p(s[|s| - 1]) && Stands(p, s[..|s| - 1], r, rest)
    ensures Stands(p, s, [s[|s| - 1]] + r, [|s| - 1] + rest)
  {
  }

  lemma PushAccounts<T>(r: seq<T>, last: T, rest: seq<nat>, top: nat, limit: nat, k: nat)
    requires limit > 0 && k <= top && |r| == |rest|
    requires k < top ==> Accounted(r, rest, limit - 1, k)
    ensures Accounted([last] + r, [top] + rest, limit, k)
  {
    var at := [top] + rest;
    if k == top {
      assert at[0] == k;
    } else if k in rest {
      assert k in at;
    }
  }

  /** A query misses no match newer than its oldest answer, and misses none at all below the limit. */
  lemma {:induction false} QueryIsNewestMatches<T>(p: T -> bool, s: seq<T>, limit: nat) returns (at: seq<nat>)
    ensures |Newest(p, s, limit)| <= limit && Stands(p, s, Newest(p, s, limit), at)
    ensures forall k :: 0 <= k < |s| && p(s[k]) ==> Accounted(Newest(p, s, limit), at, limit, k)
  {
    if s == [] || limit == 0 {
      at := [];
    } else if p(s[|s| - 1]) {
      var last, init := s[|s| - 1], s[..|s| - 1];
      var rest := QueryIsNewestMatches(p, init, limit - 1);
      at := [|s| - 1] + rest;
      PushStands(p, s, Newest(p, init, limit - 1), rest);
      forall k | 0 <= k < |s| && p(s[k])
        ensures Accounted(Newest(p, s, limit), at, limit, k)
      {
        assert k < |init| ==> init[k] == s[k];
        PushAccounts(Newest(p, init, limit - 1), last, rest, |s| - 1, limit, k);
      }
    } else {
      var init := s[..|s| - 1];
      at := QueryIsNewestMatches(p, init, limit);
      assert forall k :: 0 <= k < |init| ==> init[k] == s[k];
    }
  }
}
