/** Duration text on the command line, and the arithmetic from it to an expiry. */
module Durations {
  import opened Wrappers
  import opened Text
  import opened QuarantineTable
  import opened TargetResolution

  function UnitSecs(unit: char): Option<nat> {
    match unit
    case 's' => Some(1)
    case 'm' => Some(60)
    case 'h' => Some(3600)
    case 'd' => Some(86_400)
    case 'w' => Some(604_800)
    case _ => None
  }

  /** The product of the source, before it wraps. */
  function Seconds(n: nat, secs: nat): nat { n * secs }

  datatype DurationError = UnrecognizedFormat(text: string) | InvalidNumber(text: string)

  /** The duration of trimmed lower-case text; the product wraps as it does in release builds. */
  function ParseClean(s: string): (r: Result<nat, DurationError>)
    ensures r.Ok? ==> r.value < U64_LIMIT
  {
    if s == [] then Ok(DEFAULT_BAN_SECS)
    else if ParseU64(s).Some? then Ok(ParseU64(s).value)
    else
      match UnitSecs(s[|s| - 1])
      case None => Err(UnrecognizedFormat(s))
      case Some(secs) =>
        match ParseU64(s[..|s| - 1])
        case None => Err(InvalidNumber(s[..|s| - 1]))
        case Some(n) => Ok(WrapU64(Seconds(n, secs)))
  }

  /** `parse_duration_str`. */
  function ParseDuration(raw: string): (r: Result<nat, DurationError>)
    ensures r.Ok? ==> r.value < U64_LIMIT
  {
    ParseClean(AsciiLower(Trim(raw)))
  }

  lemma DigitsAreClean(s: string)
    requires s != [] && AllDigits(s)
    ensures AsciiLower(Trim(s)) == s
  {
    TrimOfClean(s);
  }

  /** The ingest command prints the parsed seconds and parses them again: nothing is lost. */
  lemma ReparseOfParsed(raw: string)
    requires ParseDuration(raw).Ok?
    ensures ParseDuration(ShowNat(ParseDuration(raw).value)) == ParseDuration(raw)
  {
    var secs := ParseDuration(raw).value;
    DigitsAreClean(ShowNat(secs));
    ParseOfShow(secs);
  }

  lemma UnitTextIsNoNumber(n: nat, unit: char)
    requires UnitSecs(unit).Some?
    ensures ParseU64(ShowNat(n) + [unit]) == None
    ensures AsciiLower(Trim(ShowNat(n) + [unit])) == ShowNat(n) + [unit]
  {
    var s := ShowNat(n) + [unit];
    assert !IsDigit(unit) && s[|s| - 1] == unit && IsDigit(s[0]);
    TrimOfClean(s);
  }

  lemma WrapIsIdentity(x: nat)
    ensures WrapU64(x) == x <==> x < U64_LIMIT
  {
  }

  lemma UnitTextParses(n: nat, unit: char, secs: nat, product: nat)
    requires n < U64_LIMIT && UnitSecs(unit) == Some(secs) && product == n * secs
    ensures ParseDuration(ShowNat(n) + [unit]) == Ok(WrapU64(product))
  {
    UnitTextIsNoNumber(n, unit);
    var s := ShowNat(n) + [unit];
    assert s[..|s| - 1] == ShowNat(n);
    ParseOfShow(n);
  }

  /** A number with a unit means that many units modulo 2^64: exactly that many just when the product fits a `u64`. */
  lemma UnitTextValue(n: nat, unit: char, secs: nat)
    requires n < U64_LIMIT && UnitSecs(unit) == Some(secs)
    ensures ParseDuration(ShowNat(n) + [unit]) == Ok(WrapU64(n * secs))
    ensures WrapU64(n * secs) == n * secs <==> n * secs < U64_LIMIT
  {
    UnitTextParses(n, unit, secs, n * secs);
    WrapIsIdentity(n * secs);
  }

  /** The unit letters in seconds; no text at all is a day. */
  lemma UnitsInSeconds(c: char)
    ensures UnitSecs(c) ==
      if c == 's' then Some(1)
      else if c == 'm' then Some(60)
      else if c == 'h' then Some(60 * 60)
      else if c == 'd' then Some(24 * 60 * 60)
      else if c == 'w' then Some(7 * 24 * 60 * 60)
      else None
    ensures ParseDuration("") == Ok(24 * 60 * 60)
  {
  }

  /** Upper-case units mean the same. */
  lemma UnitCaseIgnored(n: nat, unit: char)
    requires UnitSecs(unit).Some?
    ensures ParseDuration(ShowNat(n) + [(unit as int - 32) as char]) == ParseDuration(ShowNat(n) + [unit])
  {
    var upper, lower := ShowNat(n) + [(unit as int - 32) as char], ShowNat(n) + [unit];
    assert IsDigit(ShowNat(n)[0]) && !IsWhitespace(unit) && !IsWhitespace((unit as int - 32) as char);
    TrimOfClean(upper);
    TrimOfClean(lower);
    assert AsciiLower(upper) == AsciiLower(lower);
  }

  /** White space around the text does not matter. */
  lemma PaddingIgnored(front: string, s: string, back: string)
    requires AllWhitespace(front) && AllWhitespace(back)
    requires s != [] ==> !IsWhitespace(s[0]) && !IsWhitespace(s[|s| - 1])
    ensures ParseDuration(front + s + back) == ParseDuration(s)
  {
    TrimStrips(front, s, back);
    TrimOfClean(s);
  }

  /** A number with an unknown unit is unrecognised; a unit behind what is no number is an invalid number. */
  lemma DurationErrors(n: nat, c: char, unit: char)
    requires UnitSecs(c) == None && !IsDigit(c) && !IsWhitespace(c) && !('A' <= c <= 'Z')
    requires UnitSecs(unit).Some?
    ensures ParseDuration(ShowNat(n) + [c]) == Err(UnrecognizedFormat(ShowNat(n) + [c]))
    ensures ParseDuration(['x', unit]) == Err(InvalidNumber("x"))
  {
    var odd, bad := ShowNat(n) + [c], ['x', unit];
    TrimOfClean(odd);
    TrimOfClean(bad);
    assert AsciiLower(odd) == odd && AsciiLower(bad) == bad;
    assert odd[|odd| - 1] == c && odd[0] != '+' && !AllDigits(odd);
    assert bad[..1] == "x" && !IsDigit(bad[0]);
  }

  /** From text to expiry no arithmetic is lost while the true expiry is below 2^63. */
  lemma TextToExpiryIsExact(now: nat, n: nat, unit: char, secs: nat)
    requires UnitSecs(unit) == Some(secs) && now + n * secs * 1000 < SQLITE_LIMIT
    ensures ParseDuration(ShowNat(n) + [unit]) == Ok(n * secs)
    ensures ExpiresAt(now, n * secs) == now + n * secs * 1000
  {
    assert secs >= 1;
    assert n <= n * secs;
    UnitTextParses(n, unit, secs, n * secs);
    WrapIsIdentity(n * secs);
    ExpiryIsExact(now, n * secs);
  }
}

/** Log ingestion: which tokens become targets, how they are cut into batches, and what gets banned. */
module Ingest {
  import opened Wrappers
  import opened Text
  import opened Networks
  import opened QuarantineTable
  import opened QuarantineDb
  import opened Enforcement
  import opened TargetResolution
  import opened QuarantineDaemon

  const CHUNK: nat := 500

  // ---- exclusion ----

  /** One entry of the exclude list covers the address. */
  predicate Covers(codec: Codec, entry: string, a: Addr) {
    var ex := Trim(entry);
    if ex == [] then false
    else if codec.parseNet(ex).Some? then Contains(codec.parseNet(ex).value, a)
    else codec.parseAddr(ex) == Some(a)
  }

  predicate Excluded(codec: Codec, a: Addr, excludes: seq<string>) {
    exists i :: 0 <= i < |excludes| && Covers(codec, excludes[i], a)
  }

  /** An address entry covers that address, a network entry its range, blank text nothing. */
  lemma CoversExactly(codec: Codec, entry: string, a: Addr)
    requires Lawful(codec)
    ensures codec.parseAddr(entry).Some? ==> (Covers(codec, entry, a) <==> codec.parseAddr(entry).value == a)
    ensures codec.parseNet(entry).Some? ==> (Covers(codec, entry, a) <==> Contains(codec.parseNet(entry).value, a))
    ensures Covers(codec, entry, a) <==> Covers(codec, Trim(entry), a)
    ensures AllWhitespace(entry) ==> !Covers(codec, entry, a)
  {
    if AllWhitespace(entry) {
      TrimStrips(entry, [], []);
      assert entry + [] + [] == entry;
    }
    TrimTwice(entry);
  }

  method IsExcluded(codec: Codec, a: Addr, excludes: seq<string>) returns (r: bool)
    ensures r == Excluded(codec, a, excludes)
  {
    for i := 0 to |excludes|
      invariant forall j :: 0 <= j < i ==> !Covers(codec, excludes[j], a)
    {
      var ex := Trim(excludes[i]);
      if ex == [] {
        continue;
      }
      var net := codec.parseNet(ex);
      if net.Some? {
        if Contains(net.value, a) {
          assert Covers(codec, excludes[i], a);
          return true;
        }
      } else {
        var addr := codec.parseAddr(ex);
        if addr == Some(a) {
          assert Covers(codec, excludes[i], a);
          return true;
        }
      }
    }
    return false;
  }

  // ---- target collection ----

  /** A token is a target when its address, or the address part of its network, is not excluded. */
  predicate Eligible(codec: Codec, token: string, excludes: seq<string>) {
    match codec.parseAddr(token)
    case Some(a) => !Excluded(codec, a, excludes)
    case None =>
      match codec.parseNet(token)
      case Some(n) => !Excluded(codec, n.addr, excludes)
      case None => false
  }

  method IsEligible(codec: Codec, token: string, excludes: seq<string>) returns (r: bool)
    ensures r == Eligible(codec, token, excludes)
  {
    var addr := codec.parseAddr(token);
    if addr.Some? {
      var excluded := IsExcluded(codec, addr.value, excludes);
      return !excluded;
    }
    var net := codec.parseNet(token);
    if net.Some? {
      var excluded := IsExcluded(codec, net.value.addr, excludes);
      return !excluded;
    }
    return false;
  }

  method CollectTargets(codec: Codec, tokens: seq<string>, excludes: seq<string>) returns (targets: set<string>)
    ensures targets == set t | t in tokens && Eligible(codec, t, excludes)
  {
    targets := {};
    for i := 0 to |tokens|
      invariant targets == set t | t in tokens[..i] && Eligible(codec, t, excludes)
    {
      assert tokens[..i + 1] == tokens[..i] + [tokens[i]];
      var eligible := IsEligible(codec, tokens[i], excludes);
      if eligible {
        targets := targets + {tokens[i]};
      }
    }
    assert tokens[..|tokens|] == tokens;
  }

  // ---- batches ----

  /** `slice::chunks`. */
  function Chunks<T>(s: seq<T>, size: nat): seq<seq<T>>
    requires size > 0
  {
    if s == [] then []
    else if |s| <= size then [s]
    else [s[..size]] + Chunks(s[size..], size)
  }

  function Flatten<T>(parts: seq<seq<T>>): seq<T> {
    if parts == [] then [] else parts[0] + Flatten(parts[1..])
  }

  /** The chunks laid end to end are the list, none is empty, and none but the last is short. */
  lemma {:induction false} ChunksCoverOnce<T>(s: seq<T>, size: nat)
    requires size > 0
    ensures Flatten(Chunks(s, size)) == s
    ensures forall i :: 0 <= i < |Chunks(s, size)| ==> 0 < |Chunks(s, size)[i]| <= size
    ensures forall i :: 0 <= i < |Chunks(s, size)| - 1 ==> |Chunks(s, size)[i]| == size
  {
    if |s| > size {
      ChunksCoverOnce(s[size..], size);
      var rest := Chunks(s[size..], size);
      assert Chunks(s, size)[1..] == rest;
      assert s == s[..size] + s[size..];
    }
  }

  lemma {:induction false} FlattenSnoc<T>(parts: seq<seq<T>>, last: seq<T>)
    ensures Flatten(parts + [last]) == Flatten(parts) + last
  {
    if parts == [] {
      assert parts + [last] == [last] && [last][1..] == [];
    } else {
      assert (parts + [last])[1..] == parts[1..] + [last];
      FlattenSnoc(parts[1..], last);
    }
  }

  lemma {:induction false} BanEventsAppend(codec: Codec, a: seq<string>, b: seq<string>, order: BanOrder)
    ensures BanEvents(codec, a + b, order) == BanEvents(codec, a, order) + BanEvents(codec, b, order)
  {
    if b == [] {
      assert a + b == a;
    } else {
      assert (a + b)[..|a + b| - 1] == a + b[..|b| - 1];
      BanEventsAppend(codec, a, b[..|b| - 1], order);
      Regroup(BanEvents(codec, a, order), BanEvents(codec, b[..|b| - 1], order),
              TargetEvents(codec, b[|b| - 1], order));
    }
  }

  /**
   Ingestion against the database of a stopped daemon. The targets are listed in some order, each
   once, and the batches together ban exactly that list.
   */
  method IngestOffline(codec: Codec, store: QuarantineStore, tokens: seq<string>, excludes: seq<string>,
                       order: BanOrder)
    returns (ok: bool, ghost listed: seq<string>)
    requires order.now < SQLITE_LIMIT
    modifies store
    ensures Lists(listed, set t | t in tokens && Eligible(codec, t, excludes))
    ensures store.State() == RunTable(old(store.State()), BanEvents(codec, listed, order))
    ensures ok <==> BanEvents(codec, listed, order) == [] || order.expiresAt < SQLITE_LIMIT
  {
    var targets := CollectTargets(codec, tokens, excludes);
    var list := QuarantineStore.Select(targets);
    listed := list;
    if list == [] {
      return true, listed;
    }
    ok := BanChunks(codec, store, Chunks(list, CHUNK), order);
    ChunksCoverOnce(list, CHUNK);
  }

  method BanChunks(codec: Codec, store: QuarantineStore, chunks: seq<seq<string>>, order: BanOrder) returns (ok: bool)
    requires order.now < SQLITE_LIMIT
    modifies store
    ensures store.State() == RunTable(old(store.State()), BanEvents(codec, Flatten(chunks), order))
    ensures ok <==> BanEvents(codec, Flatten(chunks), order) == [] || order.expiresAt < SQLITE_LIMIT
  {
    ghost var start := store.State();
    for i := 0 to |chunks|
      invariant store.State() == RunTable(start, BanEvents(codec, Flatten(chunks[..i]), order))
      invariant BanEvents(codec, Flatten(chunks[..i]), order) == [] || order.expiresAt < SQLITE_LIMIT
    {
      FlattenStep(chunks, i);
      BanEventsAppend(codec, Flatten(chunks[..i]), chunks[i], order);
      RunTableAppend(start, BanEvents(codec, Flatten(chunks[..i]), order), BanEvents(codec, chunks[i], order));
      var banned := ExecCliBanOffline(codec, store, chunks[i], order);
      if banned.Err? {
        FlattenSplit(chunks, i + 1);
        BanEventsAppend(codec, Flatten(chunks[..i + 1]), Flatten(chunks[i + 1..]), order);
        AllUnfitting(start, BanEvents(codec, Flatten(chunks), order));
        AllUnfitting(start, BanEvents(codec, Flatten(chunks[..i + 1]), order));
        return false;
      }
    }
    assert chunks[..|chunks|] == chunks;
    return true;
  }

  lemma FlattenStep<T>(parts: seq<seq<T>>, i: nat)
    requires i < |parts|
    ensures Flatten(parts[..i + 1]) == Flatten(parts[..i]) + parts[i]
  {
    assert parts[..i + 1] == parts[..i] + [parts[i]];
    FlattenSnoc(parts[..i], parts[i]);
  }

  lemma {:induction false} FlattenSplit<T>(parts: seq<seq<T>>, k: nat)
    requires k <= |parts|
    ensures Flatten(parts) == Flatten(parts[..k]) + Flatten(parts[k..])
  {
    if k == 0 {
      assert parts[..0] == [] && parts[0..] == parts;
    } else {
      assert parts[..k][1..] == parts[1..][..k - 1] && parts[1..][k - 1..] == parts[k..];
      FlattenSplit(parts[1..], k - 1);
    }
  }

  // ---- what exclusion protects ----

  /** Some ban of the list covers the address. */
  predicate Bans(es: seq<Event>, a: Addr) {
    exists i :: 0 <= i < |es| && es[i].BanNet? && Contains(es[i].net, a)
  }

  lemma BansOfConcat(x: seq<Event>, y: seq<Event>, a: Addr)
    ensures Bans(x + y, a) <==> Bans(x, a) || Bans(y, a)
  {
    if Bans(x, a) {
      var i :| 0 <= i < |x| && x[i].BanNet? && Contains(x[i].net, a);
      assert (x + y)[i] == x[i];
    }
    if Bans(y, a) {
      var i :| 0 <= i < |y| && y[i].BanNet? && Contains(y[i].net, a);
      assert (x + y)[|x| + i] == y[i];
    }
  }

  /** The steps of all targets, `f` giving those of one. */
  function Steps(f: string -> seq<Event>, listed: seq<string>): seq<Event> {
    if listed == [] then [] else Steps(f, listed[..|listed| - 1]) + f(listed[|listed| - 1])
  }

  predicate SomeBans(f: string -> seq<Event>, listed: seq<string>, a: Addr) {
    exists k :: 0 <= k < |listed| && Bans(f(listed[k]), a)
  }

  lemma {:induction false} BansOfSteps(f: string -> seq<Event>, listed: seq<string>, a: Addr)
    ensures Bans(Steps(f, listed), a) <==> SomeBans(f, listed, a)
  {
    if listed != [] {
      var init, last := listed[..|listed| - 1], listed[|listed| - 1];
      BansOfSteps(f, init, a);
      BansOfConcat(Steps(f, init), f(last), a);
      assert forall k :: 0 <= k < |init| ==> listed[k] == init[k];
      assert listed[|init|] == last;
    }
  }

  lemma {:induction false} BanEventsAreSteps(codec: Codec, f: string -> seq<Event>, listed: seq<string>,
                                             order: BanOrder)
    requires forall t {:trigger f(t)} :: f(t) == TargetEvents(codec, t, order)
    ensures BanEvents(codec, listed, order) == Steps(f, listed)
  {
    if listed != [] {
      BanEventsAreSteps(codec, f, listed[..|listed| - 1], order);
      assert f(listed[|listed| - 1]) == TargetEvents(codec, listed[|listed| - 1], order);
    }
  }

  /** The token is network text, and the network contains the address. */
  predicate NetworkAround(codec: Codec, token: string, a: Addr) {
    codec.parseNet(token).Some? && Contains(codec.parseNet(token).value, a)
  }

  /** The token is address text whose derived quarantine network contains the address. */
  predicate DerivedAround(codec: Codec, token: string, a: Addr) {
    && codec.parseAddr(token).Some? && codec.deriveCidr(token).Some?
    && codec.parseNet(codec.deriveCidr(token).value).Some?
    && Contains(codec.parseNet(codec.deriveCidr(token).value).value, a)
  }

  /** What one eligible token does to an excluded address, exactly. */
  lemma TokenBansExcluded(codec: Codec, token: string, excludes: seq<string>, order: BanOrder, a: Addr)
    requires Lawful(codec) && Eligible(codec, token, excludes) && Excluded(codec, a, excludes)
    ensures Bans(TargetEvents(codec, token, order), a)
       <==> NetworkAround(codec, token, a) || (!order.exact && DerivedAround(codec, token, a))
  {
    assert Trim(token) == token && token != [];
    var es := TargetEvents(codec, token, order);
    if codec.parseNet(token).Some? {
      assert es[0].net == codec.parseNet(token).value;
    } else if order.exact {
      assert es[0].net == HostNet(codec.parseAddr(token).value);
      HostNetContainsOnlyItself(codec.parseAddr(token).value, a);
    } else if es != [] {
      assert es[0].net == codec.parseNet(codec.deriveCidr(token).value).value;
    }
  }

  /**
   An ingestion bans an excluded address exactly when some eligible token is a network around it
   or, without `exact`, an address whose derived network is. With `exact` and addresses only, never.
   */
  lemma IngestBansExcludedExactly(codec: Codec, tokens: seq<string>, listed: seq<string>, excludes: seq<string>,
                                  order: BanOrder, a: Addr)
    requires Lawful(codec) && Excluded(codec, a, excludes)
    requires Lists(listed, set t | t in tokens && Eligible(codec, t, excludes))
    ensures Bans(BanEvents(codec, listed, order), a)
       <==> exists t :: t in tokens && Eligible(codec, t, excludes)
                        && (NetworkAround(codec, t, a) || (!order.exact && DerivedAround(codec, t, a)))
  {
    var f := t => TargetEvents(codec, t, order);
    BanEventsAreSteps(codec, f, listed, order);
    BansOfSteps(f, listed, a);
    forall t | t in tokens && Eligible(codec, t, excludes)
      ensures Bans(TargetEvents(codec, t, order), a)
         <==> NetworkAround(codec, t, a) || (!order.exact && DerivedAround(codec, t, a))
    {
      TokenBansExcluded(codec, t, excludes, order, a);
    }
    forall k | 0 <= k < |listed|
      ensures listed[k] in tokens && Eligible(codec, listed[k], excludes)
    {
      assert listed[k] in listed;
    }
    if t :| t in tokens && Eligible(codec, t, excludes) && Bans(TargetEvents(codec, t, order), a) {
      assert t in listed;
      var k :| 0 <= k < |listed| && listed[k] == t;
    }
  }

  /** The batches of an ingestion have five hundred targets, the last one perhaps fewer. */
  lemma BatchSize(list: seq<string>)
    ensures forall i :: 0 <= i < |Chunks(list, CHUNK)| ==> |Chunks(list, CHUNK)[i]| <= 500
    ensures forall i :: 0 <= i < |Chunks(list, CHUNK)| - 1 ==> |Chunks(list, CHUNK)[i]| == 500
  {
    ChunksCoverOnce(list, CHUNK);
  }

  /** The address a token is tested by. */
  function TestedAddress(codec: Codec, token: string): Option<Addr> {
    match codec.parseAddr(token)
    case Some(a) => Some(a)
    case None =>
      match codec.parseNet(token)
      case Some(n) => Some(n.addr)
      case None => None
  }

  /** Eligible are exactly the tokens with such an address that no entry covers. */
  lemma EligibleExactly(codec: Codec, token: string, excludes: seq<string>)
    ensures Eligible(codec, token, excludes) <==>
      && TestedAddress(codec, token).Some?
      && forall i :: 0 <= i < |excludes| ==> !Covers(codec, excludes[i], TestedAddress(codec, token).value)
  {
  }

  /** Failing inputs: any such token bans an address that is excluded by name, unless the token is that address. */
  lemma ExcludedByNameStillBanned(codec: Codec, token: string, order: BanOrder, a: Addr)
    requires Lawful(codec) && TestedAddress(codec, token).Some? && TestedAddress(codec, token).value != a
    requires NetworkAround(codec, token, a) || (!order.exact && DerivedAround(codec, token, a))
    ensures var excludes := [codec.showNet(HostNet(a))];
      Excluded(codec, a, excludes) && Eligible(codec, token, excludes) && Bans(TargetEvents(codec, token, order), a)
  {
    var entry := codec.showNet(HostNet(a));
    assert codec.parseNet(entry) == Some(HostNet(a)) && Trim(entry) == entry;
    HostNetContainsOnlyItself(a, a);
    HostNetContainsOnlyItself(a, TestedAddress(codec, token).value);
    assert Covers(codec, [entry][0], a);
    TokenBansExcluded(codec, token, [entry], order, a);
  }
}
