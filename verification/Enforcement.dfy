/**
 Two tiers of enforcement: the in-memory ban table that answers every request, and the durable
 table that survives a restart.

 The in-memory table belongs to `phylax`. Its contract is an assumption of the model: `add_ban`
 inserts a network or overwrites its expiry, `unban` removes an exact network or every network
 around a bare address, `unban_all` clears, and an address is quarantined at a time when some
 network around it expires later.
 */
module Enforcement {
  import opened Wrappers
  import opened Networks
  import opened QuarantineTable
  import opened StoreHistory

  // ---- the in-memory contract ----

  function MemUnban(codec: Codec, mem: map<Net, nat>, target: string): map<Net, nat> {
    match codec.parseNet(target)
    case Some(n) => mem - {n}
    case None =>
      match codec.parseAddr(target)
      case Some(a) => map n | n in mem && !Contains(n, a) :: mem[n]
      case None => mem
  }

  ghost predicate MemQuarantines(mem: map<Net, nat>, ip: Addr, t: nat) {
    exists n :: n in mem && Contains(n, ip) && mem[n] > t
  }

  ghost predicate TableQuarantines(codec: Codec, rows: map<string, Record>, ip: Addr, t: nat) {
    exists c :: c in rows && rows[c].active && rows[c].expiresAt > t && KeyContains(codec, c, ip)
  }

  // ---- atomic steps over both tiers ----

  /** What the control socket writes into the audit log. */
  const LIVE_DETAILS := "Live IPC command"
  const LIVE_CLEAR_DETAILS := "Live IPC unban_all command"

  datatype Sys = Sys(mem: map<Net, nat>, table: Table)

  /** A command with several targets is one step per target; a restart loses memory and rehydrates. */
  datatype Event =
    | BanNet(net: Net, rec: Record)
    | UnbanTarget(target: string, details: string, now: nat, hits: seq<string>)
    | Clear(details: string, now: nat, hits: seq<string>)
    | Restart(now: nat)

  function Time(e: Event): nat {
    match e
    case BanNet(_, rec) => rec.quarantinedAt
    case UnbanTarget(_, _, now, _) => now
    case Clear(_, now, _) => now
    case Restart(now) => now
  }

  /** What the callers build: the record of a net carries its printed form and counts one infraction. */
  predicate RecordOfNet(codec: Codec, net: Net, rec: Record) {
    rec.cidr == codec.showNet(net) && rec.active && rec.infractionCount == 1
  }

  ghost predicate Possible(codec: Codec, t: Table, e: Event) {
    && Time(e) < SQLITE_LIMIT
    && match e
       case BanNet(net, rec) => RecordOfNet(codec, net, rec)
       case UnbanTarget(target, _, _, hits) => Lists(hits, Hits(codec, t.rows, target))
       case Clear(_, _, hits) => Lists(hits, ActiveKeys(t.rows))
       case Restart(_) => true
  }

  function NetsOf(codec: Codec, rows: map<string, Record>): set<Net> {
    set c | c in rows && codec.parseNet(c).Some? :: codec.parseNet(c).value
  }

  /** Memory after `rehydrate_with_timestamp` fills an empty table. */
  function Rehydrated(codec: Codec, rows: map<string, Record>, now: nat): map<Net, nat> {
    map n | n in NetsOf(codec, rows) && codec.showNet(n) in rows && Loadable(rows[codec.showNet(n)], now)
      :: rows[codec.showNet(n)].expiresAt
  }

  function StepTable(t: Table, e: Event): Table {
    match e
    case BanNet(_, rec) => if Fits(rec) then AfterBan(t, rec) else t
    case UnbanTarget(_, details, now, hits) => AfterUnban(t, hits, Unbanned, now, details)
    case Clear(details, now, hits) => AfterUnban(t, hits, UnbannedAll, now, details)
    case Restart(_) => t
  }

  function Step(codec: Codec, s: Sys, e: Event): Sys {
    var mem :=
      match e
      case BanNet(net, rec) => s.mem[net := rec.expiresAt]
      case UnbanTarget(target, _, _, _) => MemUnban(codec, s.mem, target)
      case Clear(_, _, _) => map[]
      case Restart(now) => Rehydrated(codec, s.table.rows, now);
    Sys(mem, StepTable(s.table, e))
  }

  function RunSys(codec: Codec, start: Sys, es: seq<Event>): Sys {
    if es == [] then start else Step(codec, RunSys(codec, start, es[..|es| - 1]), es[|es| - 1])
  }

  ghost predicate PossibleRun(codec: Codec, start: Sys, es: seq<Event>) {
    es != [] ==>
      && PossibleRun(codec, start, es[..|es| - 1])
      && Possible(codec, RunSys(codec, start, es[..|es| - 1]).table, es[|es| - 1])
  }

  function Max(a: nat, b: nat): nat { if a < b then b else a }

  function Clock(clock: nat, es: seq<Event>): nat {
    if es == [] then clock else Max(Clock(clock, es[..|es| - 1]), Time(es[|es| - 1]))
  }

  // ---- synchrony of the tiers ----

  function MemExpiry(mem: map<Net, nat>, n: Net): nat {
    if n in mem then mem[n] else 0
  }

  function RowExpiry(codec: Codec, rows: map<string, Record>, n: Net): nat {
    var c := codec.showNet(n);
    if c in rows && rows[c].active then rows[c].expiresAt else 0
  }

  predicate SameFrom(a: nat, b: nat, clock: nat) {
    a == b || (a <= clock && b <= clock)
  }

  /** For every network both tiers give the same expiry, expiries up to `clock` counting as none. */
  ghost predicate InSync(codec: Codec, s: Sys, clock: nat) {
    forall n: Net :: SameFrom(MemExpiry(s.mem, n), RowExpiry(codec, s.table.rows, n), clock)
  }

  /** Rows as the modelled paths leave them: printed keys, storable expiries, counts the log accounts for. */
  ghost predicate WellKept(codec: Codec, t: Table) {
    && CanonicalKeys(codec, t.rows)
    && (forall c :: c in t.rows ==> t.rows[c].expiresAt < SQLITE_LIMIT)
    && (forall c :: c in t.rows ==> t.rows[c].infractionCount <= CountBans(t.log, c))
  }

  /** Both tiers give the same answer for every address at every time from `clock` on. */
  ghost predicate Agree(codec: Codec, s: Sys, clock: nat) {
    forall ip: Addr, t: nat :: t >= clock ==>
      (MemQuarantines(s.mem, ip, t) <==> TableQuarantines(codec, s.table.rows, ip, t))
  }

  lemma SyncGivesAgreement(codec: Codec, s: Sys, clock: nat)
    requires Lawful(codec) && CanonicalKeys(codec, s.table.rows)
    requires InSync(codec, s, clock)
    ensures Agree(codec, s, clock)
  {
    var rows := s.table.rows;
    forall ip: Addr, t: nat | t >= clock
      ensures MemQuarantines(s.mem, ip, t) <==> TableQuarantines(codec, rows, ip, t)
    {
      if MemQuarantines(s.mem, ip, t) {
        var n :| n in s.mem && Contains(n, ip) && s.mem[n] > t;
        assert SameFrom(MemExpiry(s.mem, n), RowExpiry(codec, rows, n), clock);
        ShownIsCanonical(codec, n);
        assert KeyContains(codec, codec.showNet(n), ip);
      }
      if TableQuarantines(codec, rows, ip, t) {
        var c :| c in rows && rows[c].active && rows[c].expiresAt > t && KeyContains(codec, c, ip);
        assert Canonical(codec, c);
        var n := codec.parseNet(c).value;
        assert SameFrom(MemExpiry(s.mem, n), RowExpiry(codec, rows, n), clock);
      }
    }
  }

  // ---- which steps keep the tiers together, exactly ----

  /**
   A live ban writes memory first and ignores a failed store write. The tiers still agree
   afterwards exactly when the expiry fits a SQLite integer or has already passed.
   */
  lemma BanKeepsAgreementExactlyWhenItFits(codec: Codec, s: Sys, net: Net, rec: Record, clock: nat)
    requires Lawful(codec) && WellKept(codec, s.table) && InSync(codec, s, clock)
    requires Possible(codec, s.table, BanNet(net, rec)) && rec.quarantinedAt <= clock
    ensures Agree(codec, Step(codec, s, BanNet(net, rec)), clock)
       <==> rec.expiresAt < SQLITE_LIMIT || rec.expiresAt <= clock
  {
    var s' := Step(codec, s, BanNet(net, rec));
    if rec.expiresAt < SQLITE_LIMIT || rec.expiresAt <= clock {
      BanKeepsSync(codec, s, net, rec, clock);
      assert CanonicalKeys(codec, s'.table.rows) by { ShownIsCanonical(codec, net); }
      SyncGivesAgreement(codec, s', clock);
    } else {
      var t := rec.expiresAt - 1;
      assert net in s'.mem && Contains(net, net.addr) && s'.mem[net] > t;
      assert MemQuarantines(s'.mem, net.addr, t);
      assert !TableQuarantines(codec, s'.table.rows, net.addr, t);
    }
  }

  lemma BanKeepsSync(codec: Codec, s: Sys, net: Net, rec: Record, clock: nat)
    requires Lawful(codec) && WellKept(codec, s.table) && InSync(codec, s, clock)
    requires Possible(codec, s.table, BanNet(net, rec))
    requires rec.expiresAt < SQLITE_LIMIT || rec.expiresAt <= clock
    ensures InSync(codec, Step(codec, s, BanNet(net, rec)), clock)
  {
    var s' := Step(codec, s, BanNet(net, rec));
    forall n: Net
      ensures SameFrom(MemExpiry(s'.mem, n), RowExpiry(codec, s'.table.rows, n), clock)
    {
      assert SameFrom(MemExpiry(s.mem, n), RowExpiry(codec, s.table.rows, n), clock);
      assert codec.parseNet(codec.showNet(n)) == Some(n) && codec.parseNet(codec.showNet(net)) == Some(net);
    }
  }

  /** The target names a network in a spelling other than its printed form. */
  predicate Misspelt(codec: Codec, target: string) {
    codec.parseNet(target).Some? && codec.showNet(codec.parseNet(target).value) != target
  }

  /** What one unban does to the expiry each tier gives a network. */
  lemma UnbanExpiries(codec: Codec, s: Sys, e: Event, n: Net)
    requires Lawful(codec) && CanonicalKeys(codec, s.table.rows)
    requires e.UnbanTarget? && Possible(codec, s.table, e)
    ensures var s' := Step(codec, s, e);
      && MemExpiry(s'.mem, n) == (if Removes(codec, e.target, n) then 0 else MemExpiry(s.mem, n))
      && RowExpiry(codec, s'.table.rows, n)
         == (if Removes(codec, e.target, n) && !Misspelt(codec, e.target) then 0 else RowExpiry(codec, s.table.rows, n))
  {
    var c := codec.showNet(n);
    assert codec.parseNet(c) == Some(n);
    assert e.target in s.table.rows ==> Canonical(codec, e.target);
    assert c in e.hits <==> c in Hits(codec, s.table.rows, e.target);
  }

  /** The target names the network, or is a bare address inside it. */
  predicate Removes(codec: Codec, target: string, n: Net) {
    match codec.parseNet(target)
    case Some(m) => n == m
    case None => codec.parseAddr(target).Some? && Contains(n, codec.parseAddr(target).value)
  }

  /**
   Memory unbans by parsed network, the store by key text. Unbanning a target keeps the tiers
   in step unless it misspells the network of an unexpired row; then memory drops the ban and the
   row survives, to return at the next restart.
   */
  lemma UnbanKeepsSyncExactlyWhenSpeltRight(codec: Codec, s: Sys, e: Event, clock: nat)
    requires Lawful(codec) && CanonicalKeys(codec, s.table.rows) && InSync(codec, s, clock)
    requires e.UnbanTarget? && Possible(codec, s.table, e)
    ensures InSync(codec, Step(codec, s, e), clock)
       <==> !(Misspelt(codec, e.target) && RowExpiry(codec, s.table.rows, codec.parseNet(e.target).value) > clock)
  {
    var s' := Step(codec, s, e);
    forall n: Net
      ensures SameFrom(MemExpiry(s'.mem, n), RowExpiry(codec, s'.table.rows, n), clock)
         <==> !(Removes(codec, e.target, n) && Misspelt(codec, e.target) && RowExpiry(codec, s.table.rows, n) > clock)
    {
      UnbanExpiries(codec, s, e, n);
      assert SameFrom(MemExpiry(s.mem, n), RowExpiry(codec, s.table.rows, n), clock);
    }
  }

  /** Without the network, memory still quarantines every address in it up to the given time. */
  ghost predicate CoveredByOthers(mem: map<Net, nat>, n: Net, until: nat) {
    until > 0 && forall ip: Addr :: Contains(n, ip) ==> MemQuarantines(mem - {n}, ip, until - 1)
  }

  /** A misspelt unban leaves the store alone and takes one network out of memory. */
  lemma MisspeltUnban(codec: Codec, s: Sys, e: Event)
    requires Lawful(codec) && CanonicalKeys(codec, s.table.rows)
    requires e.UnbanTarget? && Possible(codec, s.table, e) && Misspelt(codec, e.target)
    ensures Step(codec, s, e).mem == s.mem - {codec.parseNet(e.target).value}
    ensures Step(codec, s, e).table.rows == s.table.rows
  {
    assert e.target in s.table.rows ==> Canonical(codec, e.target);
    assert forall c :: c !in e.hits;
  }

  /**
   The tiers still answer alike after an unban exactly when it does not misspell the network of an
   unexpired row, or the other networks in memory cover that network for as long as the row does.
   */
  lemma UnbanKeepsAgreementExactlyWhenSpeltRightOrCovered(codec: Codec, s: Sys, e: Event, clock: nat)
    requires Lawful(codec) && CanonicalKeys(codec, s.table.rows) && InSync(codec, s, clock)
    requires e.UnbanTarget? && Possible(codec, s.table, e)
    ensures Agree(codec, Step(codec, s, e), clock)
       <==> (Misspelt(codec, e.target) ==>
               var net := codec.parseNet(e.target).value;
               var until := RowExpiry(codec, s.table.rows, net);
               until > clock ==> CoveredByOthers(s.mem, net, until))
  {
    UnbanKeepsSyncExactlyWhenSpeltRight(codec, s, e, clock);
    if Misspelt(codec, e.target) && RowExpiry(codec, s.table.rows, codec.parseNet(e.target).value) > clock {
      MisspeltUnban(codec, s, e);
      SyncGivesAgreement(codec, s, clock);
      DroppedNetworkAgreement(codec, s, codec.parseNet(e.target).value, clock);
    } else {
      UnbanKeepsCanonicalKeys(codec, s, e);
      SyncGivesAgreement(codec, Step(codec, s, e), clock);
    }
  }

  /**
   Failing input: a network banned and then unbanned by another of its spellings. Memory lets its
   addresses through, and the table, from which the next boot loads, still holds them.
   */
  lemma MisspeltUnbanLeavesRow(codec: Codec, net: Net, rec: Record, e: Event)
    requires Lawful(codec) && RecordOfNet(codec, net, rec) && Fits(rec) && e.UnbanTarget? && e.now < rec.expiresAt
    requires codec.parseNet(e.target) == Some(net) && e.target != codec.showNet(net) && e.hits == []
    ensures var s := Step(codec, Sys(map[], EMPTY_TABLE), BanNet(net, rec));
      && Possible(codec, s.table, e)
      && !MemQuarantines(Step(codec, s, e).mem, net.addr, e.now)
      && TableQuarantines(codec, Step(codec, s, e).table.rows, net.addr, e.now)
  {
    var s := Step(codec, Sys(map[], EMPTY_TABLE), BanNet(net, rec));
    assert codec.parseNet(codec.showNet(net)) == Some(net);
    assert Hits(codec, s.table.rows, e.target) == {};
    assert rec.cidr in Step(codec, s, e).table.rows && KeyContains(codec, rec.cidr, net.addr);
  }

  lemma UnbanKeepsCanonicalKeys(codec: Codec, s: Sys, e: Event)
    requires CanonicalKeys(codec, s.table.rows) && e.UnbanTarget?
    ensures CanonicalKeys(codec, Step(codec, s, e).table.rows)
  {
  }

  /** Tiers in agreement stay so when memory alone drops a network, exactly when the others cover it. */
  lemma DroppedNetworkAgreement(codec: Codec, s: Sys, n: Net, clock: nat)
    requires Lawful(codec) && InSync(codec, s, clock) && Agree(codec, s, clock)
    requires RowExpiry(codec, s.table.rows, n) > clock
    ensures (forall ip: Addr, t: nat :: t >= clock ==>
              (MemQuarantines(s.mem - {n}, ip, t) <==> TableQuarantines(codec, s.table.rows, ip, t)))
       <==> CoveredByOthers(s.mem, n, RowExpiry(codec, s.table.rows, n))
  {
    var rows, rest, until := s.table.rows, s.mem - {n}, RowExpiry(codec, s.table.rows, n);
    assert SameFrom(MemExpiry(s.mem, n), until, clock);
    assert codec.parseNet(codec.showNet(n)) == Some(n);
    if CoveredByOthers(s.mem, n, until) {
      forall ip: Addr, t: nat | t >= clock
        ensures MemQuarantines(rest, ip, t) <==> TableQuarantines(codec, rows, ip, t)
      {
        assert MemQuarantines(s.mem, ip, t) <==> TableQuarantines(codec, rows, ip, t);
        if MemQuarantines(s.mem, ip, t) {
          var k :| k in s.mem && Contains(k, ip) && s.mem[k] > t;
          if k == n {
            assert MemQuarantines(rest, ip, until - 1);
            var other :| other in rest && Contains(other, ip) && rest[other] > until - 1;
          } else {
            assert k in rest;
          }
        }
        if MemQuarantines(rest, ip, t) {
          var k :| k in rest && Contains(k, ip) && rest[k] > t;
          assert k in s.mem;
        }
      }
    }
    if forall ip: Addr, t: nat :: t >= clock ==>
         (MemQuarantines(rest, ip, t) <==> TableQuarantines(codec, rows, ip, t)) {
      forall ip: Addr | Contains(n, ip)
        ensures MemQuarantines(rest, ip, until - 1)
      {
        assert KeyContains(codec, codec.showNet(n), ip);
        assert TableQuarantines(codec, rows, ip, until - 1);
      }
    }
  }

  lemma ClearKeepsSync(codec: Codec, s: Sys, e: Event, clock: nat)
    requires e.Clear? && Possible(codec, s.table, e)
    ensures InSync(codec, Step(codec, s, e), clock)
  {
  }

  /** Every unexpired active row has a count that reads back as a `u32`. */
  ghost predicate CountsReadable(rows: map<string, Record>, clock: nat) {
    forall c :: c in rows && rows[c].active && rows[c].expiresAt > clock ==> rows[c].infractionCount < U32_LIMIT
  }

  /** A restart restores synchrony exactly when no unexpired row's count has outgrown a `u32`. */
  lemma RestartRestoresSyncExactlyWhenReadable(codec: Codec, s: Sys, now: nat, clock: nat)
    requires Lawful(codec) && CanonicalKeys(codec, s.table.rows) && now <= clock
    ensures InSync(codec, Step(codec, s, Restart(now)), clock) <==> CountsReadable(s.table.rows, clock)
  {
    var s', rows := Step(codec, s, Restart(now)), s.table.rows;
    forall n: Net
      ensures MemExpiry(s'.mem, n) ==
        if codec.showNet(n) in rows && Loadable(rows[codec.showNet(n)], now)
        then rows[codec.showNet(n)].expiresAt else 0
    {
      assert codec.parseNet(codec.showNet(n)) == Some(n);
      if codec.showNet(n) in rows {
        assert n in NetsOf(codec, rows);
      }
    }
    if InSync(codec, s', clock) {
      forall c | c in rows && rows[c].active && rows[c].expiresAt > clock
        ensures rows[c].infractionCount < U32_LIMIT
      {
        assert Canonical(codec, c);
        var n := codec.parseNet(c).value;
        assert SameFrom(MemExpiry(s'.mem, n), RowExpiry(codec, rows, n), clock);
      }
    }
  }

  /** Every unexpired row with an unreadable count is covered by what boot does load, for as long as it lasts. */
  ghost predicate UnreadableRowsCovered(codec: Codec, rows: map<string, Record>, now: nat, clock: nat) {
    forall c, ip: Addr ::
      c in rows && rows[c].active && rows[c].expiresAt > clock && rows[c].infractionCount >= U32_LIMIT
      && KeyContains(codec, c, ip)
      ==> MemQuarantines(Rehydrated(codec, rows, now), ip, rows[c].expiresAt - 1)
  }

  /** A readable row that is still running is in memory after boot. */
  lemma ReadableRowIsLoaded(codec: Codec, rows: map<string, Record>, c: string, ip: Addr, now: nat, t: nat)
    requires CanonicalKeys(codec, rows) && c in rows && KeyContains(codec, c, ip)
    requires Loadable(rows[c], now) && rows[c].expiresAt > t
    ensures MemQuarantines(Rehydrated(codec, rows, now), ip, t)
  {
    assert Canonical(codec, c);
    var n := codec.parseNet(c).value;
    assert n in NetsOf(codec, rows) && n in Rehydrated(codec, rows, now);
  }

  /** What boot loads is in the table. */
  lemma LoadedIsInTable(codec: Codec, rows: map<string, Record>, now: nat, ip: Addr, t: nat)
    requires Lawful(codec) && MemQuarantines(Rehydrated(codec, rows, now), ip, t)
    ensures TableQuarantines(codec, rows, ip, t)
  {
    var mem := Rehydrated(codec, rows, now);
    var n :| n in mem && Contains(n, ip) && mem[n] > t;
    ShownIsCanonical(codec, n);
    assert KeyContains(codec, codec.showNet(n), ip);
  }

  /** After a restart the tiers answer alike exactly when every unreadable row is covered by the others. */
  lemma RestartRestoresAgreementExactlyWhenCovered(codec: Codec, s: Sys, now: nat, clock: nat)
    requires Lawful(codec) && CanonicalKeys(codec, s.table.rows) && now <= clock
    ensures Agree(codec, Step(codec, s, Restart(now)), clock)
       <==> UnreadableRowsCovered(codec, s.table.rows, now, clock)
  {
    var rows := s.table.rows;
    var mem := Rehydrated(codec, rows, now);
    forall ip: Addr, t: nat | t >= clock && MemQuarantines(mem, ip, t) {
      LoadedIsInTable(codec, rows, now, ip, t);
    }
    if UnreadableRowsCovered(codec, rows, now, clock) {
      forall ip: Addr, t: nat | t >= clock && TableQuarantines(codec, rows, ip, t)
        ensures MemQuarantines(mem, ip, t)
      {
        var c :| c in rows && rows[c].active && rows[c].expiresAt > t && KeyContains(codec, c, ip);
        if rows[c].infractionCount < U32_LIMIT {
          ReadableRowIsLoaded(codec, rows, c, ip, now, t);
        } else {
          assert MemQuarantines(mem, ip, rows[c].expiresAt - 1);
        }
      }
    }
    if Agree(codec, Step(codec, s, Restart(now)), clock) {
      forall c, ip: Addr |
        c in rows && rows[c].active && rows[c].expiresAt > clock && rows[c].infractionCount >= U32_LIMIT
        && KeyContains(codec, c, ip)
        ensures MemQuarantines(mem, ip, rows[c].expiresAt - 1)
      {
        assert TableQuarantines(codec, rows, ip, rows[c].expiresAt - 1);
      }
    }
  }

  // ---- whole runs ----

  /** Commands the operator is expected to send: storable expiries and properly spelt networks. */
  predicate Admissible(codec: Codec, e: Event) {
    match e
    case BanNet(_, rec) => rec.expiresAt < SQLITE_LIMIT
    case UnbanTarget(target, _, _, _) => !Misspelt(codec, target)
    case _ => true
  }

  predicate AllAdmissible(codec: Codec, es: seq<Event>) {
    forall i :: 0 <= i < |es| ==> Admissible(codec, es[i])
  }

  lemma CountBansBounded(log: seq<AuditEvent>, c: string)
    ensures CountBans(log, c) <= |log|
  {
  }

  lemma BanKeepsWellKept(codec: Codec, t: Table, net: Net, rec: Record)
    requires Lawful(codec) && WellKept(codec, t) && RecordOfNet(codec, net, rec) && Fits(rec)
    ensures WellKept(codec, AfterBan(t, rec))
  {
    var t' := AfterBan(t, rec);
    ShownIsCanonical(codec, net);
    forall c
      ensures CountBans(t'.log, c) == CountBans(t.log, c) + if c == rec.cidr then 1 else 0
    {
      assert t'.log[..|t'.log| - 1] == t.log;
    }
  }

  lemma UnbanKeepsWellKept(codec: Codec, t: Table, hits: seq<string>, kind: EventKind, ts: nat, details: string)
    requires WellKept(codec, t) && kind != Quarantined
    ensures WellKept(codec, AfterUnban(t, hits, kind, ts, details))
  {
    forall c { AppendUnbans(t.log, hits, kind, ts, details, c); }
  }

  lemma StepKeepsWellKept(codec: Codec, t: Table, e: Event)
    requires Lawful(codec) && WellKept(codec, t) && Possible(codec, t, e)
    ensures WellKept(codec, StepTable(t, e))
  {
    match e
    case BanNet(net, rec) =>
      if Fits(rec) { BanKeepsWellKept(codec, t, net, rec); }
    case UnbanTarget(_, details, now, hits) =>
      UnbanKeepsWellKept(codec, t, hits, Unbanned, now, details);
    case Clear(details, now, hits) =>
      UnbanKeepsWellKept(codec, t, hits, UnbannedAll, now, details);
    case Restart(_) =>
  }

  lemma {:induction false} RunKeepsWellKept(codec: Codec, start: Sys, es: seq<Event>)
    requires Lawful(codec) && WellKept(codec, start.table) && PossibleRun(codec, start, es)
    ensures WellKept(codec, RunSys(codec, start, es).table)
    ensures |start.table.log| <= |RunSys(codec, start, es).table.log|
  {
    if es != [] {
      var before := RunSys(codec, start, es[..|es| - 1]);
      RunKeepsWellKept(codec, start, es[..|es| - 1]);
      StepKeepsWellKept(codec, before.table, es[|es| - 1]);
    }
  }

  lemma StepKeepsSync(codec: Codec, s: Sys, e: Event, clock: nat)
    requires Lawful(codec) && WellKept(codec, s.table) && InSync(codec, s, clock)
    requires Possible(codec, s.table, e) && Admissible(codec, e) && Time(e) <= clock
    requires |s.table.log| < U32_LIMIT
    ensures InSync(codec, Step(codec, s, e), clock)
  {
    match e
    case BanNet(net, rec) =>
      BanKeepsSync(codec, s, net, rec, clock);
    case UnbanTarget(_, _, _, _) =>
      UnbanKeepsSyncExactlyWhenSpeltRight(codec, s, e, clock);
    case Clear(_, _, _) =>
      ClearKeepsSync(codec, s, e, clock);
    case Restart(now) =>
      forall c { CountBansBounded(s.table.log, c); }
      RestartRestoresSyncExactlyWhenReadable(codec, s, now, clock);
  }

  /**
   After any run of admissible commands and restarts, memory and the durable table give the
   same answer for every address at every time not before the latest step.
   */
  lemma {:induction false} CacheAgreement(codec: Codec, start: Sys, clock: nat, es: seq<Event>)
    requires Lawful(codec) && WellKept(codec, start.table) && InSync(codec, start, clock)
    requires PossibleRun(codec, start, es) && AllAdmissible(codec, es)
    requires |RunSys(codec, start, es).table.log| < U32_LIMIT
    ensures InSync(codec, RunSys(codec, start, es), Clock(clock, es))
    ensures Agree(codec, RunSys(codec, start, es), Clock(clock, es))
  {
    var last, now := RunSys(codec, start, es), Clock(clock, es);
    if es != [] {
      var prefix, e := es[..|es| - 1], es[|es| - 1];
      var before := RunSys(codec, start, prefix);
      assert |before.table.log| <= |last.table.log|;
      CacheAgreement(codec, start, clock, prefix);
      assert forall n: Net ::
        SameFrom(MemExpiry(before.mem, n), RowExpiry(codec, before.table.rows, n), Clock(clock, prefix));
      assert InSync(codec, before, now);
      RunKeepsWellKept(codec, start, prefix);
      StepKeepsSync(codec, before, e, now);
    }
    RunKeepsWellKept(codec, start, es);
    SyncGivesAgreement(codec, last, now);
  }

  /** A daemon that starts on an empty database satisfies the premises of `CacheAgreement`. */
  lemma FreshDaemonIsInSync(codec: Codec)
    ensures WellKept(codec, EMPTY_TABLE) && InSync(codec, Sys(map[], EMPTY_TABLE), 0)
  {
  }

  /** The audit log keeps deciding which rows exist and which are active, through every command and restart. */
  lemma {:induction false} RunKeepsLogExplains(codec: Codec, start: Sys, es: seq<Event>)
    requires LogExplains(start.table) && PossibleRun(codec, start, es)
    ensures LogExplains(RunSys(codec, start, es).table)
  {
    if es != [] {
      var t, e := RunSys(codec, start, es[..|es| - 1]).table, es[|es| - 1];
      RunKeepsLogExplains(codec, start, es[..|es| - 1]);
      match e
      case BanNet(_, rec) =>
        BanKeepsLogExplains(t, rec);
      case UnbanTarget(target, details, now, hits) =>
        assert Hits(codec, t.rows, target) <= ActiveKeys(t.rows);
        UnbanKeepsLogExplains(t, hits, Unbanned, now, details);
      case Clear(details, now, hits) =>
        UnbanKeepsLogExplains(t, hits, UnbannedAll, now, details);
      case Restart(_) =>
    }
  }

  // ---- offline commands, then boot ----

  function RunTable(t: Table, es: seq<Event>): Table {
    if es == [] then t else StepTable(RunTable(t, es[..|es| - 1]), es[|es| - 1])
  }

  ghost predicate PossibleTableRun(codec: Codec, t: Table, es: seq<Event>) {
    es != [] ==>
      && PossibleTableRun(codec, t, es[..|es| - 1])
      && Possible(codec, RunTable(t, es[..|es| - 1]), es[|es| - 1])
  }

  /** The same command; the audit text and the order in which rows were listed may differ. */
  predicate SameCommand(a: Event, b: Event) {
    match (a, b)
    case (BanNet(m, r), BanNet(n, q)) => m == n && r == q
    case (UnbanTarget(x, _, t, _), UnbanTarget(y, _, u, _)) => x == y && t == u
    case (Clear(_, t, _), Clear(_, u, _)) => t == u
    case _ => false
  }

  predicate SameCommands(a: seq<Event>, b: seq<Event>) {
    |a| == |b| && forall i :: 0 <= i < |a| ==> SameCommand(a[i], b[i])
  }

  lemma {:induction false} SameCommandsSameRows(codec: Codec, start: Sys, live: seq<Event>, offline: seq<Event>)
    requires PossibleRun(codec, start, live) && PossibleTableRun(codec, start.table, offline)
    requires SameCommands(live, offline)
    ensures RunSys(codec, start, live).table.rows == RunTable(start.table, offline).rows
  {
    if live != [] {
      var a, b := live[|live| - 1], offline[|offline| - 1];
      SameCommandsSameRows(codec, start, live[..|live| - 1], offline[..|offline| - 1]);
      assert SameCommand(a, b);
      if !a.BanNet? {
        assert forall c :: c in a.hits <==> c in b.hits;
      }
    }
  }

  /** What one step adds to the audit trail of a key. */
  function StepTrail(e: Event, c: string): seq<(EventKind, nat)> {
    match e
    case BanNet(_, rec) => if Fits(rec) && rec.cidr == c then [(Quarantined, rec.quarantinedAt)] else []
    case UnbanTarget(_, _, now, hits) => if c in hits then [(Unbanned, now)] else []
    case Clear(_, now, hits) => if c in hits then [(UnbannedAll, now)] else []
    case Restart(_) => []
  }

  lemma StepKeyLog(codec: Codec, t: Table, e: Event, c: string)
    requires Possible(codec, t, e)
    ensures KeyLog(StepTable(t, e).log, c) == KeyLog(t.log, c) + StepTrail(e, c)
  {
    match e
    case BanNet(_, rec) =>
      assert AfterBan(t, rec).log[..|t.log|] == t.log;
    case UnbanTarget(_, details, now, hits) =>
      KeyLogOfUnbans(t.log, hits, Unbanned, now, details, c);
    case Clear(details, now, hits) =>
      KeyLogOfUnbans(t.log, hits, UnbannedAll, now, details, c);
    case Restart(_) =>
  }

  /** The audit trail of every key is the same too: kinds and times of its events, in order. */
  lemma {:induction false} SameCommandsSameKeyLogs(codec: Codec, start: Sys, live: seq<Event>,
                                                   offline: seq<Event>, c: string)
    requires PossibleRun(codec, start, live) && PossibleTableRun(codec, start.table, offline)
    requires SameCommands(live, offline)
    ensures KeyLog(RunSys(codec, start, live).table.log, c) == KeyLog(RunTable(start.table, offline).log, c)
  {
    if live != [] {
      var before, after := live[..|live| - 1], offline[..|offline| - 1];
      var a, b := live[|live| - 1], offline[|offline| - 1];
      SameCommandsSameKeyLogs(codec, start, before, after, c);
      SameCommandsSameRows(codec, start, before, after);
      assert SameCommand(a, b);
      if !a.BanNet? {
        assert c in a.hits <==> c in b.hits;
      }
      StepKeyLog(codec, RunSys(codec, start, before).table, a, c);
      StepKeyLog(codec, RunTable(start.table, after), b, c);
    }
  }

  /**
   Running a command list against the database while the daemon is down and then booting gives
   the same decisions as sending the same list to the running daemon.
   */
  lemma {:induction false} OfflineThenBootEqualsLive(codec: Codec, start: Sys, clock: nat, live: seq<Event>,
                                                     offline: seq<Event>, boot: nat)
    requires Lawful(codec) && WellKept(codec, start.table) && InSync(codec, start, clock)
    requires PossibleRun(codec, start, live) && AllAdmissible(codec, live)
    requires PossibleTableRun(codec, start.table, offline) && SameCommands(live, offline)
    requires |RunSys(codec, start, live).table.log| < U32_LIMIT
    ensures forall ip: Addr, t: nat :: t >= Clock(clock, live) && t >= boot ==>
      (MemQuarantines(RunSys(codec, start, live).mem, ip, t)
       <==> MemQuarantines(Rehydrated(codec, RunTable(start.table, offline).rows, boot), ip, t))
  {
    var s := RunSys(codec, start, live);
    var now := Max(Clock(clock, live), boot);
    RunKeepsWellKept(codec, start, live);
    CacheAgreement(codec, start, clock, live);
    SameCommandsSameRows(codec, start, live, offline);
    forall c { CountBansBounded(s.table.log, c); }
    var booted := Step(codec, s, Restart(boot));
    RestartRestoresSyncExactlyWhenReadable(codec, s, boot, now);
    SyncGivesAgreement(codec, booted, now);
  }
}
