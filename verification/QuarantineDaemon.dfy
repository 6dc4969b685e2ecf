/**
 The commands of the quarantine subsystem: the control-socket handlers of the running daemon, the
 boot and worker loops, and the command-line paths that write the database while the daemon is
 down. Each is proved to perform exactly the steps of `Enforcement` that its targets stand for.
 */
module TargetResolution {
  import opened Wrappers
  import opened Text
  import opened Networks
  import opened QuarantineTable
  import opened Enforcement

  /** `resolve_target_cidr` of the command line. */
  function ResolveTarget(codec: Codec, raw: string, exact: bool): Option<(Net, string)> {
    var target := Trim(raw);
    if target == [] then None
    else if '/' in target then
      match codec.parseNet(target)
      case None => None
      case Some(net) => Some((net, target))
    else if exact then
      match codec.parseAddr(target)
      case None => None
      case Some(addr) => Some((HostNet(addr), target))
    else
      match codec.deriveCidr(target)
      case None => None
      case Some(cidr) =>
        match codec.parseNet(cidr)
        case None => None
        case Some(net) => Some((net, target))
  }

  // ---- expiry arithmetic ----

  /** A ban without a duration lasts a day. */
  const DEFAULT_BAN_SECS: nat := 86_400

  function WrapU64(n: nat): (r: nat)
    ensures r < U64_LIMIT
  {
    n % U64_LIMIT
  }

  /** `now_ms + duration_secs * 1000` on `u64`, wrapping as release builds do. */
  function ExpiresAt(now: nat, durationSecs: nat): nat {
    WrapU64(now + WrapU64(durationSecs * 1000))
  }

  /** The expiry is the true one exactly while that is below 2^64; beyond, it wraps and comes too early. */
  lemma ExpiryIsExact(now: nat, durationSecs: nat)
    ensures ExpiresAt(now, durationSecs) == now + durationSecs * 1000 <==> now + durationSecs * 1000 < U64_LIMIT
    ensures ExpiresAt(now, durationSecs) <= now + durationSecs * 1000
  {
  }

  /** Failing inputs: a ban of 10^16 seconds does not fit the store, and one of 18446744073709552 lasts 384 ms. */
  lemma LongBans(now: nat)
    requires now < 8_000_000_000_000_000_000
    ensures SQLITE_LIMIT <= ExpiresAt(now, 10_000_000_000_000_000)
    ensures ExpiresAt(now, 18_446_744_073_709_552) == now + 384
  {
  }

  // ---- the steps a ban command stands for ----

  /** What one ban command applies to each of its targets. */
  datatype BanOrder = BanOrder(reason: string, expiresAt: nat, exact: bool, now: nat)

  function RecordFor(codec: Codec, net: Net, trigger: string, order: BanOrder): Record {
    Record(codec.showNet(net), if net.addr.family == V4 then 4 else 6, trigger, order.reason, 1,
           order.now, order.expiresAt, None, true)
  }

  predicate BanUnder(codec: Codec, order: BanOrder, e: Event) {
    && e.BanNet? && RecordOfNet(codec, e.net, e.rec)
    && e.rec.expiresAt == order.expiresAt && e.rec.quarantinedAt == order.now
  }

  /** One step when the target resolves, none otherwise. */
  function TargetEvents(codec: Codec, target: string, order: BanOrder): (es: seq<Event>)
    ensures forall i :: 0 <= i < |es| ==> BanUnder(codec, order, es[i])
  {
    match ResolveTarget(codec, target, order.exact)
    case None => []
    case Some((net, trigger)) => [BanNet(net, RecordFor(codec, net, trigger, order))]
  }

  /** The steps of all targets, in the order given. */
  function BanEvents(codec: Codec, targets: seq<string>, order: BanOrder): (es: seq<Event>)
    ensures forall i :: 0 <= i < |es| ==> BanUnder(codec, order, es[i])
  {
    if targets == [] then []
    else BanEvents(codec, targets[..|targets| - 1], order) + TargetEvents(codec, targets[|targets| - 1], order)
  }

  function Cidrs(es: seq<Event>): seq<string>
    requires forall i :: 0 <= i < |es| ==> es[i].BanNet?
  {
    seq(|es|, i requires 0 <= i < |es| => es[i].rec.cidr)
  }

  lemma BanEventsStep(codec: Codec, targets: seq<string>, i: nat, order: BanOrder)
    requires i < |targets|
    ensures BanEvents(codec, targets[..i + 1], order)
         == BanEvents(codec, targets[..i], order) + TargetEvents(codec, targets[i], order)
    ensures Cidrs(BanEvents(codec, targets[..i + 1], order))
         == Cidrs(BanEvents(codec, targets[..i], order)) + Cidrs(TargetEvents(codec, targets[i], order))
  {
    assert targets[..i + 1][..i] == targets[..i];
  }

  lemma ExtendRun(codec: Codec, start: Sys, es: seq<Event>, e: Event)
    requires PossibleRun(codec, start, es) && Possible(codec, RunSys(codec, start, es).table, e)
    ensures PossibleRun(codec, start, es + [e])
    ensures RunSys(codec, start, es + [e]) == Step(codec, RunSys(codec, start, es), e)
  {
    assert (es + [e])[..|es|] == es;
  }

  lemma ExtendTableRun(codec: Codec, t: Table, es: seq<Event>, e: Event)
    requires PossibleTableRun(codec, t, es) && Possible(codec, RunTable(t, es), e)
    ensures PossibleTableRun(codec, t, es + [e])
    ensures RunTable(t, es + [e]) == StepTable(RunTable(t, es), e)
  {
    assert (es + [e])[..|es|] == es;
  }

  lemma {:induction false} RunTableAppend(t: Table, a: seq<Event>, b: seq<Event>)
    ensures RunTable(t, a + b) == RunTable(RunTable(t, a), b)
  {
    if b == [] {
      assert a + b == a;
    } else {
      assert (a + b)[..|a + b| - 1] == a + b[..|b| - 1];
      RunTableAppend(t, a, b[..|b| - 1]);
    }
  }

  lemma {:induction false} RunSysAppend(codec: Codec, start: Sys, a: seq<Event>, b: seq<Event>)
    ensures RunSys(codec, start, a + b) == RunSys(codec, RunSys(codec, start, a), b)
  {
    if b == [] {
      assert a + b == a;
    } else {
      assert (a + b)[..|a + b| - 1] == a + b[..|b| - 1];
      RunSysAppend(codec, start, a, b[..|b| - 1]);
    }
  }

  lemma {:induction false} PossibleRunAppend(codec: Codec, start: Sys, a: seq<Event>, b: seq<Event>)
    requires PossibleRun(codec, start, a) && PossibleRun(codec, RunSys(codec, start, a), b)
    ensures PossibleRun(codec, start, a + b)
  {
    if b == [] {
      assert a + b == a;
    } else {
      var shorter := b[..|b| - 1];
      assert (a + b)[..|a + b| - 1] == a + shorter;
      PossibleRunAppend(codec, start, a, shorter);
      RunSysAppend(codec, start, a, shorter);
    }
  }

  /** The steps of a ban command are possible in any state before the clock passes 2^63 ms. */
  lemma {:induction false} BansAreAlwaysPossible(codec: Codec, start: Sys, es: seq<Event>, order: BanOrder)
    requires order.now < SQLITE_LIMIT && forall i :: 0 <= i < |es| ==> BanUnder(codec, order, es[i])
    ensures PossibleRun(codec, start, es)
  {
    if es != [] {
      BansAreAlwaysPossible(codec, start, es[..|es| - 1], order);
    }
  }
}

module QuarantineDaemon {
  import opened Wrappers
  import opened Text
  import opened Networks
  import opened QuarantineTable
  import opened QuarantineDb
  import opened StoreHistory
  import opened Enforcement
  import opened TargetResolution
  import opened BanEffects

  const OFFLINE_DETAILS := "Offline CLI unban"
  const OFFLINE_CLEAR_DETAILS := "Offline CLI unban_all"

  /** The assumed contract of the in-memory engine. */
  class AutonomousQuarantine {
    var bans: map<Net, nat>

    constructor ()
      ensures bans == map[]
    {
      bans := map[];
    }

    method AddBan(net: Net, expiresAt: nat)
      modifies this
      ensures bans == old(bans)[net := expiresAt]
    {
      bans := bans[net := expiresAt];
    }

    method Unban(codec: Codec, target: string) returns (removed: bool)
      modifies this
      ensures bans == MemUnban(codec, old(bans), target)
      ensures removed <==> bans != old(bans)
    {
      ghost var was := bans;
      var left := MemUnban(codec, bans, target);
      removed := left != bans;
      bans := left;
    }

    method UnbanAll()
      modifies this
      ensures bans == map[]
    {
      bans := map[];
    }
  }

  function SysOf(mem: AutonomousQuarantine, store: QuarantineStore): Sys
    reads mem, store
  {
    Sys(mem.bans, store.State())
  }

  // ---- the control socket of the running daemon ----

  /** The `match` inside `exec_ban` on a trimmed, non-empty target. */
  function ResolveInline(codec: Codec, target: string, exact: bool): (r: Option<(Net, string)>) {
    if '/' in target then
      (match codec.parseNet(target) case None => None case Some(n) => Some((n, target)))
    else if exact then
      (match codec.parseAddr(target) case None => None case Some(a) => Some((HostNet(a), target)))
    else
      var net := match codec.deriveCidr(target) case None => None case Some(c) => codec.parseNet(c);
      (match net case None => None case Some(n) => Some((n, target)))
  }

  /** The daemon and the command line resolve every target alike. */
  lemma ResolutionsCoincide(codec: Codec, raw: string, exact: bool)
    ensures ResolveTarget(codec, raw, exact) == if Trim(raw) == [] then None else ResolveInline(codec, Trim(raw), exact)
  {
  }

  /** One turn of the loop in `exec_ban`: memory first, then the store, whose error is ignored. */
  method BanOne(codec: Codec, mem: AutonomousQuarantine, store: QuarantineStore, raw: string, order: BanOrder)
    returns (cidr: Option<string>)
    modifies mem, store
    ensures SysOf(mem, store) == RunSys(codec, old(SysOf(mem, store)), TargetEvents(codec, raw, order))
    ensures Cidrs(TargetEvents(codec, raw, order)) == if cidr.Some? then [cidr.value] else []
  {
    ResolutionsCoincide(codec, raw, order.exact);
    var target := Trim(raw);
    if target == [] {
      return None;
    }
    var resolved := ResolveInline(codec, target, order.exact);
    if resolved.None? {
      return None;
    }
    var (net, trigger) := resolved.value;
    var rec := RecordFor(codec, net, trigger, order);
    assert [BanNet(net, rec)][..0] == [];
    mem.AddBan(net, order.expiresAt);
    var _ := store.RecordBan(rec);
    return Some(rec.cidr);
  }

  function OrderOf(reason: Option<string>, durationSecs: Option<nat>, exact: bool, now: nat): BanOrder {
    BanOrder(if reason.Some? then reason.value else "Manual operator ban",
             ExpiresAt(now, if durationSecs.Some? then durationSecs.value else DEFAULT_BAN_SECS), exact, now)
  }

  method ExecBan(codec: Codec, mem: AutonomousQuarantine, store: QuarantineStore,
                 targets: seq<string>, reason: Option<string>, durationSecs: Option<nat>, exact: bool, now: nat)
    returns (bannedCidrs: seq<string>)
    modifies mem, store
    ensures var events := BanEvents(codec, targets, OrderOf(reason, durationSecs, exact, now));
      && SysOf(mem, store) == RunSys(codec, old(SysOf(mem, store)), events)
      && (now < SQLITE_LIMIT ==> PossibleRun(codec, old(SysOf(mem, store)), events))
      && bannedCidrs == Cidrs(events)
    ensures Lawful(codec) ==>
      BannedAsAsked(codec, old(SysOf(mem, store)), SysOf(mem, store), bannedCidrs, targets, exact,
                    if reason.Some? then reason.value else "Manual operator ban", now,
                    ExpiresAt(now, if durationSecs.Some? then durationSecs.value else 86_400))
  {
    var order := OrderOf(reason, durationSecs, exact, now);
    bannedCidrs := [];
    for i := 0 to |targets|
      invariant SysOf(mem, store) == RunSys(codec, old(SysOf(mem, store)), BanEvents(codec, targets[..i], order))
      invariant bannedCidrs == Cidrs(BanEvents(codec, targets[..i], order))
    {
      BanEventsStep(codec, targets, i, order);
      RunSysAppend(codec, old(SysOf(mem, store)), BanEvents(codec, targets[..i], order),
                   TargetEvents(codec, targets[i], order));
      var cidr := BanOne(codec, mem, store, targets[i], order);
      if cidr.Some? {
        bannedCidrs := bannedCidrs + [cidr.value];
      }
    }
    assert targets[..|targets|] == targets;
    if now < SQLITE_LIMIT {
      BansAreAlwaysPossible(codec, old(SysOf(mem, store)), BanEvents(codec, targets, order), order);
    }
    if Lawful(codec) {
      CommandBansAsAsked(codec, old(SysOf(mem, store)), targets, order);
    }
  }

  /** What one unban adds to the reply: the rows deactivated, or the target when only memory held it. */
  function Reply(codec: Codec, mem: map<Net, nat>, e: Event): seq<string>
    requires e.UnbanTarget?
  {
    if e.hits != [] then e.hits
    else if MemUnban(codec, mem, e.target) != mem then [e.target]
    else []
  }

  /** The rows deactivated; failing those, the target when it removed a network from memory; else nothing. */
  lemma ReplyExactly(codec: Codec, mem: map<Net, nat>, e: Event)
    requires e.UnbanTarget?
    ensures Reply(codec, mem, e) ==
      if e.hits != [] then e.hits
      else if exists n :: n in mem && Removes(codec, e.target, n) then [e.target]
      else []
  {
    var left := MemUnban(codec, mem, e.target);
    assert forall n :: n in left <==> n in mem && !Removes(codec, e.target, n);
    assert forall n :: n in left ==> left[n] == mem[n];
  }

  function Replies(codec: Codec, start: Sys, es: seq<Event>): seq<string>
    requires forall i :: 0 <= i < |es| ==> es[i].UnbanTarget?
  {
    if es == [] then []
    else
      var before := RunSys(codec, start, es[..|es| - 1]);
      Replies(codec, start, es[..|es| - 1]) + Reply(codec, before.mem, es[|es| - 1])
  }

  lemma RepliesAppend(codec: Codec, start: Sys, es: seq<Event>, e: Event)
    requires e.UnbanTarget? && forall i :: 0 <= i < |es| ==> es[i].UnbanTarget?
    ensures Replies(codec, start, es + [e]) == Replies(codec, start, es) + Reply(codec, RunSys(codec, start, es).mem, e)
  {
    assert (es + [e])[..|es|] == es;
  }

  ghost predicate UnbanEvents(es: seq<Event>, targets: seq<string>, details: string, now: nat) {
    && |es| == |targets|
    && forall i :: 0 <= i < |es| ==>
         es[i].UnbanTarget? && es[i].target == targets[i] && es[i].details == details && es[i].now == now
  }

  /** One turn of the loop in `exec_unban`; the reply is what this target adds to the list. */
  method UnbanOne(codec: Codec, mem: AutonomousQuarantine, store: QuarantineStore, target: string, now: nat)
    returns (reply: seq<string>, ghost e: Event)
    requires now < SQLITE_LIMIT
    modifies mem, store
    ensures e.UnbanTarget? && e.target == target && e.details == "Live IPC command" && e.now == now
    ensures Possible(codec, old(store.State()), e)
    ensures SysOf(mem, store) == Step(codec, old(SysOf(mem, store)), e)
    ensures reply == Reply(codec, old(mem.bans), e)
  {
    var memUnbanned := mem.Unban(codec, target);
    var r := store.Unban(codec, target, LIVE_DETAILS, now);
    e := UnbanTarget(target, LIVE_DETAILS, now, r.value);
    if r.value != [] {
      reply := r.value;
    } else if memUnbanned {
      reply := [target];
    } else {
      reply := [];
    }
  }

  /** The steps and the reply list of an unban command. */
  ghost predicate LiveUnbans(codec: Codec, start: Sys, targets: seq<string>, now: nat,
                             events: seq<Event>, cidrs: seq<string>)
  {
    && UnbanEvents(events, targets, LIVE_DETAILS, now)
    && PossibleRun(codec, start, events)
    && cidrs == Replies(codec, start, events)
  }

  lemma OneMoreUnban(events: seq<Event>, targets: seq<string>, i: nat, e: Event, details: string, now: nat)
    requires i < |targets| && UnbanEvents(events, targets[..i], details, now)
    requires e.UnbanTarget? && e.target == targets[i] && e.details == details && e.now == now
    ensures UnbanEvents(events + [e], targets[..i + 1], details, now)
  {
  }

  lemma LiveUnbansStep(codec: Codec, start: Sys, targets: seq<string>, i: nat, now: nat,
                       events: seq<Event>, cidrs: seq<string>, e: Event)
    requires i < |targets| && LiveUnbans(codec, start, targets[..i], now, events, cidrs)
    requires e.UnbanTarget? && e.target == targets[i] && e.details == LIVE_DETAILS && e.now == now
    requires Possible(codec, RunSys(codec, start, events).table, e)
    ensures LiveUnbans(codec, start, targets[..i + 1], now, events + [e],
                       cidrs + Reply(codec, RunSys(codec, start, events).mem, e))
    ensures RunSys(codec, start, events + [e]) == Step(codec, RunSys(codec, start, events), e)
  {
    OneMoreUnban(events, targets, i, e, LIVE_DETAILS, now);
    ExtendRun(codec, start, events, e);
    RepliesAppend(codec, start, events, e);
  }

  method ExecUnban(codec: Codec, mem: AutonomousQuarantine, store: QuarantineStore, targets: seq<string>, now: nat)
    returns (totalUnbanned: nat, allCidrs: seq<string>, ghost events: seq<Event>)
    requires now < SQLITE_LIMIT
    modifies mem, store
    ensures UnbanEvents(events, targets, "Live IPC command", now)
    ensures PossibleRun(codec, old(SysOf(mem, store)), events)
    ensures SysOf(mem, store) == RunSys(codec, old(SysOf(mem, store)), events)
    ensures totalUnbanned == |allCidrs| && allCidrs == Replies(codec, old(SysOf(mem, store)), events)
  {
    totalUnbanned, allCidrs, events := 0, [], [];
    ghost var start := SysOf(mem, store);
    for i := 0 to |targets|
      invariant LiveUnbans(codec, start, targets[..i], now, events, allCidrs)
      invariant SysOf(mem, store) == RunSys(codec, start, events)
      invariant totalUnbanned == |allCidrs|
    {
      ghost var e;
      var reply;
      reply, e := UnbanOne(codec, mem, store, targets[i], now);
      LiveUnbansStep(codec, start, targets, i, now, events, allCidrs, e);
      totalUnbanned := totalUnbanned + |reply|;
      allCidrs := allCidrs + reply;
      events := events + [e];
    }
    assert targets[..|targets|] == targets;
  }

  method ExecUnbanAll(codec: Codec, mem: AutonomousQuarantine, store: QuarantineStore, now: nat)
    returns (count: nat, ghost e: Event)
    requires now < SQLITE_LIMIT
    modifies mem, store
    ensures e.Clear? && e.details == "Live IPC unban_all command" && e.now == now && count == |e.hits|
    ensures Possible(codec, old(SysOf(mem, store)).table, e)
    ensures SysOf(mem, store) == Step(codec, old(SysOf(mem, store)), e)
  {
    mem.UnbanAll();
    var r, hits := store.UnbanAll(LIVE_CLEAR_DETAILS, now);
    count := r.value;
    e := Clear(LIVE_CLEAR_DETAILS, now, hits);
  }

  // ---- boot and worker ----

  /** Memory holds exactly the networks of the listed keys, each with its row's expiry. */
  ghost predicate LoadedFrom(codec: Codec, rows: map<string, Record>, keys: seq<string>, mem: map<Net, nat>) {
    && (forall n: Net :: n in mem <==> codec.showNet(n) in keys)
    && (forall n: Net :: n in mem ==> codec.showNet(n) in rows && mem[n] == rows[codec.showNet(n)].expiresAt)
  }

  lemma LoadOne(codec: Codec, rows: map<string, Record>, keys: seq<string>, c: string, mem: map<Net, nat>)
    requires Lawful(codec) && c in rows && Canonical(codec, c) && LoadedFrom(codec, rows, keys, mem)
    ensures LoadedFrom(codec, rows, keys + [c], mem[codec.parseNet(c).value := rows[c].expiresAt])
  {
    assert forall n: Net :: codec.parseNet(codec.showNet(n)) == Some(n);
  }

  /** `rehydrate_with_timestamp` on the empty memory of a new process. */
  method Rehydrate(codec: Codec, mem: AutonomousQuarantine, store: QuarantineStore, now: nat)
    returns (r: Result<nat, StoreError>)
    requires mem.bans == map[]
    modifies mem
    ensures r.Ok? <==> now < SQLITE_LIMIT
    ensures r.Err? ==> mem.bans == map[]
    ensures r.Ok? ==> r.value == |set c | c in store.rows && store.rows[c].active && store.rows[c].expiresAt > now
                                        && store.rows[c].infractionCount < 0x1_0000_0000|
    ensures r.Ok? && Lawful(codec) && CanonicalKeys(codec, store.rows) ==>
      SysOf(mem, store) == Step(codec, old(SysOf(mem, store)), Restart(now))
  {
    var active, keys := store.GetActiveBans(now);
    if active.Err? {
      return Err(active.error);
    }
    var records := active.value;
    ghost var rows, good := store.rows, Lawful(codec) && CanonicalKeys(codec, store.rows);
    ListsSize(keys, set c | c in rows && rows[c].active && rows[c].expiresAt > now
                            && rows[c].infractionCount < 0x1_0000_0000);
    for i := 0 to |records|
      invariant good ==> LoadedFrom(codec, rows, keys[..i], mem.bans)
    {
      assert keys[i] in keys && records[i] == rows[keys[i]];
      assert keys[..i + 1] == keys[..i] + [keys[i]];
      ghost var before := mem.bans;
      var net := codec.parseNet(records[i].cidr);
      if net.Some? {
        mem.AddBan(net.value, records[i].expiresAt);
      }
      if good {
        assert Canonical(codec, keys[i]) && records[i].cidr == keys[i];
        LoadOne(codec, rows, keys[..i], keys[i], before);
      }
    }
    assert keys[..|keys|] == keys;
    if good {
      RehydratedByKey(codec, rows, now, mem.bans);
    }
    return Ok(|records|);
  }

  lemma RehydratedByKey(codec: Codec, rows: map<string, Record>, now: nat, mem: map<Net, nat>)
    requires Lawful(codec)
    requires forall n: Net :: n in mem <==> codec.showNet(n) in rows && Loadable(rows[codec.showNet(n)], now)
    requires forall n: Net :: n in mem ==> mem[n] == rows[codec.showNet(n)].expiresAt
    ensures mem == Rehydrated(codec, rows, now)
  {
    forall n: Net
      ensures codec.showNet(n) in rows ==> n in NetsOf(codec, rows)
    {
      assert codec.parseNet(codec.showNet(n)) == Some(n);
    }
  }

  /** The worker stores what arrives, in order; a record that does not fit is logged and dropped. */
  function Drained(t: Table, records: seq<Record>): Table {
    if records == [] then t
    else
      var before := Drained(t, records[..|records| - 1]);
      if Fits(records[|records| - 1]) then AfterBan(before, records[|records| - 1]) else before
  }

  /** The queued records that fit, as bans of the store. */
  function FittingBans(records: seq<Record>): seq<StoreOp> {
    if records == [] then []
    else
      var before, last := FittingBans(records[..|records| - 1]), records[|records| - 1];
      if last.quarantinedAt < 0x8000_0000_0000_0000 && last.expiresAt < 0x8000_0000_0000_0000
      then before + [StoreOp.Ban(last)] else before
  }

  /** Draining extends the history of the table by those bans and nothing else. */
  lemma {:induction false} DrainedIsHistory(codec: Codec, ops: seq<StoreOp>, records: seq<Record>)
    requires ValidRun(codec, ops) && forall i :: 0 <= i < |records| ==> records[i].active
    ensures Drained(Run(ops), records) == Run(ops + FittingBans(records))
    ensures ValidRun(codec, ops + FittingBans(records))
  {
    if records == [] {
      assert ops + [] == ops;
    } else {
      var before, last := FittingBans(records[..|records| - 1]), records[|records| - 1];
      DrainedIsHistory(codec, ops, records[..|records| - 1]);
      if Fits(last) {
        var longer := ops + before + [StoreOp.Ban(last)];
        assert longer == ops + FittingBans(records) && longer[..|longer| - 1] == ops + before;
      }
    }
  }

  method RunPersistenceWorker(store: QuarantineStore, rx: seq<Record>)
    modifies store
    ensures store.State() == Drained(old(store.State()), rx)
  {
    var queue := rx;
    while queue != []
      invariant |queue| <= |rx| && queue == rx[|rx| - |queue|..]
      invariant store.State() == Drained(old(store.State()), rx[..|rx| - |queue|])
      decreases |queue|
    {
      var record := queue[0];
      var done := |rx| - |queue|;
      assert rx[..done + 1][..done] == rx[..done];
      var _ := store.RecordBan(record);
      queue := queue[1..];
    }
    assert rx[..|rx|] == rx;
  }

  // ---- the command line while the daemon is down ----

  /** One turn of the offline loop of `exec_cli_ban`. */
  method BanOneOffline(codec: Codec, store: QuarantineStore, raw: string, order: BanOrder)
    returns (r: Result<Option<string>, StoreError>)
    requires order.now < SQLITE_LIMIT
    modifies store
    ensures var es := TargetEvents(codec, raw, order);
      && (r.Ok? <==> es == [] || order.expiresAt < SQLITE_LIMIT)
      && (r.Ok? ==> Cidrs(es) == if r.value.Some? then [r.value.value] else [])
      && store.State() == RunTable(old(store.State()), es)
  {
    var resolved := ResolveTarget(codec, raw, order.exact);
    if resolved.None? {
      return Ok(None);
    }
    var (net, trigger) := resolved.value;
    var rec := RecordFor(codec, net, trigger, order);
    assert [BanNet(net, rec)][..0] == [];
    var stored := store.RecordBan(rec);
    if stored.Err? {
      return Err(stored.error);
    }
    return Ok(Some(rec.cidr));
  }

  /** The offline half of `exec_cli_ban`; unlike the daemon it stops at the first failed write. */
  method ExecCliBanOffline(codec: Codec, store: QuarantineStore, targets: seq<string>, order: BanOrder)
    returns (r: Result<seq<string>, StoreError>)
    requires order.now < SQLITE_LIMIT
    modifies store
    ensures var events := BanEvents(codec, targets, order);
      && (r.Ok? <==> events == [] || order.expiresAt < SQLITE_LIMIT)
      && (r.Ok? ==> r.value == Cidrs(events))
      && store.State() == RunTable(old(store.State()), events)
    ensures Lawful(codec) ==>
      RowsBannedAsAsked(codec, old(store.rows), store.rows, targets, order.exact,
                        order.reason, order.now, order.expiresAt)
  {
    if Lawful(codec) {
      TableBansAsAsked(codec, store.State(), targets, order);
    }
    var bannedCidrs := [];
    for i := 0 to |targets|
      invariant bannedCidrs == Cidrs(BanEvents(codec, targets[..i], order))
      invariant BanEvents(codec, targets[..i], order) == [] || order.expiresAt < SQLITE_LIMIT
      invariant store.State() == RunTable(old(store.State()), BanEvents(codec, targets[..i], order))
    {
      BanEventsStep(codec, targets, i, order);
      RunTableAppend(old(store.State()), BanEvents(codec, targets[..i], order), TargetEvents(codec, targets[i], order));
      var banned := BanOneOffline(codec, store, targets[i], order);
      if banned.Err? {
        UnfittingBansStoreNothing(codec, old(store.State()), targets, i, order);
        UnfittingBansStoreNothing(codec, old(store.State()), targets[..i + 1], i, order);
        return Err(banned.error);
      }
      if banned.value.Some? {
        bannedCidrs := bannedCidrs + [banned.value.value];
      }
    }
    assert targets[..|targets|] == targets;
    return Ok(bannedCidrs);
  }

  lemma {:induction false} UnfittingBansStoreNothing(codec: Codec, t: Table, targets: seq<string>, i: nat,
                                                     order: BanOrder)
    requires i < |targets| && TargetEvents(codec, targets[i], order) != []
    requires order.expiresAt >= SQLITE_LIMIT
    ensures BanEvents(codec, targets, order) != []
    ensures RunTable(t, BanEvents(codec, targets, order)) == t
  {
    var es := BanEvents(codec, targets, order);
    AllUnfitting(t, es);
    NonEmptyTarget(codec, targets, i, order);
  }

  lemma {:induction false} NonEmptyTarget(codec: Codec, targets: seq<string>, i: nat, order: BanOrder)
    requires i < |targets| && TargetEvents(codec, targets[i], order) != []
    ensures BanEvents(codec, targets, order) != []
  {
    if i < |targets| - 1 {
      NonEmptyTarget(codec, targets[..|targets| - 1], i, order);
    }
  }

  lemma {:induction false} AllUnfitting(t: Table, es: seq<Event>)
    requires forall i :: 0 <= i < |es| ==> es[i].BanNet? && !Fits(es[i].rec)
    ensures RunTable(t, es) == t
  {
    if es != [] {
      AllUnfitting(t, es[..|es| - 1]);
    }
  }

  function AllHits(es: seq<Event>): seq<string>
    requires forall i :: 0 <= i < |es| ==> es[i].UnbanTarget?
  {
    if es == [] then [] else AllHits(es[..|es| - 1]) + es[|es| - 1].hits
  }

  lemma AllHitsAppend(es: seq<Event>, e: Event)
    requires e.UnbanTarget? && forall i :: 0 <= i < |es| ==> es[i].UnbanTarget?
    ensures AllHits(es + [e]) == AllHits(es) + e.hits
  {
    assert (es + [e])[..|es|] == es;
  }

  method UnbanOneOffline(codec: Codec, store: QuarantineStore, target: string, now: nat)
    returns (cidrs: seq<string>)
    requires now < SQLITE_LIMIT
    modifies store
    ensures var e := UnbanTarget(target, OFFLINE_DETAILS, now, cidrs);
      Possible(codec, old(store.State()), e) && store.State() == StepTable(old(store.State()), e)
  {
    var r := store.Unban(codec, target, OFFLINE_DETAILS, now);
    cidrs := r.value;
  }

  /** The steps and the listed rows of an offline unban command. */
  ghost predicate OfflineUnbans(codec: Codec, t: Table, targets: seq<string>, now: nat,
                                events: seq<Event>, cidrs: seq<string>)
  {
    && UnbanEvents(events, targets, OFFLINE_DETAILS, now)
    && PossibleTableRun(codec, t, events)
    && cidrs == AllHits(events)
  }

  lemma OfflineUnbansStep(codec: Codec, t: Table, targets: seq<string>, i: nat, now: nat,
                          events: seq<Event>, cidrs: seq<string>, hits: seq<string>)
    requires i < |targets| && OfflineUnbans(codec, t, targets[..i], now, events, cidrs)
    requires Possible(codec, RunTable(t, events), UnbanTarget(targets[i], OFFLINE_DETAILS, now, hits))
    ensures var e := UnbanTarget(targets[i], OFFLINE_DETAILS, now, hits);
      && OfflineUnbans(codec, t, targets[..i + 1], now, events + [e], cidrs + hits)
      && RunTable(t, events + [e]) == StepTable(RunTable(t, events), e)
  {
    var e := UnbanTarget(targets[i], OFFLINE_DETAILS, now, hits);
    OneMoreUnban(events, targets, i, e, OFFLINE_DETAILS, now);
    ExtendTableRun(codec, t, events, e);
    AllHitsAppend(events, e);
  }

  /** The offline half of `quarantine unban`. */
  method ExecCliUnbanOffline(codec: Codec, store: QuarantineStore, targets: seq<string>, now: nat)
    returns (allCidrs: seq<string>, ghost events: seq<Event>)
    requires now < SQLITE_LIMIT
    modifies store
    ensures UnbanEvents(events, targets, "Offline CLI unban", now)
    ensures PossibleTableRun(codec, old(store.State()), events)
    ensures store.State() == RunTable(old(store.State()), events)
    ensures allCidrs == AllHits(events)
  {
    allCidrs, events := [], [];
    ghost var start := store.State();
    for i := 0 to |targets|
      invariant OfflineUnbans(codec, start, targets[..i], now, events, allCidrs)
      invariant store.State() == RunTable(start, events)
    {
      var cidrs := UnbanOneOffline(codec, store, targets[i], now);
      OfflineUnbansStep(codec, start, targets, i, now, events, allCidrs, cidrs);
      allCidrs := allCidrs + cidrs;
      events := events + [UnbanTarget(targets[i], OFFLINE_DETAILS, now, cidrs)];
    }
    assert targets[..|targets|] == targets;
  }

  /** The offline half of `quarantine clear`. */
  method ExecCliClearOffline(codec: Codec, store: QuarantineStore, now: nat) returns (count: nat, ghost e: Event)
    requires now < SQLITE_LIMIT
    modifies store
    ensures e.Clear? && e.details == "Offline CLI unban_all" && e.now == now && count == |e.hits|
    ensures Possible(codec, old(store.State()), e)
    ensures store.State() == StepTable(old(store.State()), e)
  {
    var r, hits := store.UnbanAll(OFFLINE_CLEAR_DETAILS, now);
    count := r.value;
    e := Clear(OFFLINE_CLEAR_DETAILS, now, hits);
  }
}
