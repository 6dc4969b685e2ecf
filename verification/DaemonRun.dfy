/**
 The life of a daemon on one database: boot, then any list of operator commands, restarts among
 them. The methods of `QuarantineDaemon` are chained, and memory and store are proved to answer
 alike when the list is done.
 */
module DaemonRun {
  import opened Wrappers
  import opened Networks
  import opened QuarantineTable
  import opened QuarantineDb
  import opened Enforcement
  import opened TargetResolution
  import opened QuarantineDaemon

  datatype Command =
    | BanTargets(targets: seq<string>, reason: Option<string>, durationSecs: Option<nat>, exact: bool, now: nat)
    | UnbanTargets(targets: seq<string>, now: nat)
    | UnbanEverything(now: nat)
    | Reboot(now: nat)

  /** Storable expiries and properly spelt networks. */
  predicate Proper(codec: Codec, cmd: Command) {
    match cmd
    case BanTargets(_, reason, durationSecs, exact, now) =>
      OrderOf(reason, durationSecs, exact, now).expiresAt < SQLITE_LIMIT
    case UnbanTargets(targets, _) => forall i :: 0 <= i < |targets| ==> !Misspelt(codec, targets[i])
    case _ => true
  }

  function Latest(clock: nat, commands: seq<Command>): nat {
    if commands == [] then clock else Max(Latest(clock, commands[..|commands| - 1]), commands[|commands| - 1].now)
  }

  predicate NoneLater(es: seq<Event>, clock: nat) {
    forall i :: 0 <= i < |es| ==> Time(es[i]) <= clock
  }

  lemma {:induction false} ClockBounded(clock: nat, es: seq<Event>, limit: nat)
    requires clock <= limit && NoneLater(es, limit)
    ensures Clock(clock, es) <= limit
  {
    if es != [] {
      ClockBounded(clock, es[..|es| - 1], limit);
    }
  }

  lemma BanStepsAreProper(codec: Codec, targets: seq<string>, order: BanOrder)
    ensures NoneLater(BanEvents(codec, targets, order), order.now)
    ensures order.expiresAt < SQLITE_LIMIT ==> AllAdmissible(codec, BanEvents(codec, targets, order))
  {
  }

  lemma UnbanStepsAreProper(codec: Codec, events: seq<Event>, targets: seq<string>, details: string, now: nat)
    requires UnbanEvents(events, targets, details, now)
    ensures NoneLater(events, now)
    ensures (forall i :: 0 <= i < |targets| ==> !Misspelt(codec, targets[i])) ==> AllAdmissible(codec, events)
  {
  }

  lemma OneStep(codec: Codec, start: Sys, e: Event)
    requires Possible(codec, start.table, e)
    ensures PossibleRun(codec, start, [e]) && RunSys(codec, start, [e]) == Step(codec, start, e)
    ensures NoneLater([e], Time(e)) && (Admissible(codec, e) ==> AllAdmissible(codec, [e]))
  {
    assert [e][..0] == [];
  }

  /** One command; a reboot loses memory and loads a new one from the store. */
  method Dispatch(codec: Codec, mem: AutonomousQuarantine, store: QuarantineStore, cmd: Command)
    returns (next: AutonomousQuarantine, ghost events: seq<Event>)
    requires Lawful(codec) && WellKept(codec, store.State()) && cmd.now < SQLITE_LIMIT
    modifies mem, store
    ensures next == mem || fresh(next)
    ensures PossibleRun(codec, old(SysOf(mem, store)), events)
    ensures SysOf(next, store) == RunSys(codec, old(SysOf(mem, store)), events)
    ensures NoneLater(events, cmd.now)
    ensures Proper(codec, cmd) ==> AllAdmissible(codec, events)
  {
    next := mem;
    ghost var start := SysOf(mem, store);
    match cmd
    case BanTargets(targets, reason, durationSecs, exact, now) =>
      var order := OrderOf(reason, durationSecs, exact, now);
      events := BanEvents(codec, targets, order);
      BanStepsAreProper(codec, targets, order);
      var _ := ExecBan(codec, mem, store, targets, reason, durationSecs, exact, now);
    case UnbanTargets(targets, now) =>
      var _, _, unbans := ExecUnban(codec, mem, store, targets, now);
      events := unbans;
      UnbanStepsAreProper(codec, events, targets, LIVE_DETAILS, now);
    case UnbanEverything(now) =>
      var _, clear := ExecUnbanAll(codec, mem, store, now);
      events := [clear];
      OneStep(codec, start, clear);
    case Reboot(now) =>
      next := new AutonomousQuarantine();
      var _ := Rehydrate(codec, next, store, now);
      events := [Restart(now)];
      OneStep(codec, start, Restart(now));
  }

  /** What is known of the steps taken since boot. */
  ghost predicate ServedSoFar(codec: Codec, start: Sys, es: seq<Event>, clock: nat) {
    PossibleRun(codec, start, es) && AllAdmissible(codec, es) && NoneLater(es, clock)
  }

  lemma ServeMore(codec: Codec, start: Sys, es: seq<Event>, clock: nat, more: seq<Event>, later: nat)
    requires ServedSoFar(codec, start, es, clock) && clock <= later
    requires ServedSoFar(codec, RunSys(codec, start, es), more, later)
    ensures ServedSoFar(codec, start, es + more, later)
    ensures RunSys(codec, start, es + more) == RunSys(codec, RunSys(codec, start, es), more)
  {
    PossibleRunAppend(codec, start, es, more);
    RunSysAppend(codec, start, es, more);
  }

  lemma BootIsInSync(codec: Codec, s: Sys, boot: nat)
    requires Lawful(codec) && WellKept(codec, s.table) && |s.table.log| < U32_LIMIT
    ensures InSync(codec, Step(codec, s, Restart(boot)), boot)
  {
    forall c { CountBansBounded(s.table.log, c); }
    RestartRestoresSyncExactlyWhenReadable(codec, s, boot, boot);
  }

  lemma ServedAgrees(codec: Codec, empty: Sys, boot: nat, es: seq<Event>, clock: nat)
    requires Lawful(codec) && WellKept(codec, empty.table) && boot <= clock
    requires ServedSoFar(codec, Step(codec, empty, Restart(boot)), es, clock)
    ensures var end := RunSys(codec, Step(codec, empty, Restart(boot)), es);
      WellKept(codec, end.table) && (|end.table.log| < U32_LIMIT ==> Agree(codec, end, clock))
  {
    var start := Step(codec, empty, Restart(boot));
    RunKeepsWellKept(codec, start, es);
    if |RunSys(codec, start, es).table.log| < U32_LIMIT {
      BootIsInSync(codec, empty, boot);
      CacheAgreement(codec, start, boot, es);
      ClockBounded(boot, es, clock);
    }
  }

  /** What is known of the steps of the first commands. */
  ghost predicate Served(codec: Codec, start: Sys, es: seq<Event>, boot: nat, commands: seq<Command>) {
    ServedSoFar(codec, start, es, Latest(boot, commands)) && boot <= Latest(boot, commands)
  }

  lemma ServedStep(codec: Codec, start: Sys, es: seq<Event>, boot: nat, commands: seq<Command>,
                   k: nat, more: seq<Event>)
    requires k < |commands| && Served(codec, start, es, boot, commands[..k])
    requires PossibleRun(codec, RunSys(codec, start, es), more) && AllAdmissible(codec, more)
    requires NoneLater(more, commands[k].now)
    ensures Served(codec, start, es + more, boot, commands[..k + 1])
    ensures RunSys(codec, start, es + more) == RunSys(codec, RunSys(codec, start, es), more)
  {
    assert commands[..k + 1][..k] == commands[..k];
    ServeMore(codec, start, es, Latest(boot, commands[..k]), more, Latest(boot, commands[..k + 1]));
  }

  /** A new process loads its memory from the store. */
  method BootDaemon(codec: Codec, store: QuarantineStore, boot: nat) returns (mem: AutonomousQuarantine)
    requires Lawful(codec) && WellKept(codec, store.State()) && boot < SQLITE_LIMIT
    ensures fresh(mem) && SysOf(mem, store) == Step(codec, Sys(map[], store.State()), Restart(boot))
  {
    mem := new AutonomousQuarantine();
    var _ := Rehydrate(codec, mem, store, boot);
  }

  /** One turn of the daemon's life. */
  method Serve(codec: Codec, mem: AutonomousQuarantine, store: QuarantineStore, cmd: Command,
               ghost start: Sys, ghost es: seq<Event>)
    returns (next: AutonomousQuarantine, ghost more: seq<Event>)
    requires Lawful(codec) && WellKept(codec, start.table) && cmd.now < SQLITE_LIMIT && Proper(codec, cmd)
    requires PossibleRun(codec, start, es) && SysOf(mem, store) == RunSys(codec, start, es)
    modifies mem, store
    ensures next == mem || fresh(next)
    ensures PossibleRun(codec, RunSys(codec, start, es), more) && AllAdmissible(codec, more) && NoneLater(more, cmd.now)
    ensures SysOf(next, store) == RunSys(codec, RunSys(codec, start, es), more)
  {
    RunKeepsWellKept(codec, start, es);
    next, more := Dispatch(codec, mem, store, cmd);
  }

  method ServeAll(codec: Codec, first: AutonomousQuarantine, store: QuarantineStore, boot: nat, commands: seq<Command>)
    returns (mem: AutonomousQuarantine, ghost es: seq<Event>)
    requires Lawful(codec) && WellKept(codec, store.State())
    requires forall i :: 0 <= i < |commands| ==> commands[i].now < SQLITE_LIMIT && Proper(codec, commands[i])
    modifies first, store
    ensures Served(codec, old(SysOf(first, store)), es, boot, commands)
    ensures SysOf(mem, store) == RunSys(codec, old(SysOf(first, store)), es)
  {
    mem, es := first, [];
    ghost var start := SysOf(first, store);
    for k := 0 to |commands|
      invariant mem == first || fresh(mem)
      invariant Served(codec, start, es, boot, commands[..k])
      invariant SysOf(mem, store) == RunSys(codec, start, es)
    {
      ghost var more;
      mem, more := Serve(codec, mem, store, commands[k], start, es);
      ServedStep(codec, start, es, boot, commands, k, more);
      es := es + more;
    }
    assert commands[..|commands|] == commands;
  }

  /**
   A daemon boots on a database as the modelled paths leave it and carries out a list of proper
   commands. Afterwards memory and store answer alike for every address at every time not before
   the latest command, while the log is shorter than 2^32 entries.
   */
  method RunDaemon(codec: Codec, store: QuarantineStore, boot: nat, commands: seq<Command>)
    returns (mem: AutonomousQuarantine)
    requires Lawful(codec) && WellKept(codec, store.State()) && boot < SQLITE_LIMIT
    requires forall i :: 0 <= i < |commands| ==> commands[i].now < SQLITE_LIMIT && Proper(codec, commands[i])
    modifies store
    ensures WellKept(codec, store.State())
    ensures |store.log| < U32_LIMIT ==> Agree(codec, SysOf(mem, store), Latest(boot, commands))
  {
    ghost var empty := Sys(map[], store.State());
    var booted := BootDaemon(codec, store, boot);
    ghost var es;
    mem, es := ServeAll(codec, booted, store, boot, commands);
    ServedAgrees(codec, empty, boot, es, Latest(boot, commands));
  }
}
