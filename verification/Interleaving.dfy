/**
 The same daemon with its commands taken apart. A ban, an unban and a clear write memory and the
 store in two separate steps, a trap writes memory and then sends a record to the queue, and one
 worker takes records off the queue and stores them. A record that does not fit the store is dropped
 when its turn comes, as the code ignores or only logs the error. Any of these steps may come between any
 others, as the connection and request tasks of the daemon run on several threads.
 */
module Interleaving {
  import opened Wrappers
  import opened Text
  import opened Networks
  import opened QuarantineTable
  import opened StoreHistory
  import opened Enforcement

  /** A record on its way to the store, with the network its key names. */
  datatype Job = Job(net: Net, rec: Record)

  /** Accepted records that have not reached the store. */
  datatype Flight = Flight(
    bans: multiset<Job>,    // memory written, store write still to come
    traps: multiset<Job>,   // trap handled in memory, record not yet sent
    queue: seq<Job>,
    hand: Option<Job>)      // taken by the worker, not yet stored

  datatype History = History(
    accepted: multiset<Job>,
    stored: seq<Job>,
    dropped: seq<Job>,      // refused by the store, the error ignored or only logged
    sent: seq<Job>,
    handled: seq<Job>)      // stored or dropped by the worker

  datatype Daemon = Daemon(mem: map<Net, nat>, table: Table, flight: Flight, history: History)

  datatype Micro =
    | BanMemory(job: Job)
    | BanStore(job: Job)
    | TrapMemory(job: Job, enforced: Option<nat>)
    | TrapSend(job: Job)
    | WorkerReceive
    | WorkerStore
    | UnbanMemory(target: string)
    | UnbanStore(target: string, hits: seq<string>, now: nat)
    | ClearMemory
    | ClearStore(hits: seq<string>, now: nat)

  /** A record as the callers build it; its expiry need not fit the store. */
  predicate GoodJob(codec: Codec, job: Job) {
    RecordOfNet(codec, job.net, job.rec)
  }

  ghost predicate CanStep(codec: Codec, d: Daemon, m: Micro) {
    match m
    case BanMemory(job) => GoodJob(codec, job)
    case BanStore(job) => job in d.flight.bans
    case TrapMemory(job, _) => GoodJob(codec, job)
    case TrapSend(job) => job in d.flight.traps
    case WorkerReceive => d.flight.hand == None && d.flight.queue != []
    case WorkerStore => d.flight.hand.Some?
    case UnbanMemory(_) => true
    case UnbanStore(target, hits, now) => now < SQLITE_LIMIT && Lists(hits, Hits(codec, d.table.rows, target))
    case ClearMemory => true
    case ClearStore(hits, now) => now < SQLITE_LIMIT && Lists(hits, ActiveKeys(d.table.rows))
  }

  /** The step calls `record_ban`. */
  predicate Stores(m: Micro) { m.BanStore? || m.WorkerStore? }

  /** The step takes on a record. */
  predicate TakesOn(m: Micro) { m.BanMemory? || m.TrapMemory? }

  /** The worker has something to take, or to store. */
  predicate Ready(f: Flight, m: Micro) {
    (m.WorkerReceive? ==> f.queue != []) && (m.WorkerStore? ==> f.hand.Some?)
  }

  function StoredJob(f: Flight, m: Micro): Job
    requires Stores(m) && Ready(f, m)
  {
    if m.BanStore? then m.job else f.hand.value
  }

  // ---- a step, part by part ----

  function MemoryAfter(codec: Codec, mem: map<Net, nat>, m: Micro): map<Net, nat> {
    match m
    case BanMemory(job) => mem[job.net := job.rec.expiresAt]
    case TrapMemory(job, enforced) => if enforced.Some? then mem[job.net := enforced.value] else mem
    case UnbanMemory(target) => MemUnban(codec, mem, target)
    case ClearMemory => map[]
    case _ => mem
  }

  /** `record_ban`, whose failure changes nothing. */
  function TableWith(t: Table, rec: Record): Table {
    if Fits(rec) then AfterBan(t, rec) else t
  }

  function TableAfter(t: Table, f: Flight, m: Micro): Table
    requires Ready(f, m)
  {
    match m
    case BanStore(job) => TableWith(t, job.rec)
    case WorkerStore => TableWith(t, f.hand.value.rec)
    case UnbanStore(_, hits, now) => AfterUnban(t, hits, Unbanned, now, LIVE_DETAILS)
    case ClearStore(hits, now) => AfterUnban(t, hits, UnbannedAll, now, LIVE_CLEAR_DETAILS)
    case _ => t
  }

  function FlightAfter(f: Flight, m: Micro): Flight
    requires Ready(f, m)
  {
    match m
    case BanMemory(job) => f.(bans := f.bans + multiset{job})
    case BanStore(job) => f.(bans := f.bans - multiset{job})
    case TrapMemory(job, _) => f.(traps := f.traps + multiset{job})
    case TrapSend(job) => f.(traps := f.traps - multiset{job}, queue := f.queue + [job])
    case WorkerReceive => f.(hand := Some(f.queue[0]), queue := f.queue[1..])
    case WorkerStore => f.(hand := None)
    case _ => f
  }

  function HistoryWith(h: History, job: Job): History {
    if Fits(job.rec) then h.(stored := h.stored + [job]) else h.(dropped := h.dropped + [job])
  }

  function HistoryAfter(h: History, f: Flight, m: Micro): History
    requires Ready(f, m)
  {
    match m
    case BanMemory(job) => h.(accepted := h.accepted + multiset{job})
    case BanStore(job) => HistoryWith(h, job)
    case TrapMemory(job, _) => h.(accepted := h.accepted + multiset{job})
    case TrapSend(job) => h.(sent := h.sent + [job])
    case WorkerStore => HistoryWith(h, f.hand.value).(handled := h.handled + [f.hand.value])
    case _ => h
  }

  function StepMicro(codec: Codec, d: Daemon, m: Micro): Daemon
    requires Ready(d.flight, m)
  {
    Daemon(MemoryAfter(codec, d.mem, m), TableAfter(d.table, d.flight, m),
           FlightAfter(d.flight, m), HistoryAfter(d.history, d.flight, m))
  }

  const NOTHING_IN_FLIGHT := Flight(multiset{}, multiset{}, [], None)
  const NO_HISTORY := History(multiset{}, [], [], [], [])

  function Boot(mem: map<Net, nat>, table: Table): Daemon {
    Daemon(mem, table, NOTHING_IN_FLIGHT, NO_HISTORY)
  }

  /** The daemon after the micro-steps, or `None` once some step was not possible. */
  ghost function Execute(codec: Codec, start: Daemon, ms: seq<Micro>): Option<Daemon> {
    if ms == [] then Some(start)
    else match Execute(codec, start, ms[..|ms| - 1])
      case None => None
      case Some(d) =>
        if CanStep(codec, d, ms[|ms| - 1]) then Some(StepMicro(codec, d, ms[|ms| - 1])) else None
  }

  // ---- the halves back to back are the atomic steps of `Enforcement` ----

  function Tiers(d: Daemon): Sys { Sys(d.mem, d.table) }

  lemma BanHalvesAreAtomic(codec: Codec, d: Daemon, job: Job)
    requires GoodJob(codec, job)
    ensures var d' := StepMicro(codec, StepMicro(codec, d, BanMemory(job)), BanStore(job));
      Tiers(d') == Step(codec, Tiers(d), BanNet(job.net, job.rec)) && d'.flight == d.flight
  {
    assert d.flight.bans + multiset{job} - multiset{job} == d.flight.bans;
  }

  lemma UnbanHalvesAreAtomic(codec: Codec, d: Daemon, target: string, hits: seq<string>, now: nat)
    ensures var d' := StepMicro(codec, StepMicro(codec, d, UnbanMemory(target)), UnbanStore(target, hits, now));
      Tiers(d') == Step(codec, Tiers(d), UnbanTarget(target, "Live IPC command", now, hits)) && d'.flight == d.flight
  {
  }

  lemma ClearHalvesAreAtomic(codec: Codec, d: Daemon, hits: seq<string>, now: nat)
    ensures var d' := StepMicro(codec, StepMicro(codec, d, ClearMemory), ClearStore(hits, now));
      Tiers(d') == Step(codec, Tiers(d), Clear("Live IPC unban_all command", now, hits)) && d'.flight == d.flight
  {
  }

  /** A trap that meets an empty queue and runs to its end is a ban, but for the expiry memory was given. */
  lemma TrapToTheEndIsABan(codec: Codec, d: Daemon, job: Job)
    requires GoodJob(codec, job) && d.flight == NOTHING_IN_FLIGHT
    ensures var d1 := StepMicro(codec, d, TrapMemory(job, Some(job.rec.expiresAt)));
      var d2 := StepMicro(codec, d1, TrapSend(job));
      var d3 := StepMicro(codec, d2, WorkerReceive);
      var d4 := StepMicro(codec, d3, WorkerStore);
      Tiers(d4) == Step(codec, Tiers(d), BanNet(job.net, job.rec)) && d4.flight == NOTHING_IN_FLIGHT
  {
    assert multiset{} + multiset{job} - multiset{job} == multiset{};
  }

  // ---- conservation: every accepted record is stored or dropped exactly once, trap records in order ----

  function InHand(f: Flight): seq<Job> {
    if f.hand.Some? then [f.hand.value] else []
  }

  /** The accepted records that have not reached the store yet. */
  function Pending(f: Flight): multiset<Job> {
    f.bans + f.traps + multiset(f.queue) + multiset(InHand(f))
  }

  /** In the flight the job of a step that takes one on is added, that of one that stores is taken off. */
  predicate PendingStep(f: Flight, m: Micro)
    requires Ready(f, m)
  {
    if TakesOn(m) then Pending(FlightAfter(f, m)) == Pending(f) + multiset{m.job}
    else if Stores(m) then Pending(FlightAfter(f, m)) + multiset{StoredJob(f, m)} == Pending(f)
    else Pending(FlightAfter(f, m)) == Pending(f)
  }

  // Sums of multisets, apart from what they stand for.

  lemma TakeOutFirst<T>(a: multiset<T>, b: multiset<T>, c: multiset<T>, d: multiset<T>, x: T)
    requires x in a
    ensures a - multiset{x} + b + c + d + multiset{x} == a + b + c + d
  {
  }

  lemma MoveOn<T>(a: multiset<T>, b: multiset<T>, c: multiset<T>, d: multiset<T>, x: T)
    requires x in b
    ensures a + (b - multiset{x}) + (c + multiset{x}) + d == a + b + c + d
  {
  }

  lemma AddFirst<T>(a: multiset<T>, b: multiset<T>, c: multiset<T>, d: multiset<T>, x: T)
    ensures a + multiset{x} + b + c + d == a + b + c + d + multiset{x}
    ensures a + (b + multiset{x}) + c + d == a + b + c + d + multiset{x}
  {
  }

  lemma SnocBag<T>(s: seq<T>, x: T)
    ensures multiset(s + [x]) == multiset(s) + multiset{x}
  {
  }

  lemma ConsBag<T>(s: seq<T>)
    requires s != []
    ensures multiset(s) == multiset(s[1..]) + multiset{s[0]}
  {
    assert s == [s[0]] + s[1..];
  }

  lemma PendingOfTakeOn(f: Flight, m: Micro)
    requires TakesOn(m) && Ready(f, m)
    ensures PendingStep(f, m)
  {
    AddFirst(f.bans, f.traps, multiset(f.queue), multiset(InHand(f)), m.job);
  }

  lemma PendingOfStore(f: Flight, m: Micro)
    requires Stores(m) && Ready(f, m) && (m.BanStore? ==> m.job in f.bans)
    ensures PendingStep(f, m) && StoredJob(f, m) in Pending(f)
  {
    if m.BanStore? {
      TakeOutFirst(f.bans, f.traps, multiset(f.queue), multiset(InHand(f)), m.job);
    } else {
      assert multiset(InHand(f)) == multiset{f.hand.value} && InHand(FlightAfter(f, m)) == [];
    }
  }

  lemma PendingOfSend(f: Flight, job: Job)
    requires job in f.traps
    ensures Pending(FlightAfter(f, TrapSend(job))) == Pending(f)
  {
    SnocBag(f.queue, job);
    MoveOn(f.bans, f.traps, multiset(f.queue), multiset(InHand(f)), job);
  }

  lemma PendingOfReceive(f: Flight)
    requires f.hand == None && f.queue != []
    ensures Pending(FlightAfter(f, WorkerReceive)) == Pending(f)
  {
    ConsBag(f.queue);
    assert InHand(f) == [] && InHand(FlightAfter(f, WorkerReceive)) == [f.queue[0]];
  }

  lemma PendingAfter(codec: Codec, d: Daemon, m: Micro)
    requires CanStep(codec, d, m)
    ensures PendingStep(d.flight, m) && (Stores(m) ==> StoredJob(d.flight, m) in Pending(d.flight))
  {
    if TakesOn(m) {
      PendingOfTakeOn(d.flight, m);
    } else if Stores(m) {
      PendingOfStore(d.flight, m);
    } else if m.TrapSend? {
      PendingOfSend(d.flight, m.job);
    } else if m.WorkerReceive? {
      PendingOfReceive(d.flight);
    }
  }

  function CountStored(stored: seq<Job>, c: string): nat {
    if stored == [] then 0
    else CountStored(stored[..|stored| - 1], c) + if stored[|stored| - 1].rec.cidr == c then 1 else 0
  }

  function Filed(h: History): multiset<Job> {
    multiset(h.stored) + multiset(h.dropped)
  }

  predicate Accounted(f: Flight, h: History) {
    h.accepted == Filed(h) + Pending(f)
  }

  /** The store keeps what fits a SQLite integer and drops the rest. */
  predicate SortedByFit(h: History) {
    && (forall i :: 0 <= i < |h.stored| ==> Fits(h.stored[i].rec))
    && (forall i :: 0 <= i < |h.dropped| ==> !Fits(h.dropped[i].rec))
  }

  predicate InOrder(f: Flight, h: History) {
    h.sent == h.handled + InHand(f) + f.queue
  }

  ghost predicate LogCounts(start: Daemon, d: Daemon) {
    forall c :: CountBans(d.table.log, c) == CountBans(start.table.log, c) + CountStored(d.history.stored, c)
  }

  ghost predicate Conserved(start: Daemon, d: Daemon) {
    && Accounted(d.flight, d.history) && SortedByFit(d.history)
    && InOrder(d.flight, d.history) && LogCounts(start, d)
  }

  /** The store call files the record in exactly one of the two histories. */
  lemma FiledOnce(h: History, job: Job)
    requires SortedByFit(h)
    ensures Filed(HistoryWith(h, job)) == Filed(h) + multiset{job} && SortedByFit(HistoryWith(h, job))
  {
    SnocBag(h.stored, job);
    SnocBag(h.dropped, job);
  }

  lemma HistoryOfStore(f: Flight, h: History, m: Micro)
    requires Stores(m) && Ready(f, m)
    ensures var filed, h' := HistoryWith(h, StoredJob(f, m)), HistoryAfter(h, f, m);
      h'.accepted == h.accepted && h'.stored == filed.stored && h'.dropped == filed.dropped
  {
  }

  lemma Refile<T>(filed: multiset<T>, filed': multiset<T>, pending: multiset<T>, pending': multiset<T>, x: T)
    requires filed' == filed + multiset{x} && pending' + multiset{x} == pending
    ensures filed' + pending' == filed + pending
  {
    assert pending' + multiset{x} == multiset{x} + pending';
  }

  lemma StoreStaysAccounted(f: Flight, h: History, m: Micro)
    requires Accounted(f, h) && SortedByFit(h)
    requires Stores(m) && Ready(f, m) && PendingStep(f, m)
    ensures Accounted(FlightAfter(f, m), HistoryAfter(h, f, m)) && SortedByFit(HistoryAfter(h, f, m))
  {
    var job, h' := StoredJob(f, m), HistoryAfter(h, f, m);
    FiledOnce(h, job);
    HistoryOfStore(f, h, m);
    Refile(Filed(h), Filed(h'), Pending(f), Pending(FlightAfter(f, m)), job);
  }

  lemma OtherStaysAccounted(f: Flight, h: History, m: Micro)
    requires Accounted(f, h) && SortedByFit(h)
    requires !Stores(m) && Ready(f, m) && PendingStep(f, m)
    ensures Accounted(FlightAfter(f, m), HistoryAfter(h, f, m)) && SortedByFit(HistoryAfter(h, f, m))
  {
    assert HistoryAfter(h, f, m).stored == h.stored && HistoryAfter(h, f, m).dropped == h.dropped;
  }

  lemma StepStaysAccounted(codec: Codec, d: Daemon, m: Micro)
    requires Accounted(d.flight, d.history) && SortedByFit(d.history) && CanStep(codec, d, m)
    ensures var d' := StepMicro(codec, d, m); Accounted(d'.flight, d'.history) && SortedByFit(d'.history)
  {
    PendingAfter(codec, d, m);
    if Stores(m) {
      StoreStaysAccounted(d.flight, d.history, m);
    } else {
      OtherStaysAccounted(d.flight, d.history, m);
    }
  }

  lemma StepStaysInOrder(f: Flight, h: History, m: Micro)
    requires InOrder(f, h) && Ready(f, m) && (m.WorkerReceive? ==> f.hand == None)
    ensures InOrder(FlightAfter(f, m), HistoryAfter(h, f, m))
  {
    var f', h' := FlightAfter(f, m), HistoryAfter(h, f, m);
    if m.TrapSend? {
      Regroup(h.handled + InHand(f), f.queue, [m.job]);
    } else if m.WorkerReceive? {
      assert InHand(f) == [] && InHand(f') == [f.queue[0]] && f.queue == InHand(f') + f'.queue;
    } else if m.WorkerStore? {
      assert InHand(f) == [f.hand.value] && InHand(f') == [] && h'.handled == h.handled + InHand(f);
    } else {
      assert h'.sent == h.sent && h'.handled == h.handled && f'.queue == f.queue && f'.hand == f.hand;
    }
  }

  lemma StoreCountsOnce(t: Table, h: History, job: Job, c: string)
    ensures CountBans(TableWith(t, job.rec).log, c) - CountStored(HistoryWith(h, job).stored, c)
         == CountBans(t.log, c) - CountStored(h.stored, c)
  {
    if Fits(job.rec) {
      assert AfterBan(t, job.rec).log[..|t.log|] == t.log;
      assert HistoryWith(h, job).stored[..|h.stored|] == h.stored;
    }
  }

  lemma StepKeepsLogCounts(codec: Codec, start: Daemon, d: Daemon, m: Micro)
    requires LogCounts(start, d) && CanStep(codec, d, m)
    ensures LogCounts(start, StepMicro(codec, d, m))
  {
    var d' := StepMicro(codec, d, m);
    forall c
      ensures CountBans(d'.table.log, c) - CountStored(d'.history.stored, c)
           == CountBans(d.table.log, c) - CountStored(d.history.stored, c)
    {
      if m.UnbanStore? {
        AppendUnbans(d.table.log, m.hits, Unbanned, m.now, LIVE_DETAILS, c);
      } else if m.ClearStore? {
        AppendUnbans(d.table.log, m.hits, UnbannedAll, m.now, LIVE_CLEAR_DETAILS, c);
      } else if Stores(m) {
        StoreCountsOnce(d.table, d.history, StoredJob(d.flight, m), c);
      }
    }
  }

  /**
   In every interleaving each accepted record is still in flight, or stored exactly once if it
   fits, or dropped exactly once if it does not; the audit log counts exactly the stored ones, and
   the records sent are those the worker handled, then the one in its hand, then the queue.
   */
  lemma {:induction false} NothingIsLostOrRepeated(codec: Codec, mem: map<Net, nat>, table: Table, ms: seq<Micro>)
    ensures var d := Execute(codec, Boot(mem, table), ms); d.Some? ==> Conserved(Boot(mem, table), d.value)
  {
    if ms != [] {
      NothingIsLostOrRepeated(codec, mem, table, ms[..|ms| - 1]);
      var before := Execute(codec, Boot(mem, table), ms[..|ms| - 1]);
      if before.Some? && CanStep(codec, before.value, ms[|ms| - 1]) {
        StepStaysAccounted(codec, before.value, ms[|ms| - 1]);
        StepStaysInOrder(before.value.flight, before.value.history, ms[|ms| - 1]);
        StepKeepsLogCounts(codec, Boot(mem, table), before.value, ms[|ms| - 1]);
      }
    }
  }

  // ---- the audit log stays decisive ----

  ghost predicate GoodPending(codec: Codec, d: Daemon) {
    forall job :: job in Pending(d.flight) ==> GoodJob(codec, job)
  }

  lemma StepKeepsGoodPending(codec: Codec, d: Daemon, m: Micro)
    requires GoodPending(codec, d) && CanStep(codec, d, m)
    ensures GoodPending(codec, StepMicro(codec, d, m))
  {
    PendingAfter(codec, d, m);
  }

  lemma StepKeepsLogExplains(codec: Codec, d: Daemon, m: Micro)
    requires GoodPending(codec, d) && LogExplains(d.table) && CanStep(codec, d, m)
    ensures LogExplains(TableAfter(d.table, d.flight, m))
  {
    if Stores(m) {
      PendingAfter(codec, d, m);
      BanKeepsLogExplains(d.table, StoredJob(d.flight, m).rec);
    } else if m.UnbanStore? {
      assert Hits(codec, d.table.rows, m.target) <= ActiveKeys(d.table.rows);
      UnbanKeepsLogExplains(d.table, m.hits, Unbanned, m.now, LIVE_DETAILS);
    } else if m.ClearStore? {
      UnbanKeepsLogExplains(d.table, m.hits, UnbannedAll, m.now, LIVE_CLEAR_DETAILS);
    }
  }

  /** In every interleaving, clean or not, the log says which rows exist and which are active. */
  lemma {:induction false} EveryInterleavingKeepsLogExplains(codec: Codec, start: Daemon, ms: seq<Micro>)
    requires GoodPending(codec, start) && LogExplains(start.table)
    ensures var d := Execute(codec, start, ms); d.Some? ==> GoodPending(codec, d.value) && LogExplains(d.value.table)
  {
    if ms != [] {
      EveryInterleavingKeepsLogExplains(codec, start, ms[..|ms| - 1]);
      var before := Execute(codec, start, ms[..|ms| - 1]);
      if before.Some? && CanStep(codec, before.value, ms[|ms| - 1]) {
        StepKeepsGoodPending(codec, before.value, ms[|ms| - 1]);
        StepKeepsLogExplains(codec, before.value, ms[|ms| - 1]);
      }
    }
  }
}
