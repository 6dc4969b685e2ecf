/**
 Which bans survive the interleavings of `Interleaving`. A network enforced in memory is safe when
 it has an active row or a record in flight that the store will keep. A ban whose record does not
 fit the store puts a network into memory without that, and the store half of an unban or clear may
 take it away; the condition under which neither happens is exact, step by step and over whole
 runs. The other direction of the race, an unban overtaken by a record in flight, has its exact
 condition too, and so has what a crash leaves behind.
 */
module LostBans {
  import opened Wrappers
  import opened Networks
  import opened QuarantineTable
  import opened StoreHistory
  import opened Enforcement
  import opened Interleaving

  // ---- no enforced network is lost ----

  /** A record of the network is among the jobs, and the store will keep it. */
  predicate Carries(jobs: multiset<Job>, n: Net) {
    exists job :: job in jobs && job.net == n && Fits(job.rec)
  }

  predicate RowActive(codec: Codec, rows: map<string, Record>, n: Net) {
    codec.showNet(n) in rows && rows[codec.showNet(n)].active
  }

  /** The network has an active row or a storable record in flight. */
  predicate Backed(codec: Codec, d: Daemon, n: Net) {
    RowActive(codec, d.table.rows, n) || Carries(Pending(d.flight), n)
  }

  /** Every network enforced in memory is backed. */
  ghost predicate Covered(codec: Codec, d: Daemon) {
    forall n :: n in d.mem ==> Backed(codec, d, n)
  }

  /** Each deactivated row whose network memory enforces has a storable record in flight. */
  ghost predicate EnforcedHitsInFlight(codec: Codec, d: Daemon, hits: seq<string>) {
    forall n :: n in d.mem && codec.showNet(n) in hits ==> Carries(Pending(d.flight), n)
  }

  /** The record fits the store, or its network needs no record. */
  predicate SafeToEnforce(codec: Codec, d: Daemon, job: Job) {
    Fits(job.rec) || Backed(codec, d, job.net)
  }

  /** The steps that can lose a ban are those that enforce one and the store halves of unbans and clears. */
  ghost predicate Clean(codec: Codec, d: Daemon, m: Micro) {
    match m
    case BanMemory(job) => SafeToEnforce(codec, d, job)
    case TrapMemory(job, enforced) => enforced.Some? ==> SafeToEnforce(codec, d, job)
    case UnbanStore(_, hits, _) => EnforcedHitsInFlight(codec, d, hits)
    case ClearStore(hits, _) => EnforcedHitsInFlight(codec, d, hits)
    case _ => true
  }

  lemma CarriesOneMore(jobs: multiset<Job>, job: Job, n: Net)
    ensures Carries(jobs + multiset{job}, n) <==> Carries(jobs, n) || (job.net == n && Fits(job.rec))
  {
    assert job in jobs + multiset{job};
    if Carries(jobs, n) {
      var other :| other in jobs && other.net == n && Fits(other.rec);
      assert other in jobs + multiset{job};
    }
    if Carries(jobs + multiset{job}, n) {
      var other :| other in jobs + multiset{job} && other.net == n && Fits(other.rec);
      assert other in jobs || other == job;
    }
  }

  /** Storing a record that fits activates the row of its network and of no other. */
  lemma RowsAfterBan(codec: Codec, t: Table, job: Job, n: Net)
    requires Lawful(codec) && GoodJob(codec, job)
    ensures RowActive(codec, TableWith(t, job.rec).rows, n) <==>
      RowActive(codec, t.rows, n) || (job.net == n && Fits(job.rec))
  {
    assert codec.parseNet(codec.showNet(n)) == Some(n) && codec.parseNet(codec.showNet(job.net)) == Some(job.net);
  }

  /** The step bans or traps the network. */
  predicate Accepts(m: Micro, n: Net) {
    TakesOn(m) && m.job.net == n
  }

  /** The step puts the network into memory. */
  predicate Enforces(m: Micro, n: Net) {
    Accepts(m, n) && (m.TrapMemory? ==> m.enforced.Some?)
  }

  /** The step deactivates the network's row, if there is one. */
  predicate Deactivates(codec: Codec, m: Micro, n: Net) {
    (m.UnbanStore? || m.ClearStore?) && codec.showNet(n) in m.hits
  }

  /** Backed after the step: by the record it accepts, or as before, unless it deactivates the row. */
  predicate BackedNext(codec: Codec, d: Daemon, m: Micro, n: Net) {
    || (Accepts(m, n) && Fits(m.job.rec))
    || (if Deactivates(codec, m, n) then Carries(Pending(d.flight), n) else Backed(codec, d, n))
  }

  /** A record that leaves the flight for the table, or is dropped, changes the backing of no network. */
  lemma StoreStepBacking(codec: Codec, d: Daemon, m: Micro, n: Net)
    requires Lawful(codec) && GoodPending(codec, d) && Stores(m) && CanStep(codec, d, m)
    ensures Backed(codec, StepMicro(codec, d, m), n) <==> Backed(codec, d, n)
  {
    var job := StoredJob(d.flight, m);
    PendingAfter(codec, d, m);
    CarriesOneMore(Pending(FlightAfter(d.flight, m)), job, n);
    RowsAfterBan(codec, d.table, job, n);
  }

  /** Accepting a record backs its own network, if it fits, and changes no other. */
  lemma AcceptStepBacking(codec: Codec, d: Daemon, m: Micro, n: Net)
    requires TakesOn(m) && CanStep(codec, d, m)
    ensures Backed(codec, StepMicro(codec, d, m), n) <==> (Accepts(m, n) && Fits(m.job.rec)) || Backed(codec, d, n)
  {
    PendingAfter(codec, d, m);
    CarriesOneMore(Pending(d.flight), m.job, n);
  }

  lemma OtherStepBacking(codec: Codec, d: Daemon, m: Micro, n: Net)
    requires !Stores(m) && !TakesOn(m) && CanStep(codec, d, m)
    ensures Backed(codec, StepMicro(codec, d, m), n) <==> BackedNext(codec, d, m, n)
  {
    PendingAfter(codec, d, m);
  }

  /** What one step does to the backing of one network. */
  lemma StepBacking(codec: Codec, d: Daemon, m: Micro, n: Net)
    requires Lawful(codec) && GoodPending(codec, d) && CanStep(codec, d, m)
    ensures Backed(codec, StepMicro(codec, d, m), n) <==> BackedNext(codec, d, m, n)
  {
    if Stores(m) {
      StoreStepBacking(codec, d, m, n);
    } else if TakesOn(m) {
      AcceptStepBacking(codec, d, m, n);
    } else {
      OtherStepBacking(codec, d, m, n);
    }
  }

  /** Which networks memory enforces after a step: none leaves except by the memory half of an unban or clear. */
  lemma MemoryOfStep(codec: Codec, mem: map<Net, nat>, m: Micro, n: Net)
    ensures var after := MemoryAfter(codec, mem, m);
      && (n in after ==> n in mem || Enforces(m, n))
      && (!m.UnbanMemory? && !m.ClearMemory? && (n in mem || Enforces(m, n)) ==> n in after)
  {
  }

  /** A clean step finds every network it leaves in memory backed. */
  lemma CleanStepBacks(codec: Codec, d: Daemon, m: Micro, n: Net)
    requires Covered(codec, d) && Clean(codec, d, m)
    requires n in d.mem || Enforces(m, n)
    ensures BackedNext(codec, d, m, n)
  {
  }

  /** An unclean one does not: it enforces a network, or deactivates the row of one, that stays without backing. */
  lemma UncleanStepUncovers(codec: Codec, d: Daemon, m: Micro) returns (n: Net)
    requires !Clean(codec, d, m)
    ensures (n in d.mem || Enforces(m, n)) && !m.UnbanMemory? && !m.ClearMemory? && !BackedNext(codec, d, m, n)
  {
    if TakesOn(m) {
      n := m.job.net;
    } else {
      n :| n in d.mem && codec.showNet(n) in m.hits && !Carries(Pending(d.flight), n);
    }
  }

  /** A step keeps every enforced network backed exactly when it is clean. */
  lemma StepKeepsCoverExactlyWhenClean(codec: Codec, d: Daemon, m: Micro)
    requires Lawful(codec) && Covered(codec, d) && GoodPending(codec, d) && CanStep(codec, d, m)
    ensures Covered(codec, StepMicro(codec, d, m)) <==> Clean(codec, d, m)
  {
    var d' := StepMicro(codec, d, m);
    if Clean(codec, d, m) {
      forall n | n in d'.mem
        ensures Backed(codec, d', n)
      {
        MemoryOfStep(codec, d.mem, m, n);
        CleanStepBacks(codec, d, m, n);
        StepBacking(codec, d, m, n);
      }
    } else {
      var n := UncleanStepUncovers(codec, d, m);
      MemoryOfStep(codec, d.mem, m, n);
      StepBacking(codec, d, m, n);
    }
  }

  /** Every prefix of the run leaves all enforced networks backed. */
  ghost predicate CoveredThroughout(codec: Codec, start: Daemon, ms: seq<Micro>) {
    && Execute(codec, start, ms).Some?
    && Covered(codec, Execute(codec, start, ms).value)
    && (ms != [] ==> CoveredThroughout(codec, start, ms[..|ms| - 1]))
  }

  /** Every step of the run was clean in the state it met. */
  ghost predicate CleanRun(codec: Codec, start: Daemon, ms: seq<Micro>) {
    && Execute(codec, start, ms).Some?
    && (ms != [] ==>
         && CleanRun(codec, start, ms[..|ms| - 1])
         && Clean(codec, Execute(codec, start, ms[..|ms| - 1]).value, ms[|ms| - 1]))
  }

  predicate Quiescent(d: Daemon) {
    d.flight == NOTHING_IN_FLIGHT
  }

  /** Once nothing is in flight, backed means an active row. */
  lemma QuiescentBacking(codec: Codec, d: Daemon, n: Net)
    requires Quiescent(d)
    ensures Backed(codec, d, n) <==> RowActive(codec, d.table.rows, n)
  {
    assert Pending(d.flight) == multiset{};
  }

  /**
   No enforced network is ever without an active row or a storable record in flight exactly when
   every step of the run was clean; and then, once nothing is in flight, each has an active row.
   */
  lemma {:induction false} NoEnforcedBanIsLostExactlyWhenClean(codec: Codec, start: Daemon, ms: seq<Micro>)
    requires Lawful(codec) && Covered(codec, start) && GoodPending(codec, start)
    requires Execute(codec, start, ms).Some?
    ensures GoodPending(codec, Execute(codec, start, ms).value)
    ensures CoveredThroughout(codec, start, ms) <==> CleanRun(codec, start, ms)
    ensures var d := Execute(codec, start, ms).value;
      CleanRun(codec, start, ms) && Quiescent(d) ==> forall n :: n in d.mem ==> RowActive(codec, d.table.rows, n)
  {
    if ms != [] {
      var before, m := Execute(codec, start, ms[..|ms| - 1]).value, ms[|ms| - 1];
      NoEnforcedBanIsLostExactlyWhenClean(codec, start, ms[..|ms| - 1]);
      StepKeepsGoodPending(codec, before, m);
      if CoveredThroughout(codec, start, ms[..|ms| - 1]) {
        StepKeepsCoverExactlyWhenClean(codec, before, m);
      }
    }
    var d := Execute(codec, start, ms).value;
    if Quiescent(d) {
      forall n { QuiescentBacking(codec, d, n); }
    }
  }

  /** A daemon that has just rehydrated its memory satisfies the premises of `NoEnforcedBanIsLostExactlyWhenClean`. */
  lemma BootIsCovered(codec: Codec, table: Table, now: nat)
    ensures Covered(codec, Boot(Rehydrated(codec, table.rows, now), table))
    ensures GoodPending(codec, Boot(Rehydrated(codec, table.rows, now), table))
  {
    var d := Boot(Rehydrated(codec, table.rows, now), table);
    assert Pending(d.flight) == multiset{};
    forall n | n in d.mem
      ensures RowActive(codec, d.table.rows, n)
    {
    }
  }

  const TRAP_BAN_MS: nat := 86_400_000

  /** The record `notify_quarantine` sends for a trapped client. */
  function TrapRecord(cidr: string, family: Family, ipText: string, reason: string,
                      userAgent: Option<string>, now: nat): Record {
    Record(cidr, if family == V4 then 4 else 6, ipText, reason, 1, now, now + TRAP_BAN_MS, userAgent, true)
  }

  /** A trap's record is one of the jobs the theorems speak of, and fits exactly while its expiry does. */
  lemma TrapRecordIsGoodJob(codec: Codec, family: Family, ipText: string, reason: string,
                            userAgent: Option<string>, now: nat)
    requires Lawful(codec) && codec.deriveCidr(ipText).Some?
    ensures var rec := TrapRecord(codec.deriveCidr(ipText).value, family, ipText, reason, userAgent, now);
      && (exists net :: GoodJob(codec, Job(net, rec)))
      && (Fits(rec) <==> now + 86_400_000 < 0x8000_0000_0000_0000)
      && rec.expiresAt == now + 24 * 60 * 60 * 1000 && rec.quarantinedAt == now
      && rec.ipVersion == (if family == V6 then 6 else 4) && rec.triggerIp == ipText
      && rec.infractionType == reason && rec.userAgent == userAgent
  {
    var net :| codec.deriveCidr(ipText).value == codec.showNet(net);
    var rec := TrapRecord(codec.deriveCidr(ipText).value, family, ipText, reason, userAgent, now);
    assert GoodJob(codec, Job(net, rec));
  }

  // ---- schedules that lose nothing ----

  /** The store half finds no row whose network memory still enforces when it runs right after its memory half. */
  lemma AtomicUnbanIsClean(codec: Codec, d: Daemon, target: string, hits: seq<string>, now: nat)
    requires Lawful(codec) && CanonicalKeys(codec, d.table.rows)
    requires CanStep(codec, d, UnbanStore(target, hits, now))
    ensures Clean(codec, StepMicro(codec, d, UnbanMemory(target)), UnbanStore(target, hits, now))
  {
    assert target in d.table.rows ==> Canonical(codec, target);
    assert forall n: Net :: codec.parseNet(codec.showNet(n)) == Some(n);
  }

  /** Each store half of an unban or clear comes right after its memory half; all else interleaves freely. */
  predicate Serial(ms: seq<Micro>) {
    forall i :: 0 <= i < |ms| ==> InTurn(ms, i)
  }

  predicate InTurn(ms: seq<Micro>, i: nat)
    requires i < |ms|
  {
    && (ms[i].UnbanStore? ==> i > 0 && ms[i - 1] == UnbanMemory(ms[i].target))
    && (ms[i].ClearStore? ==> i > 0 && ms[i - 1] == ClearMemory)
  }

  lemma BanKeepsCanonicalKeys(codec: Codec, t: Table, job: Job)
    requires Lawful(codec) && CanonicalKeys(codec, t.rows) && GoodJob(codec, job)
    ensures CanonicalKeys(codec, AfterBan(t, job.rec).rows)
  {
    ShownIsCanonical(codec, job.net);
  }

  lemma DeactivateKeepsCanonicalKeys(codec: Codec, rows: map<string, Record>, hits: seq<string>)
    requires CanonicalKeys(codec, rows)
    ensures CanonicalKeys(codec, Deactivate(rows, hits))
  {
  }

  lemma StepKeepsCanonicalKeys(codec: Codec, d: Daemon, m: Micro)
    requires Lawful(codec) && GoodPending(codec, d) && CanonicalKeys(codec, d.table.rows) && CanStep(codec, d, m)
    ensures CanonicalKeys(codec, TableAfter(d.table, d.flight, m).rows)
  {
    if Stores(m) {
      PendingAfter(codec, d, m);
      BanKeepsCanonicalKeys(codec, d.table, StoredJob(d.flight, m));
    } else if m.UnbanStore? || m.ClearStore? {
      DeactivateKeepsCanonicalKeys(codec, d.table.rows, m.hits);
    }
  }

  /** In every interleaving each row stands under its own key, the printed form of a network. */
  lemma {:induction false} EveryInterleavingKeepsCanonicalKeys(codec: Codec, start: Daemon, ms: seq<Micro>)
    requires Lawful(codec) && GoodPending(codec, start) && CanonicalKeys(codec, start.table.rows)
    requires Execute(codec, start, ms).Some?
    ensures var d := Execute(codec, start, ms).value; GoodPending(codec, d) && CanonicalKeys(codec, d.table.rows)
  {
    if ms != [] {
      var before := Execute(codec, start, ms[..|ms| - 1]).value;
      EveryInterleavingKeepsCanonicalKeys(codec, start, ms[..|ms| - 1]);
      StepKeepsGoodPending(codec, before, ms[|ms| - 1]);
      StepKeepsCanonicalKeys(codec, before, ms[|ms| - 1]);
    }
  }

  lemma SerialPrefix(ms: seq<Micro>)
    requires ms != [] && Serial(ms)
    ensures Serial(ms[..|ms| - 1])
  {
    var prefix := ms[..|ms| - 1];
    forall i | 0 <= i < |prefix|
      ensures InTurn(prefix, i)
    {
      assert InTurn(ms, i);
    }
  }

  /** A store half that follows its memory half is clean. */
  lemma StoreHalfIsClean(codec: Codec, d: Daemon, memoryHalf: Micro, storeHalf: Micro)
    requires Lawful(codec) && CanonicalKeys(codec, d.table.rows)
    requires (storeHalf.UnbanStore? || storeHalf.ClearStore?) && InTurn([memoryHalf, storeHalf], 1)
    requires CanStep(codec, d, memoryHalf) && CanStep(codec, StepMicro(codec, d, memoryHalf), storeHalf)
    ensures Clean(codec, StepMicro(codec, d, memoryHalf), storeHalf)
  {
    if storeHalf.UnbanStore? {
      AtomicUnbanIsClean(codec, d, storeHalf.target, storeHalf.hits, storeHalf.now);
    }
  }

  /** In a serial run the last step is clean, unless it enforces a network. */
  lemma SerialStepIsClean(codec: Codec, start: Daemon, ms: seq<Micro>)
    requires Lawful(codec) && GoodPending(codec, start) && CanonicalKeys(codec, start.table.rows)
    requires ms != [] && Serial(ms) && Execute(codec, start, ms).Some?
    requires !TakesOn(ms[|ms| - 1])
    ensures Clean(codec, Execute(codec, start, ms[..|ms| - 1]).value, ms[|ms| - 1])
  {
    var prefix, m := ms[..|ms| - 1], ms[|ms| - 1];
    assert InTurn(ms, |ms| - 1);
    if m.UnbanStore? || m.ClearStore? {
      var earlier, memoryHalf := prefix[..|prefix| - 1], prefix[|prefix| - 1];
      EveryInterleavingKeepsCanonicalKeys(codec, start, earlier);
      var d := Execute(codec, start, earlier).value;
      assert Execute(codec, start, prefix) == Some(StepMicro(codec, d, memoryHalf));
      StoreHalfIsClean(codec, d, memoryHalf, m);
    }
  }

  /** Every ban and trap of the run has a record that fits, or meets a network that is backed already. */
  ghost predicate SafeBans(codec: Codec, start: Daemon, ms: seq<Micro>) {
    && Execute(codec, start, ms).Some?
    && (ms != [] ==>
         && SafeBans(codec, start, ms[..|ms| - 1])
         && (TakesOn(ms[|ms| - 1]) ==>
              Clean(codec, Execute(codec, start, ms[..|ms| - 1]).value, ms[|ms| - 1])))
  }

  lemma {:induction false} SerialRunIsClean(codec: Codec, start: Daemon, ms: seq<Micro>)
    requires Lawful(codec) && GoodPending(codec, start) && CanonicalKeys(codec, start.table.rows)
    requires Serial(ms) && Execute(codec, start, ms).Some?
    ensures CleanRun(codec, start, ms) <==> SafeBans(codec, start, ms)
  {
    if ms != [] {
      SerialPrefix(ms);
      SerialRunIsClean(codec, start, ms[..|ms| - 1]);
      if !TakesOn(ms[|ms| - 1]) {
        SerialStepIsClean(codec, start, ms);
      }
    }
  }

  predicate AllFit(ms: seq<Micro>) {
    forall i :: 0 <= i < |ms| && TakesOn(ms[i]) ==> Fits(ms[i].job.rec)
  }

  lemma {:induction false} FittingBansAreSafe(codec: Codec, start: Daemon, ms: seq<Micro>)
    requires AllFit(ms) && Execute(codec, start, ms).Some?
    ensures SafeBans(codec, start, ms)
  {
    if ms != [] {
      FittingBansAreSafe(codec, start, ms[..|ms| - 1]);
    }
  }

  /**
   From boot, with bans, traps and the worker interleaved at will and each unban and clear running
   its two halves back to back, no enforced network is ever lost exactly when every ban and trap has
   a record that fits or meets a backed network; in particular when all records fit.
   */
  lemma SerialUnbansLoseOnlyUnstorable(codec: Codec, table: Table, boot: nat, ms: seq<Micro>)
    requires Lawful(codec) && CanonicalKeys(codec, table.rows) && Serial(ms)
    requires Execute(codec, Boot(Rehydrated(codec, table.rows, boot), table), ms).Some?
    ensures var start := Boot(Rehydrated(codec, table.rows, boot), table);
      && (CoveredThroughout(codec, start, ms) <==> SafeBans(codec, start, ms))
      && (AllFit(ms) ==> CoveredThroughout(codec, start, ms))
  {
    var start := Boot(Rehydrated(codec, table.rows, boot), table);
    BootIsCovered(codec, table, boot);
    SerialRunIsClean(codec, start, ms);
    NoEnforcedBanIsLostExactlyWhenClean(codec, start, ms);
    if AllFit(ms) {
      FittingBansAreSafe(codec, start, ms);
    }
  }

  // ---- when an unban lasts ----

  /** No step bans, traps or deactivates the network. */
  predicate Quiet(codec: Codec, ms: seq<Micro>, n: Net) {
    forall i :: 0 <= i < |ms| ==> !Accepts(ms[i], n) && !Deactivates(codec, ms[i], n)
  }

  /**
   Over a run that neither bans, traps nor deactivates a network, its backing does not change, and
   memory does not take it up.
   */
  lemma {:induction false} QuietRunKeepsBacking(codec: Codec, start: Daemon, ms: seq<Micro>, n: Net)
    requires Lawful(codec) && GoodPending(codec, start)
    requires Execute(codec, start, ms).Some? && Quiet(codec, ms, n)
    ensures var d := Execute(codec, start, ms).value;
      && GoodPending(codec, d)
      && (Backed(codec, d, n) <==> Backed(codec, start, n))
      && (n in d.mem ==> n in start.mem)
  {
    if ms != [] {
      var before, m := Execute(codec, start, ms[..|ms| - 1]).value, ms[|ms| - 1];
      QuietRunKeepsBacking(codec, start, ms[..|ms| - 1], n);
      StepKeepsGoodPending(codec, before, m);
      StepBacking(codec, before, m, n);
    }
  }

  /** An inactive row is active again, once nothing is in flight, exactly when a storable record was in flight. */
  lemma InactiveRowReturnsExactlyWhenInFlight(codec: Codec, start: Daemon, ms: seq<Micro>, n: Net)
    requires Lawful(codec) && GoodPending(codec, start) && !RowActive(codec, start.table.rows, n)
    requires Execute(codec, start, ms).Some? && Quiet(codec, ms, n)
    requires Quiescent(Execute(codec, start, ms).value)
    ensures RowActive(codec, Execute(codec, start, ms).value.table.rows, n) <==> Carries(Pending(start.flight), n)
    ensures n in Execute(codec, start, ms).value.mem ==> n in start.mem
  {
    QuietRunKeepsBacking(codec, start, ms, n);
    QuiescentBacking(codec, Execute(codec, start, ms).value, n);
  }

  /** The store half of a properly spelt unban leaves no active row of a network it removes. */
  lemma UnbanStoreDeactivates(codec: Codec, d: Daemon, target: string, hits: seq<string>, now: nat, n: Net)
    requires Lawful(codec) && CanonicalKeys(codec, d.table.rows)
    requires CanStep(codec, d, UnbanStore(target, hits, now))
    requires Removes(codec, target, n) && !Misspelt(codec, target)
    ensures !RowActive(codec, StepMicro(codec, d, UnbanStore(target, hits, now)).table.rows, n)
  {
    var c := codec.showNet(n);
    assert codec.parseNet(c) == Some(n);
    assert target in d.table.rows ==> Canonical(codec, target);
    assert c in hits <==> c in Hits(codec, d.table.rows, target);
  }

  /**
   When an unban lasts: if the network is not banned, trapped or unbanned again, then once nothing
   is in flight its row is inactive exactly when no storable record of it was in flight as the store
   half ran.
   */
  lemma UnbanLastsExactlyWhenNothingIsInFlight(codec: Codec, d: Daemon, target: string, hits: seq<string>, now: nat,
                                               ms: seq<Micro>, n: Net)
    requires Lawful(codec) && CanonicalKeys(codec, d.table.rows) && GoodPending(codec, d)
    requires CanStep(codec, d, UnbanStore(target, hits, now))
    requires Removes(codec, target, n) && !Misspelt(codec, target)
    requires var start := StepMicro(codec, d, UnbanStore(target, hits, now));
      Execute(codec, start, ms).Some? && Quiescent(Execute(codec, start, ms).value)
    requires Quiet(codec, ms, n)
    ensures var start := StepMicro(codec, d, UnbanStore(target, hits, now));
      !RowActive(codec, Execute(codec, start, ms).value.table.rows, n) <==> !Carries(Pending(d.flight), n)
  {
    var m := UnbanStore(target, hits, now);
    UnbanStoreDeactivates(codec, d, target, hits, now, n);
    PendingAfter(codec, d, m);
    InactiveRowReturnsExactlyWhenInFlight(codec, StepMicro(codec, d, m), ms, n);
  }

  // ---- crashes ----

  /** The process dies and boots again: the table survives, memory is loaded from it, nothing is in flight. */
  function Crash(codec: Codec, d: Daemon, now: nat): Daemon {
    Boot(Rehydrated(codec, d.table.rows, now), d.table)
  }

  /**
   After a crash at any moment exactly the networks with an active, unexpired, readable row are
   enforced, each until its row expires. What was only in memory or in flight is forgotten.
   */
  lemma CrashKeepsExactlyTheRows(codec: Codec, d: Daemon, now: nat, n: Net)
    requires Lawful(codec)
    ensures var key, rows, mem := codec.showNet(n), d.table.rows, Crash(codec, d, now).mem;
      && (n in mem <==>
            key in rows && rows[key].active && rows[key].expiresAt > now && rows[key].infractionCount < 0x1_0000_0000)
      && (n in mem ==> mem[n] == rows[key].expiresAt)
  {
    assert codec.parseNet(codec.showNet(n)) == Some(n);
    assert codec.showNet(n) in d.table.rows ==> n in NetsOf(codec, d.table.rows);
  }

  lemma CrashIsRestart(codec: Codec, d: Daemon, now: nat)
    ensures Tiers(Crash(codec, d, now)) == Step(codec, Tiers(d), Restart(now)) && Quiescent(Crash(codec, d, now))
  {
  }

  /** A life of the daemon: the time it boots at, and its steps until it crashes or is stopped. */
  datatype Life = Life(boot: nat, steps: seq<Micro>)

  /** The table after a number of lives, or `None` once some step was not possible. */
  ghost function AfterLives(codec: Codec, table: Table, lives: seq<Life>): Option<Table> {
    if lives == [] then Some(table)
    else
      var before, life := AfterLives(codec, table, lives[..|lives| - 1]), lives[|lives| - 1];
      if before.None? then None
      else
        var start := Boot(Rehydrated(codec, before.value.rows, life.boot), before.value);
        match Execute(codec, start, life.steps)
        case None => None
        case Some(d) => Some(d.table)
  }

  /** Crashes at any moments of any interleavings leave a log that decides the rows, and canonical keys. */
  lemma {:induction false} CrashesKeepTheLogDecisive(codec: Codec, table: Table, lives: seq<Life>)
    requires Lawful(codec) && LogExplains(table) && CanonicalKeys(codec, table.rows)
    requires AfterLives(codec, table, lives).Some?
    ensures var t := AfterLives(codec, table, lives).value; LogExplains(t) && CanonicalKeys(codec, t.rows)
  {
    if lives != [] {
      var before, life := AfterLives(codec, table, lives[..|lives| - 1]).value, lives[|lives| - 1];
      CrashesKeepTheLogDecisive(codec, table, lives[..|lives| - 1]);
      var start := Boot(Rehydrated(codec, before.rows, life.boot), before);
      BootIsCovered(codec, before, life.boot);
      EveryInterleavingKeepsLogExplains(codec, start, life.steps);
      EveryInterleavingKeepsCanonicalKeys(codec, start, life.steps);
    }
  }

  // ---- schedules that break what one would expect ----

  lemma Extend(codec: Codec, start: Daemon, ms: seq<Micro>, d: Daemon, m: Micro) returns (d': Daemon)
    requires Execute(codec, start, ms) == Some(d) && CanStep(codec, d, m)
    ensures Execute(codec, start, ms + [m]) == Some(d') && d' == StepMicro(codec, d, m)
  {
    d' := StepMicro(codec, d, m);
    assert (ms + [m])[..|ms|] == ms;
  }

  /** A storable ban with nothing in between. */
  lemma ExtendBan(codec: Codec, start: Daemon, ms: seq<Micro>, d: Daemon, job: Job) returns (d': Daemon)
    requires Execute(codec, start, ms) == Some(d) && GoodJob(codec, job) && Fits(job.rec) && Quiescent(d)
    ensures Execute(codec, start, ms + [BanMemory(job)] + [BanStore(job)]) == Some(d')
    ensures d'.mem == d.mem[job.net := job.rec.expiresAt] && d'.table == AfterBan(d.table, job.rec) && Quiescent(d')
  {
    d' := Extend(codec, start, ms, d, BanMemory(job));
    d' := Extend(codec, start, ms + [BanMemory(job)], d', BanStore(job));
  }

  /** A trap whose record reaches the queue. */
  lemma ExtendTrap(codec: Codec, start: Daemon, ms: seq<Micro>, d: Daemon, job: Job, until: nat) returns (d': Daemon)
    requires Execute(codec, start, ms) == Some(d) && GoodJob(codec, job) && Quiescent(d)
    ensures Execute(codec, start, ms + [TrapMemory(job, Some(until))] + [TrapSend(job)]) == Some(d')
    ensures d'.mem == d.mem[job.net := until] && d'.table == d.table
    ensures d'.flight == NOTHING_IN_FLIGHT.(queue := [job])
  {
    d' := Extend(codec, start, ms, d, TrapMemory(job, Some(until)));
    d' := Extend(codec, start, ms + [TrapMemory(job, Some(until))], d', TrapSend(job));
  }

  /** The worker takes and stores the one queued record. */
  lemma ExtendWorker(codec: Codec, start: Daemon, ms: seq<Micro>, d: Daemon, job: Job) returns (d': Daemon)
    requires Execute(codec, start, ms) == Some(d) && Fits(job.rec) && d.flight == NOTHING_IN_FLIGHT.(queue := [job])
    ensures Execute(codec, start, ms + [WorkerReceive] + [WorkerStore]) == Some(d')
    ensures d'.mem == d.mem && d'.table == AfterBan(d.table, job.rec) && Quiescent(d')
  {
    d' := Extend(codec, start, ms, d, WorkerReceive);
    d' := Extend(codec, start, ms + [WorkerReceive], d', WorkerStore);
  }

  /** A ban whose record does not fit is lost at once: memory enforces it, nothing is in flight, no row was written. */
  lemma UnstorableBanIsLost(codec: Codec, job: Job) returns (d: Daemon)
    requires GoodJob(codec, job) && !Fits(job.rec)
    ensures Execute(codec, Boot(map[], EMPTY_TABLE), [] + [BanMemory(job)] + [BanStore(job)]) == Some(d)
    ensures Quiescent(d) && job.net in d.mem && d.table == EMPTY_TABLE
  {
    var start := Boot(map[], EMPTY_TABLE);
    d := Extend(codec, start, [], start, BanMemory(job));
    d := Extend(codec, start, [] + [BanMemory(job)], d, BanStore(job));
  }

  /**
   A ban that lands between the halves of an unban is lost: memory enforces the network, nothing
   is in flight, and its row is inactive, so the next restart forgets it.
   */
  lemma RebanDuringUnbanIsLost(codec: Codec, job: Job, now: nat) returns (d: Daemon)
    requires Lawful(codec) && GoodJob(codec, job) && Fits(job.rec) && now < SQLITE_LIMIT
    ensures var c := codec.showNet(job.net);
      Execute(codec, Boot(map[], EMPTY_TABLE),
        [] + [BanMemory(job)] + [BanStore(job)] + [UnbanMemory(c)] + [BanMemory(job)] + [BanStore(job)]
        + [UnbanStore(c, [c], now)])
      == Some(d)
    ensures Quiescent(d) && job.net in d.mem && !RowActive(codec, d.table.rows, job.net)
  {
    var c, start := codec.showNet(job.net), Boot(map[], EMPTY_TABLE);
    assert codec.parseNet(c) == Some(job.net);
    d := ExtendBan(codec, start, [], start, job);
    var ms := [] + [BanMemory(job)] + [BanStore(job)];
    d := Extend(codec, start, ms, d, UnbanMemory(c));
    ms := ms + [UnbanMemory(c)];
    d := ExtendBan(codec, start, ms, d, job);
    ms := ms + [BanMemory(job)] + [BanStore(job)];
    assert c in ActiveKeys(d.table.rows);
    d := Extend(codec, start, ms, d, UnbanStore(c, [c], now));
  }

  /** A trap's record is queued, then both halves of an unban run: memory is clear, the store saw nothing to do. */
  lemma TrapThenUnban(codec: Codec, job: Job, until: nat, now: nat) returns (d: Daemon)
    requires Lawful(codec) && GoodJob(codec, job) && now < SQLITE_LIMIT
    ensures var c := codec.showNet(job.net);
      Execute(codec, Boot(map[], EMPTY_TABLE),
        [] + [TrapMemory(job, Some(until))] + [TrapSend(job)] + [UnbanMemory(c)] + [UnbanStore(c, [], now)])
      == Some(d)
    ensures d.mem == map[] && d.table.rows == map[] && d.flight == NOTHING_IN_FLIGHT.(queue := [job])
  {
    var c, start := codec.showNet(job.net), Boot(map[], EMPTY_TABLE);
    ShownIsCanonical(codec, job.net);
    assert codec.parseNet(c) == Some(job.net);
    d := ExtendTrap(codec, start, [], start, job, until);
    var ms := [] + [TrapMemory(job, Some(until))] + [TrapSend(job)];
    d := Extend(codec, start, ms, d, UnbanMemory(c));
    assert Hits(codec, d.table.rows, c) == {};
    d := Extend(codec, start, ms + [UnbanMemory(c)], d, UnbanStore(c, [], now));
  }

  /**
   An unban that overtakes a queued record does not stick: memory is clear and nothing is in
   flight, yet the row is active, so the next restart brings the ban back.
   */
  lemma UnbanOvertakingQueueReturns(codec: Codec, job: Job, until: nat, now: nat) returns (d: Daemon)
    requires Lawful(codec) && GoodJob(codec, job) && Fits(job.rec) && now < SQLITE_LIMIT
    ensures var c := codec.showNet(job.net);
      Execute(codec, Boot(map[], EMPTY_TABLE),
        [] + [TrapMemory(job, Some(until))] + [TrapSend(job)] + [UnbanMemory(c)] + [UnbanStore(c, [], now)]
        + [WorkerReceive] + [WorkerStore])
      == Some(d)
    ensures Quiescent(d) && d.mem == map[] && RowActive(codec, d.table.rows, job.net)
  {
    var c, start := codec.showNet(job.net), Boot(map[], EMPTY_TABLE);
    d := TrapThenUnban(codec, job, until, now);
    var ms := [] + [TrapMemory(job, Some(until))] + [TrapSend(job)] + [UnbanMemory(c)] + [UnbanStore(c, [], now)];
    d := ExtendWorker(codec, start, ms, d, job);
  }
}
