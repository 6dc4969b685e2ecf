/**
 What the quarantine table and its audit log mean, over every history of committed store calls.

 `HistoryRow` reads a row off the history directly, without running the calls; the table is
 proved to hold exactly those rows. The audit log alone is proved to decide which rows exist
 and which are active.
 */
module StoreHistory {
  import opened Wrappers
  import opened Networks
  import opened QuarantineTable

  // ---- the table is a fold of the history ----

  /** The records banned under one key, oldest first. */
  function BansOf(ops: seq<StoreOp>, c: string): seq<Record> {
    if ops == [] then []
    else
      var before := BansOf(ops[..|ops| - 1], c);
      match ops[|ops| - 1]
      case Ban(rec) => if rec.cidr == c then before + [rec] else before
      case _ => before
  }

  function TotalInfractions(bans: seq<Record>): nat {
    if bans == [] then 0
    else TotalInfractions(bans[..|bans| - 1]) + bans[|bans| - 1].infractionCount
  }

  /** The last user agent that was not null. */
  function LatestUserAgent(bans: seq<Record>): Option<string> {
    if bans == [] then None
    else if bans[|bans| - 1].userAgent.Some? then bans[|bans| - 1].userAgent
    else LatestUserAgent(bans[..|bans| - 1])
  }

  /** Whether the latest call that touched the key was a ban. */
  predicate BannedLast(ops: seq<StoreOp>, c: string) {
    ops != [] &&
    var before := BannedLast(ops[..|ops| - 1], c);
    match ops[|ops| - 1]
    case Ban(rec) => rec.cidr == c || before
    case Unban(_, _, _, hits) => c !in hits && before
    case UnbanAll(_, _, hits) => c !in hits && before
  }

  /** The row its bans amount to: first-write and last-write columns, and the sum of the counts. */
  function RowOf(c: string, bans: seq<Record>, active: bool): Record
    requires bans != []
  {
    var first, last := bans[0], bans[|bans| - 1];
    Record(c, first.ipVersion, first.triggerIp, first.infractionType, TotalInfractions(bans),
           first.quarantinedAt, last.expiresAt, LatestUserAgent(bans), active)
  }

  lemma UpsertExtendsRow(rows: map<string, Record>, rec: Record, bans: seq<Record>, active: bool)
    requires rec.cidr in rows <==> bans != []
    requires bans != [] ==> rows[rec.cidr] == RowOf(rec.cidr, bans, active)
    requires rec.active
    ensures Upsert(rows, rec) == RowOf(rec.cidr, bans + [rec], true)
  {
    var longer := bans + [rec];
    assert longer[..|longer| - 1] == bans;
    if bans == [] {
      assert TotalInfractions(bans) == 0 && LatestUserAgent(bans) == None;
    }
  }

  /** Every row is the replay of its bans, and a key without bans has no row. */
  lemma {:induction false} TableIsFoldOfHistory(codec: Codec, ops: seq<StoreOp>, c: string)
    requires ValidRun(codec, ops)
    ensures c in Run(ops).rows <==> BansOf(ops, c) != []
    ensures c in Run(ops).rows ==> Run(ops).rows[c] == RowOf(c, BansOf(ops, c), BannedLast(ops, c))
  {
    if ops != [] {
      var prefix, op := ops[..|ops| - 1], ops[|ops| - 1];
      TableIsFoldOfHistory(codec, prefix, c);
      if op.Ban? && op.rec.cidr == c {
        UpsertExtendsRow(Run(prefix).rows, op.rec, BansOf(prefix, c), BannedLast(prefix, c));
      } else {
        assert BansOf(ops, c) == BansOf(prefix, c);
      }
    }
  }

  // ---- the audit log decides activity ----

  predicate IsBan(e: AuditEvent, c: string) { e.cidr == c && e.kind == Quarantined }

  predicate IsUnban(e: AuditEvent, c: string) { e.cidr == c && e.kind != Quarantined }

  function LatestKind(log: seq<AuditEvent>, c: string): Option<EventKind> {
    if log == [] then None
    else if log[|log| - 1].cidr == c then Some(log[|log| - 1].kind)
    else LatestKind(log[..|log| - 1], c)
  }

  function CountBans(log: seq<AuditEvent>, c: string): nat {
    if log == [] then 0
    else CountBans(log[..|log| - 1], c) + if IsBan(log[|log| - 1], c) then 1 else 0
  }

  ghost predicate BanBetween(log: seq<AuditEvent>, c: string, i: nat, j: nat) {
    exists k :: i < k < j < |log| && IsBan(log[k], c)
  }

  /** No key is unbanned twice without being quarantined in between. */
  ghost predicate UnbansAlternate(log: seq<AuditEvent>) {
    forall c, i, j | 0 <= i < j < |log| && IsUnban(log[i], c) && IsUnban(log[j], c) :: BanBetween(log, c, i, j)
  }

  ghost predicate LogExplains(t: Table) {
    && (forall c :: c in t.rows <==> CountBans(t.log, c) > 0)
    && (forall c :: c in t.rows ==> (t.rows[c].active <==> LatestKind(t.log, c) == Some(Quarantined)))
    && UnbansAlternate(t.log)
  }

  lemma {:induction false} LatestBanPosition(log: seq<AuditEvent>, c: string) returns (k: nat)
    requires LatestKind(log, c) == Some(Quarantined)
    ensures k < |log| && IsBan(log[k], c)
    ensures forall i :: k < i < |log| ==> log[i].cidr != c
  {
    if log[|log| - 1].cidr == c {
      k := |log| - 1;
    } else {
      k := LatestBanPosition(log[..|log| - 1], c);
    }
  }

  lemma {:induction false} AppendUnbans(log: seq<AuditEvent>, hits: seq<string>, kind: EventKind, ts: nat,
                                        details: string, c: string)
    requires kind != Quarantined
    ensures CountBans(log + Events(hits, kind, ts, details), c) == CountBans(log, c)
    ensures LatestKind(log + Events(hits, kind, ts, details), c) == if c in hits then Some(kind) else LatestKind(log, c)
  {
    var es := Events(hits, kind, ts, details);
    if hits == [] {
      assert log + es == log;
    } else {
      var shorter := hits[..|hits| - 1];
      AppendUnbans(log, shorter, kind, ts, details, c);
      assert (log + es)[..|log + es| - 1] == log + Events(shorter, kind, ts, details);
    }
  }

  /** What the log says of one key: kind and time of its events, oldest first. */
  function KeyLog(log: seq<AuditEvent>, c: string): seq<(EventKind, nat)> {
    if log == [] then []
    else
      var before, last := KeyLog(log[..|log| - 1], c), log[|log| - 1];
      if last.cidr == c then before + [(last.kind, last.ts)] else before
  }

  lemma {:induction false} KeyLogOfConcat(a: seq<AuditEvent>, b: seq<AuditEvent>, c: string)
    ensures KeyLog(a + b, c) == KeyLog(a, c) + KeyLog(b, c)
  {
    if b == [] {
      assert a + b == a;
    } else {
      assert (a + b)[..|a + b| - 1] == a + b[..|b| - 1];
      KeyLogOfConcat(a, b[..|b| - 1], c);
    }
  }

  lemma {:induction false} KeyLogOfEvents(hits: seq<string>, kind: EventKind, ts: nat, details: string, c: string)
    requires forall i, j :: 0 <= i < j < |hits| ==> hits[i] != hits[j]
    ensures KeyLog(Events(hits, kind, ts, details), c) == if c in hits then [(kind, ts)] else []
  {
    if hits != [] {
      var shorter, last := hits[..|hits| - 1], hits[|hits| - 1];
      KeyLogOfEvents(shorter, kind, ts, details, c);
      assert Events(hits, kind, ts, details)[..|shorter|] == Events(shorter, kind, ts, details);
      assert c in hits <==> c in shorter || c == last;
      assert last !in shorter;
    }
  }

  lemma KeyLogOfUnbans(log: seq<AuditEvent>, hits: seq<string>, kind: EventKind, ts: nat, details: string, c: string)
    requires forall i, j :: 0 <= i < j < |hits| ==> hits[i] != hits[j]
    ensures KeyLog(log + Events(hits, kind, ts, details), c) == KeyLog(log, c) + if c in hits then [(kind, ts)] else []
  {
    KeyLogOfConcat(log, Events(hits, kind, ts, details), c);
    KeyLogOfEvents(hits, kind, ts, details, c);
  }

  lemma BanKeepsLogExplains(t: Table, rec: Record)
    requires LogExplains(t)
    ensures LogExplains(AfterBan(t, rec)) <==> rec.active || rec.cidr in t.rows
  {
    var t' := AfterBan(t, rec);
    assert t'.log[..|t'.log| - 1] == t.log;
    forall c, i, j | 0 <= i < j < |t'.log| && IsUnban(t'.log[i], c) && IsUnban(t'.log[j], c)
      ensures BanBetween(t'.log, c, i, j)
    {
      assert BanBetween(t.log, c, i, j);
      var k :| i < k < j < |t.log| && IsBan(t.log[k], c);
      assert IsBan(t'.log[k], c);
    }
    forall c
      ensures CountBans(t'.log, c) == CountBans(t.log, c) + if c == rec.cidr then 1 else 0
      ensures LatestKind(t'.log, c) == if c == rec.cidr then Some(Quarantined) else LatestKind(t.log, c)
    {
    }
    assert t'.rows[rec.cidr].active <==> rec.active || rec.cidr in t.rows;
  }

  lemma UnbanKeepsLogExplains(t: Table, hits: seq<string>, kind: EventKind, ts: nat, details: string)
    requires LogExplains(t) && kind != Quarantined
    requires exists keys :: keys <= ActiveKeys(t.rows) && Lists(hits, keys)
    ensures LogExplains(AfterUnban(t, hits, kind, ts, details))
  {
    var t' := AfterUnban(t, hits, kind, ts, details);
    forall c {
      AppendUnbans(t.log, hits, kind, ts, details, c);
    }
    forall c, i, j | 0 <= i < j < |t'.log| && IsUnban(t'.log[i], c) && IsUnban(t'.log[j], c)
      ensures BanBetween(t'.log, c, i, j)
    {
      if j < |t.log| {
        assert BanBetween(t.log, c, i, j);
        var k :| i < k < j < |t.log| && IsBan(t.log[k], c);
        assert IsBan(t'.log[k], c);
      } else {
        assert hits[j - |t.log|] == c;
        assert c in ActiveKeys(t.rows);
        var k := LatestBanPosition(t.log, c);
        assert i < |t.log|;
        assert i < k && IsBan(t'.log[k], c);
      }
    }
  }

  /**
   In every reachable table a row exists exactly when the log quarantined its key, it is active
   exactly when the latest event for the key is a quarantine, and unbans alternate with bans.
   */
  lemma {:induction false} AuditLogDecidesActivity(codec: Codec, ops: seq<StoreOp>)
    requires ValidRun(codec, ops)
    ensures LogExplains(Run(ops))
  {
    if ops != [] {
      var t, op := Run(ops[..|ops| - 1]), ops[|ops| - 1];
      AuditLogDecidesActivity(codec, ops[..|ops| - 1]);
      match op
      case Ban(rec) =>
        BanKeepsLogExplains(t, rec);
      case Unban(target, details, now, hits) =>
        assert Hits(codec, t.rows, target) <= ActiveKeys(t.rows);
        UnbanKeepsLogExplains(t, hits, Unbanned, now, details);
      case UnbanAll(details, now, hits) =>
        UnbanKeepsLogExplains(t, hits, UnbannedAll, now, details);
    }
  }

  // ---- the two views meet ----

  ghost predicate UnitCounts(ops: seq<StoreOp>) {
    forall i :: 0 <= i < |ops| && ops[i].Ban? ==> ops[i].rec.infractionCount == 1
  }

  /** With unit counts, a row's count is the number of times the log quarantined its key. */
  lemma {:induction false} CountIsNumberOfBanEvents(codec: Codec, ops: seq<StoreOp>, c: string)
    requires ValidRun(codec, ops) && UnitCounts(ops)
    ensures c in Run(ops).rows ==> Run(ops).rows[c].infractionCount == CountBans(Run(ops).log, c)
    ensures c !in Run(ops).rows ==> CountBans(Run(ops).log, c) == 0
  {
    if ops != [] {
      var prefix, op := ops[..|ops| - 1], ops[|ops| - 1];
      var t := Run(prefix);
      CountIsNumberOfBanEvents(codec, prefix, c);
      match op
      case Ban(rec) =>
        assert Run(ops).log[..|Run(ops).log| - 1] == t.log;
      case Unban(_, details, now, hits) =>
        AppendUnbans(t.log, hits, Unbanned, now, details, c);
      case UnbanAll(details, now, hits) =>
        AppendUnbans(t.log, hits, UnbannedAll, now, details, c);
    }
  }

  // ---- unban is exact ----

  /** Rows written by the ban paths: each stands under its own key, the printed form of a network. */
  ghost predicate CanonicalKeys(codec: Codec, rows: map<string, Record>) {
    forall c :: c in rows ==> Canonical(codec, c) && rows[c].cidr == c
  }

  /**
   Unbanning an address leaves no active row around it, deactivates exactly the listed rows,
   each once, appends one event per listed row, and leaves every other row as it was.
   */
  lemma UnbanAddressIsExact(codec: Codec, t: Table, target: string, hits: seq<string>, ts: nat, details: string)
    requires Lawful(codec) && CanonicalKeys(codec, t.rows)
    requires codec.parseAddr(target).Some?
    requires Lists(hits, Hits(codec, t.rows, target))
    ensures var t' := AfterUnban(t, hits, Unbanned, ts, details);
      && (forall c :: c in ActiveKeys(t'.rows) ==> !KeyContains(codec, c, codec.parseAddr(target).value))
      && (forall c :: c in hits <==> c in ActiveKeys(t.rows) && c !in ActiveKeys(t'.rows))
      && (forall c :: c in t.rows && c !in hits ==> c in t'.rows && t'.rows[c] == t.rows[c])
      && (forall c :: c in hits ==> t'.rows[c] == t.rows[c].(active := false))
      && t'.rows.Keys == t.rows.Keys
      && |t'.log| == |t.log| + |hits| && t.log <= t'.log
      && (forall i :: 0 <= i < |hits| ==> t'.log[|t.log| + i] == AuditEvent(hits[i], Unbanned, ts, details))
  {
    assert target in t.rows ==> Canonical(codec, target);
  }

  /** Unbanning a network by its printed form changes at most that row, and only if it was active. */
  lemma UnbanNetworkIsExact(codec: Codec, t: Table, n: Net, hits: seq<string>, ts: nat, details: string)
    requires Lawful(codec)
    requires Lists(hits, Hits(codec, t.rows, codec.showNet(n)))
    ensures var c, t' := codec.showNet(n), AfterUnban(t, hits, Unbanned, ts, details);
      && c !in ActiveKeys(t'.rows)
      && t'.rows == (if c in t.rows then t.rows[c := t.rows[c].(active := false)] else t.rows)
      && t'.log == t.log + (if c in ActiveKeys(t.rows) then [AuditEvent(c, Unbanned, ts, details)] else [])
  {
    var c := codec.showNet(n);
    ShownIsCanonical(codec, n);
    ListsSize(hits, Hits(codec, t.rows, c));
    if c in ActiveKeys(t.rows) {
      assert hits == [c] by { assert hits[0] in hits; }
    }
  }
}
