/**
 The durable quarantine store: one table row per CIDR text and an append-only audit log.

 `QuarantineTable` says what each committed call does to the pair (rows, log);
 `QuarantineDb` holds the class whose methods carry those calls out statement by statement.
 A method is one transaction under one mutex, so nothing runs between its statements.
 */
module QuarantineTable {
  import opened Wrappers
  import opened Networks

  /** SQLite integers are signed 64-bit; binding a larger `u64` fails the statement. */
  const SQLITE_LIMIT: nat := 0x8000_0000_0000_0000
  /** `infraction_count` is read back as a `u32`; a row with a larger count is skipped. */
  const U32_LIMIT: nat := 0x1_0000_0000

  datatype Record = Record(
    cidr: string, ipVersion: nat, triggerIp: string, infractionType: string,
    infractionCount: nat, quarantinedAt: nat, expiresAt: nat,
    userAgent: Option<string>, active: bool)

  datatype EventKind = Quarantined | Unbanned | UnbannedAll

  datatype AuditEvent = AuditEvent(cidr: string, kind: EventKind, ts: nat, details: string)

  datatype Table = Table(rows: map<string, Record>, log: seq<AuditEvent>)

  const EMPTY_TABLE := Table(map[], [])

  datatype StoreError = IntegerOutOfRange

  // ---- record_ban ----

  predicate Fits(rec: Record) {
    rec.quarantinedAt < SQLITE_LIMIT && rec.expiresAt < SQLITE_LIMIT
  }

  /** `INSERT ... ON CONFLICT(cidr) DO UPDATE`. */
  function Upsert(rows: map<string, Record>, rec: Record): Record {
    if rec.cidr in rows then
      var first := rows[rec.cidr];
      first.(infractionCount := first.infractionCount + rec.infractionCount,
             expiresAt := rec.expiresAt,
             userAgent := if rec.userAgent.Some? then rec.userAgent else first.userAgent,
             active := true)
    else rec
  }

  function BanDetails(rec: Record): string {
    "Trigger IP: " + rec.triggerIp + ", Infraction: " + rec.infractionType
  }

  function AfterBan(t: Table, rec: Record): Table {
    Table(t.rows[rec.cidr := Upsert(t.rows, rec)],
          t.log + [AuditEvent(rec.cidr, Quarantined, rec.quarantinedAt, BanDetails(rec))])
  }

  // ---- unban and unban_all ----

  function ActiveKeys(rows: map<string, Record>): set<string> {
    set c | c in rows && rows[c].active
  }

  predicate KeyContains(codec: Codec, key: string, a: Addr) {
    codec.parseNet(key).Some? && Contains(codec.parseNet(key).value, a)
  }

  /** The rows `unban` selects: the exact key when active, otherwise the networks around an address. */
  function Hits(codec: Codec, rows: map<string, Record>, target: string): set<string> {
    if target in ActiveKeys(rows) then {target}
    else match codec.parseAddr(target)
      case None => {}
      case Some(a) => set c | c in ActiveKeys(rows) && KeyContains(codec, c, a)
  }

  /** SQL leaves the order of a `SELECT` open: any duplicate-free listing of the keys. */
  ghost predicate Lists(order: seq<string>, keys: set<string>) {
    && (forall i, j :: 0 <= i < j < |order| ==> order[i] != order[j])
    && (forall c :: c in order <==> c in keys)
  }

  lemma {:induction false} ListsSize(order: seq<string>, keys: set<string>)
    requires Lists(order, keys)
    ensures |order| == |keys|
  {
    if order == [] {
      assert keys == {};
    } else {
      var last := order[|order| - 1];
      assert last in order;
      ListsSize(order[..|order| - 1], keys - {last});
    }
  }

  function Deactivate(rows: map<string, Record>, hits: seq<string>): map<string, Record> {
    map c | c in rows :: if c in hits then rows[c].(active := false) else rows[c]
  }

  function Events(hits: seq<string>, kind: EventKind, ts: nat, details: string): (es: seq<AuditEvent>)
    ensures |es| == |hits|
    ensures forall i :: 0 <= i < |hits| ==> es[i] == AuditEvent(hits[i], kind, ts, details)
  {
    seq(|hits|, i requires 0 <= i < |hits| => AuditEvent(hits[i], kind, ts, details))
  }

  function AfterUnban(t: Table, hits: seq<string>, kind: EventKind, ts: nat, details: string): Table {
    Table(Deactivate(t.rows, hits), t.log + Events(hits, kind, ts, details))
  }

  // ---- histories ----

  /** A committed store call; `hits` is the order in which the `SELECT` happened to list the rows. */
  datatype StoreOp =
    | Ban(rec: Record)
    | Unban(target: string, details: string, now: nat, hits: seq<string>)
    | UnbanAll(details: string, now: nat, hits: seq<string>)

  /** Every caller of `record_ban` passes `active: true`. */
  ghost predicate Enabled(codec: Codec, t: Table, op: StoreOp) {
    match op
    case Ban(rec) => Fits(rec) && rec.active
    case Unban(target, _, now, hits) => now < SQLITE_LIMIT && Lists(hits, Hits(codec, t.rows, target))
    case UnbanAll(_, now, hits) => now < SQLITE_LIMIT && Lists(hits, ActiveKeys(t.rows))
  }

  function Apply(t: Table, op: StoreOp): Table {
    match op
    case Ban(rec) => AfterBan(t, rec)
    case Unban(_, details, now, hits) => AfterUnban(t, hits, Unbanned, now, details)
    case UnbanAll(details, now, hits) => AfterUnban(t, hits, UnbannedAll, now, details)
  }

  function Run(ops: seq<StoreOp>): Table {
    if ops == [] then EMPTY_TABLE else Apply(Run(ops[..|ops| - 1]), ops[|ops| - 1])
  }

  /** Every call of the history was possible in the state it was made in. */
  ghost predicate ValidRun(codec: Codec, ops: seq<StoreOp>) {
    ops != [] ==>
      && ValidRun(codec, ops[..|ops| - 1])
      && Enabled(codec, Run(ops[..|ops| - 1]), ops[|ops| - 1])
  }

  // ---- queries ----

  /** The row passes the `WHERE` clause of `get_active_bans` and can be read back. */
  predicate Loadable(row: Record, now: nat) {
    row.active && row.expiresAt > now && row.infractionCount < U32_LIMIT
  }

  predicate NewestFirst(records: seq<Record>) {
    forall i, j :: 0 <= i < j < |records| ==> records[i].quarantinedAt >= records[j].quarantinedAt
  }
}

module QuarantineDb {
  import opened Wrappers
  import opened Networks
  import opened QuarantineTable

  class QuarantineStore {
    var rows: map<string, Record>
    var log: seq<AuditEvent>

    function State(): Table
      reads this
    {
      Table(rows, log)
    }

    constructor ()
      ensures State() == EMPTY_TABLE
    {
      rows := map[];
      log := [];
    }

    method RecordBan(rec: Record) returns (r: Result<(), StoreError>)
      modifies this
      ensures r.Ok? <==> rec.quarantinedAt < 0x8000_0000_0000_0000 && rec.expiresAt < 0x8000_0000_0000_0000
      ensures r.Ok? ==> log == old(log) + [AuditEvent(rec.cidr, Quarantined, rec.quarantinedAt,
                          "Trigger IP: " + rec.triggerIp + ", Infraction: " + rec.infractionType)]
      ensures State() == if Fits(rec) then AfterBan(old(State()), rec) else old(State())
    {
      if !Fits(rec) {
        return Err(IntegerOutOfRange);
      }
      if rec.cidr in rows {
        var row := rows[rec.cidr];
        row := row.(infractionCount := row.infractionCount + rec.infractionCount);
        row := row.(expiresAt := rec.expiresAt);
        if rec.userAgent.Some? {
          row := row.(userAgent := rec.userAgent);
        }
        rows := rows[rec.cidr := row.(active := true)];
      } else {
        rows := rows[rec.cidr := rec];
      }
      log := log + [AuditEvent(rec.cidr, Quarantined, rec.quarantinedAt, BanDetails(rec))];
      return Ok(());
    }

    /** A `SELECT cidr` over the given keys. */
    static method Select(keys: set<string>) returns (order: seq<string>)
      ensures Lists(order, keys)
    {
      order := [];
      var rest := keys;
      while rest != {}
        invariant rest <= keys
        invariant Lists(order, keys - rest)
        decreases rest
      {
        var c :| c in rest;
        order := order + [c];
        rest := rest - {c};
      }
    }

    /** The `SELECT` half of `unban`. */
    method SelectHits(codec: Codec, target: string) returns (unbanned: seq<string>)
      ensures Lists(unbanned, Hits(codec, rows, target))
    {
      unbanned := [];
      var exact := Select(set c | c in ActiveKeys(rows) && c == target);
      if exact != [] {
        assert exact[0] in exact;
        return exact;
      }
      assert target !in exact;
      var addr := codec.parseAddr(target);
      if addr.Some? {
        var active := Select(ActiveKeys(rows));
        ghost var found := {};
        for i := 0 to |active|
          invariant found == set c | c in active[..i] && KeyContains(codec, c, addr.value)
          invariant Lists(unbanned, found)
        {
          assert active[..i + 1] == active[..i] + [active[i]];
          assert active[i] !in active[..i];
          var net := codec.parseNet(active[i]);
          if net.Some? && Contains(net.value, addr.value) {
            unbanned := unbanned + [active[i]];
            found := found + {active[i]};
          }
        }
        assert active[..|active|] == active;
        assert found == Hits(codec, rows, target);
      }
    }

    method Unban(codec: Codec, target: string, details: string, now: nat)
      returns (r: Result<seq<string>, StoreError>)
      modifies this
      ensures r.Ok? <==> now < SQLITE_LIMIT || Hits(codec, old(rows), target) == {}
      ensures r.Ok? ==> Lists(r.value, Hits(codec, old(rows), target))
      ensures State() == if r.Ok? then AfterUnban(old(State()), r.value, Unbanned, now, details) else old(State())
    {
      var unbanned := SelectHits(codec, target);
      if unbanned == [] {
        return Ok([]);
      }
      assert unbanned[0] in unbanned;
      if now >= SQLITE_LIMIT {
        return Err(IntegerOutOfRange);
      }
      ghost var was := State();
      for i := 0 to |unbanned|
        invariant rows == Deactivate(was.rows, unbanned[..i])
        invariant log == was.log + Events(unbanned[..i], Unbanned, now, details)
      {
        assert unbanned[i] in unbanned;
        rows := rows[unbanned[i] := rows[unbanned[i]].(active := false)];
        log := log + [AuditEvent(unbanned[i], Unbanned, now, details)];
        assert unbanned[..i + 1] == unbanned[..i] + [unbanned[i]];
      }
      assert unbanned[..|unbanned|] == unbanned;
      return Ok(unbanned);
    }

    method UnbanAll(details: string, now: nat)
      returns (r: Result<nat, StoreError>, ghost hits: seq<string>)
      modifies this
      ensures Lists(hits, ActiveKeys(old(rows)))
      ensures r.Ok? <==> now < SQLITE_LIMIT || hits == []
      ensures r.Ok? ==> r.value == |hits|
      ensures State() == if r.Ok? then AfterUnban(old(State()), hits, UnbannedAll, now, details) else old(State())
    {
      var activeCidrs := Select(ActiveKeys(rows));
      hits := activeCidrs;
      if |activeCidrs| == 0 {
        return Ok(0), hits;
      }
      if now >= SQLITE_LIMIT {
        return Err(IntegerOutOfRange), hits;
      }
      ghost var was := State();
      rows := map c | c in rows :: if rows[c].active then rows[c].(active := false) else rows[c];
      for i := 0 to |activeCidrs|
        invariant rows == Deactivate(was.rows, activeCidrs)
        invariant log == was.log + Events(activeCidrs[..i], UnbannedAll, now, details)
      {
        log := log + [AuditEvent(activeCidrs[i], UnbannedAll, now, details)];
        assert activeCidrs[..i + 1] == activeCidrs[..i] + [activeCidrs[i]];
      }
      assert activeCidrs[..|activeCidrs|] == activeCidrs;
      return Ok(|activeCidrs|), hits;
    }

    /** Active, unexpired rows, newest first; rows that cannot be read back are dropped. */
    method GetActiveBans(now: nat) returns (r: Result<seq<Record>, StoreError>, ghost keys: seq<string>)
      ensures r.Ok? <==> now < 0x8000_0000_0000_0000
      ensures r.Ok? ==> Lists(keys, set c | c in rows && rows[c].active && rows[c].expiresAt > now
                                            && rows[c].infractionCount < 0x1_0000_0000)
      ensures r.Ok? ==> |r.value| == |keys|
      ensures r.Ok? ==> forall i, j :: 0 <= i < j < |r.value| ==> r.value[i].quarantinedAt >= r.value[j].quarantinedAt
      ensures r.Ok? ==> forall i :: 0 <= i < |r.value| ==> r.value[i].active && r.value[i].expiresAt > now
      ensures r.Ok? ==> forall i :: 0 <= i < |keys| ==> keys[i] in rows && r.value[i] == rows[keys[i]]
    {
      keys := [];
      if now >= SQLITE_LIMIT {
        return Err(IntegerOutOfRange), keys;
      }
      var selected := set c | c in rows && Loadable(rows[c], now);
      var rest, records := selected, [];
      while rest != {}
        invariant rest <= selected
        invariant Lists(keys, selected - rest)
        invariant |records| == |keys| && NewestFirst(records)
        invariant forall i :: 0 <= i < |keys| ==> keys[i] in rows && records[i] == rows[keys[i]]
        invariant forall i, c :: 0 <= i < |records| && c in rest ==> records[i].quarantinedAt >= rows[c].quarantinedAt
        decreases rest
      {
        NewestExists(rows, rest);
        var c :| c in rest && forall d :: d in rest ==> rows[d].quarantinedAt <= rows[c].quarantinedAt;
        keys := keys + [c];
        records := records + [rows[c]];
        rest := rest - {c};
      }
      assert forall i :: 0 <= i < |keys| ==> keys[i] in keys;
      return Ok(records), keys;
    }
  }

  lemma {:induction false} NewestExists(rows: map<string, Record>, keys: set<string>)
    requires keys != {} && keys <= rows.Keys
    ensures exists c :: c in keys && forall d :: d in keys ==> rows[d].quarantinedAt <= rows[c].quarantinedAt
  {
    var c :| c in keys;
    if keys != {c} {
      NewestExists(rows, keys - {c});
      var best :| best in keys - {c}
                  && forall d :: d in keys - {c} ==> rows[d].quarantinedAt <= rows[best].quarantinedAt;
      var top := if rows[best].quarantinedAt <= rows[c].quarantinedAt then c else best;
      assert forall d :: d in keys ==> d == c || d in keys - {c};
      assert top in keys && forall d :: d in keys ==> rows[d].quarantinedAt <= rows[top].quarantinedAt;
    }
  }
}
