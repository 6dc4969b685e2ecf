/**
 What a ban command does to each network, said without its steps: which targets name the network,
 what memory holds for it afterwards, and what its row is.
 */
module BanEffects {
  import opened Wrappers
  import opened Text
  import opened Networks
  import opened QuarantineTable
  import opened Enforcement
  import opened TargetResolution

  function Lookup<K, V>(m: map<K, V>, k: K): Option<V> {
    if k in m then Some(m[k]) else None
  }

  /**
   The target names the network: slash text is a network itself, an address stands for its /32 or
   /128 network in an exact ban and for its quarantine network otherwise.
   */
  predicate Names(codec: Codec, raw: string, exact: bool, net: Net) {
    var text := Trim(raw);
    && text != []
    && if '/' in text then codec.parseNet(text) == Some(net)
       else if exact then
         codec.parseAddr(text) == Some(net.addr) && net.prefixLen == if net.addr.family == V4 then 32 else 128
       else codec.deriveCidr(text).Some? && codec.parseNet(codec.deriveCidr(text).value) == Some(net)
  }

  /** The targets that name the network, trimmed, in the order given. */
  function Naming(codec: Codec, targets: seq<string>, exact: bool, net: Net): seq<string> {
    if targets == [] then []
    else
      var before, last := Naming(codec, targets[..|targets| - 1], exact, net), targets[|targets| - 1];
      if Names(codec, last, exact, net) then before + [Trim(last)] else before
  }

  /** The row after the named bans: a new one, or the old one with count, expiry and activity updated. */
  function BannedRow(before: Option<Record>, cidr: string, net: Net, names: seq<string>, reason: string,
                     now: nat, expiry: nat): Record
    requires names != []
  {
    match before
    case None =>
      Record(cidr, if net.addr.family == V6 then 6 else 4, names[0], reason, |names|, now, expiry, None, true)
    case Some(row) =>
      row.(infractionCount := row.infractionCount + |names|, expiresAt := expiry, active := true)
  }

  /** The row of the network after the named bans; times that do not fit leave it as it was. */
  predicate RowBannedAs(codec: Codec, rows: map<string, Record>, rows': map<string, Record>, net: Net,
                        names: seq<string>, reason: string, now: nat, expiry: nat)
  {
    var cidr := codec.showNet(net);
    var before, after := Lookup(rows, cidr), Lookup(rows', cidr);
    after == if names == [] || now >= 0x8000_0000_0000_0000 || expiry >= 0x8000_0000_0000_0000 then before
             else Some(BannedRow(before, cidr, net, names, reason, now, expiry))
  }

  /** Memory and row of the network after the named bans. */
  predicate BannedAs(codec: Codec, s: Sys, s': Sys, net: Net, names: seq<string>,
                     reason: string, now: nat, expiry: nat)
  {
    && Lookup(s'.mem, net) == (if names == [] then Lookup(s.mem, net) else Some(expiry))
    && RowBannedAs(codec, s.table.rows, s'.table.rows, net, names, reason, now, expiry)
  }

  /** One target resolves to the network it names, and to no other. */
  lemma ResolvesAsNamed(codec: Codec, raw: string, exact: bool, net: Net)
    ensures Names(codec, raw, exact, net) <==>
      ResolveTarget(codec, raw, exact).Some? && ResolveTarget(codec, raw, exact).value.0 == net
    ensures ResolveTarget(codec, raw, exact).Some? ==> ResolveTarget(codec, raw, exact).value.1 == Trim(raw)
  {
  }

  lemma OneBan(codec: Codec, s: Sys, net: Net, trigger: string, order: BanOrder, n: Net)
    requires Lawful(codec)
    ensures BannedAs(codec, s, Step(codec, s, BanNet(net, RecordFor(codec, net, trigger, order))), n,
                     if n == net then [trigger] else [], order.reason, order.now, order.expiresAt)
  {
    assert codec.parseNet(codec.showNet(net)) == Some(net) && codec.parseNet(codec.showNet(n)) == Some(n);
  }

  lemma MoreBans(codec: Codec, s: Sys, t: Sys, u: Sys, net: Net, first: seq<string>, more: seq<string>,
                 reason: string, now: nat, expiry: nat)
    requires BannedAs(codec, s, t, net, first, reason, now, expiry)
    requires BannedAs(codec, t, u, net, more, reason, now, expiry)
    ensures BannedAs(codec, s, u, net, first + more, reason, now, expiry)
  {
    if first == [] {
      assert first + more == more;
    } else if more == [] {
      assert first + more == first;
    }
  }

  lemma OneTarget(codec: Codec, s: Sys, raw: string, order: BanOrder, net: Net)
    requires Lawful(codec)
    ensures BannedAs(codec, s, RunSys(codec, s, TargetEvents(codec, raw, order)), net,
                     if Names(codec, raw, order.exact, net) then [Trim(raw)] else [],
                     order.reason, order.now, order.expiresAt)
  {
    ResolvesAsNamed(codec, raw, order.exact, net);
    var resolved := ResolveTarget(codec, raw, order.exact);
    if resolved.Some? {
      var e := BanNet(resolved.value.0, RecordFor(codec, resolved.value.0, resolved.value.1, order));
      assert [e][..0] == [];
      assert RunSys(codec, s, [e]) == Step(codec, s, e);
      OneBan(codec, s, resolved.value.0, resolved.value.1, order, net);
    }
  }

  /** A list of targets bans each network as often as it is named. */
  lemma {:induction false} TargetsBanWhatTheyName(codec: Codec, s: Sys, targets: seq<string>, order: BanOrder, net: Net)
    requires Lawful(codec)
    ensures BannedAs(codec, s, RunSys(codec, s, BanEvents(codec, targets, order)), net,
                     Naming(codec, targets, order.exact, net), order.reason, order.now, order.expiresAt)
  {
    if targets != [] {
      var init, last := targets[..|targets| - 1], targets[|targets| - 1];
      var t := RunSys(codec, s, BanEvents(codec, init, order));
      TargetsBanWhatTheyName(codec, s, init, order, net);
      OneTarget(codec, t, last, order, net);
      RunSysAppend(codec, s, BanEvents(codec, init, order), TargetEvents(codec, last, order));
      MoreBans(codec, s, t, RunSys(codec, t, TargetEvents(codec, last, order)), net,
               Naming(codec, init, order.exact, net), if Names(codec, last, order.exact, net) then [Trim(last)] else [],
               order.reason, order.now, order.expiresAt);
    }
  }

  // ---- the reply ----

  function Count(list: seq<string>, c: string): nat {
    if list == [] then 0 else Count(list[..|list| - 1], c) + if list[|list| - 1] == c then 1 else 0
  }

  lemma {:induction false} CountOfConcat(a: seq<string>, b: seq<string>, c: string)
    ensures Count(a + b, c) == Count(a, c) + Count(b, c)
  {
    if b == [] {
      assert a + b == a;
    } else {
      assert (a + b)[..|a + b| - 1] == a + b[..|b| - 1];
      CountOfConcat(a, b[..|b| - 1], c);
    }
  }

  lemma CidrsOfConcat(a: seq<Event>, b: seq<Event>)
    requires (forall i :: 0 <= i < |a| ==> a[i].BanNet?) && (forall i :: 0 <= i < |b| ==> b[i].BanNet?)
    ensures Cidrs(a + b) == Cidrs(a) + Cidrs(b)
  {
  }

  /** The reply lists the printed form of a network once for each target that names it. */
  lemma {:induction false} ReplyCountsNames(codec: Codec, targets: seq<string>, order: BanOrder, net: Net)
    requires Lawful(codec)
    ensures Count(Cidrs(BanEvents(codec, targets, order)), codec.showNet(net))
         == |Naming(codec, targets, order.exact, net)|
  {
    if targets != [] {
      var init, last := targets[..|targets| - 1], targets[|targets| - 1];
      ReplyCountsNames(codec, init, order, net);
      ReplyOfTarget(codec, last, order, net);
      CidrsOfConcat(BanEvents(codec, init, order), TargetEvents(codec, last, order));
      CountOfConcat(Cidrs(BanEvents(codec, init, order)), Cidrs(TargetEvents(codec, last, order)), codec.showNet(net));
    }
  }

  lemma ReplyOfTarget(codec: Codec, raw: string, order: BanOrder, net: Net)
    requires Lawful(codec)
    ensures Count(Cidrs(TargetEvents(codec, raw, order)), codec.showNet(net))
         == if Names(codec, raw, order.exact, net) then 1 else 0
  {
    ResolvesAsNamed(codec, raw, order.exact, net);
    var resolved := ResolveTarget(codec, raw, order.exact);
    if resolved.Some? {
      var cidr := codec.showNet(resolved.value.0);
      assert codec.parseNet(cidr) == Some(resolved.value.0) && codec.parseNet(codec.showNet(net)) == Some(net);
      assert Cidrs(TargetEvents(codec, raw, order)) == [cidr] && [cidr][..0] == [];
    }
  }

  /** Every network is banned as the targets that name it ask, and listed in the reply once for each. */
  ghost predicate BannedAsAsked(codec: Codec, s: Sys, s': Sys, reply: seq<string>, targets: seq<string>, exact: bool,
                                reason: string, now: nat, expiry: nat)
  {
    forall net: Net {:trigger Naming(codec, targets, exact, net)} ::
      && BannedAs(codec, s, s', net, Naming(codec, targets, exact, net), reason, now, expiry)
      && Count(reply, codec.showNet(net)) == |Naming(codec, targets, exact, net)|
  }

  lemma CommandBansAsAsked(codec: Codec, s: Sys, targets: seq<string>, order: BanOrder)
    requires Lawful(codec)
    ensures BannedAsAsked(codec, s, RunSys(codec, s, BanEvents(codec, targets, order)),
                          Cidrs(BanEvents(codec, targets, order)), targets, order.exact,
                          order.reason, order.now, order.expiresAt)
  {
    var s', reply := RunSys(codec, s, BanEvents(codec, targets, order)), Cidrs(BanEvents(codec, targets, order));
    forall net: Net {:trigger Naming(codec, targets, order.exact, net)}
      ensures BannedAs(codec, s, s', net, Naming(codec, targets, order.exact, net),
                       order.reason, order.now, order.expiresAt)
      ensures Count(reply, codec.showNet(net)) == |Naming(codec, targets, order.exact, net)|
    {
      TargetsBanWhatTheyName(codec, s, targets, order, net);
      ReplyCountsNames(codec, targets, order, net);
    }
  }

  lemma NamingOfOne(codec: Codec, raw: string, exact: bool, net: Net)
    ensures Naming(codec, [raw], exact, net) == if Names(codec, raw, exact, net) then [Trim(raw)] else []
  {
    assert [raw][..0] == [];
  }

  /** What an address names, exact or not, and what slash text names. */
  lemma NamesByKind(codec: Codec, text: string, exact: bool, net: Net)
    requires Lawful(codec) && (codec.parseAddr(text).Some? || codec.parseNet(text).Some?)
    ensures Trim(text) == text
    ensures Names(codec, text, exact, net) <==>
      if codec.parseNet(text).Some? then Some(net) == codec.parseNet(text)
      else if exact then net == HostNet(codec.parseAddr(text).value)
      else codec.deriveCidr(text).Some? && Some(net) == codec.parseNet(codec.deriveCidr(text).value)
  {
    assert Trim(text) == text;
  }

  /** An address, exact or not, and slash text: which network a single target names. */
  lemma OneTargetNames(codec: Codec, text: string, exact: bool, net: Net)
    requires Lawful(codec) && (codec.parseAddr(text).Some? || codec.parseNet(text).Some?)
    ensures codec.parseAddr(text).Some? && exact ==>
      Naming(codec, [text], exact, net) == if net == HostNet(codec.parseAddr(text).value) then [text] else []
    ensures codec.parseAddr(text).Some? && !exact && codec.deriveCidr(text).Some? ==>
      Naming(codec, [text], exact, net)
      == if Some(net) == codec.parseNet(codec.deriveCidr(text).value) then [text] else []
    ensures codec.parseNet(text).Some? ==>
      Naming(codec, [text], exact, net) == if Some(net) == codec.parseNet(text) then [text] else []
  {
    NamesByKind(codec, text, exact, net);
    NamingOfOne(codec, text, exact, net);
    assert codec.parseNet(text).Some? ==> codec.parseAddr(text).None?;
  }

  // ---- the rest of the table ----

  /** Only printed networks get rows. */
  lemma {:induction false} OtherKeysKeepRows(codec: Codec, s: Sys, targets: seq<string>, order: BanOrder, c: string)
    requires forall net: Net :: codec.showNet(net) != c
    ensures Lookup(RunSys(codec, s, BanEvents(codec, targets, order)).table.rows, c) == Lookup(s.table.rows, c)
  {
    if targets != [] {
      var init, last := targets[..|targets| - 1], targets[|targets| - 1];
      OtherKeysKeepRows(codec, s, init, order, c);
      RunSysAppend(codec, s, BanEvents(codec, init, order), TargetEvents(codec, last, order));
      assert forall e: Event :: [e][..0] == [];
    }
  }

  ghost predicate RowsBannedAsAsked(codec: Codec, rows: map<string, Record>, rows': map<string, Record>,
                                    targets: seq<string>, exact: bool, reason: string, now: nat, expiry: nat)
  {
    forall net: Net {:trigger Naming(codec, targets, exact, net)} ::
      RowBannedAs(codec, rows, rows', net, Naming(codec, targets, exact, net), reason, now, expiry)
  }

  /** The offline command leaves the same rows. */
  lemma TableBansAsAsked(codec: Codec, t: Table, targets: seq<string>, order: BanOrder)
    requires Lawful(codec)
    ensures RowsBannedAsAsked(codec, t.rows, RunTable(t, BanEvents(codec, targets, order)).rows,
                              targets, order.exact, order.reason, order.now, order.expiresAt)
  {
    CommandBansAsAsked(codec, Sys(map[], t), targets, order);
    TableOfRun(codec, Sys(map[], t), BanEvents(codec, targets, order));
  }

  /** The table follows the steps alone, without memory. */
  lemma {:induction false} TableOfRun(codec: Codec, s: Sys, es: seq<Event>)
    ensures RunSys(codec, s, es).table == RunTable(s.table, es)
  {
    if es != [] {
      TableOfRun(codec, s, es[..|es| - 1]);
    }
  }
}
