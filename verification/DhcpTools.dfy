/**
 The handlers of the ten mutating DHCP tools, in the order the code checks things, against an
 appliance object. Each handler builds the request it sends. Listing and writing may fail, and a
 write that fails may have been carried out; which page a listing returns, which row id a create
 gets and what a container delete takes along are the appliance's choice.
 */
module DhcpTools {
  import opened Wrappers
  import opened Text
  import opened Netip
  import opened NetipText
  import opened Validation
  import opened Guards
  import opened WhereQuery
  import opened Masks
  import opened ScopeExtent
  import opened Pages
  import opened Requests
  import opened DhcpState

  const SCOPE_SERVER_COLUMN := "server_name"
  const SCOPE_NET_ADDR_COLUMN := "scope_net_addr"
  const SCOPE_SHARED_NETWORK_COLUMN := "sharednetwork_name"
  const STATIC_SERVER_COLUMN := "server_name"
  const STATIC_GROUP_COLUMN := "group_name"

  // ---------- how the appliance reads a filter ----------

  function ScopeColumn(row: ScopeRow, column: string): Option<string> {
    if column == SCOPE_SERVER_COLUMN then Some(row.server)
    else if column == SCOPE_NET_ADDR_COLUMN then row.netAddr
    else if column == SCOPE_SHARED_NETWORK_COLUMN then Some(row.sharedNetwork)
    else None
  }

  function StaticColumn(row: StaticRow, column: string): Option<string> {
    if column == STATIC_SERVER_COLUMN then Some(row.server)
    else if column == STATIC_GROUP_COLUMN then Some(row.group)
    else None
  }

  function ScopesMatching(db: Db, f: Filter): set<nat> {
    set id | id in db.scopes
             && forall i | 0 <= i < |f| :: ScopeColumn(db.scopes[id], f[i].column) == Some(f[i].value)
  }

  function StaticsMatching(db: Db, f: Filter): set<nat> {
    set id | id in db.statics
             && forall i | 0 <= i < |f| :: StaticColumn(db.statics[id], f[i].column) == Some(f[i].value)
  }

  lemma ScopesAtSelected(db: Db, server: string, netAddr: string, f: Filter)
    requires f == [Equality(SCOPE_NET_ADDR_COLUMN, netAddr), Equality(SCOPE_SERVER_COLUMN, server)]
    ensures ScopesMatching(db, f) == ScopesAt(db, server, netAddr)
  {
    assert f[0] == Equality(SCOPE_NET_ADDR_COLUMN, netAddr);
    assert f[1] == Equality(SCOPE_SERVER_COLUMN, server);
  }

  lemma ScopesUnderSelected(db: Db, server: string, name: string, f: Filter)
    requires f == [Equality(SCOPE_SHARED_NETWORK_COLUMN, name), Equality(SCOPE_SERVER_COLUMN, server)]
    ensures ScopesMatching(db, f) == ScopesUnder(db, server, name)
  {
    assert f[0] == Equality(SCOPE_SHARED_NETWORK_COLUMN, name);
    assert f[1] == Equality(SCOPE_SERVER_COLUMN, server);
  }

  lemma StaticsUnderSelected(db: Db, server: string, name: string, f: Filter)
    requires f == [Equality(STATIC_GROUP_COLUMN, name), Equality(STATIC_SERVER_COLUMN, server)]
    ensures StaticsMatching(db, f) == StaticsUnder(db, server, name)
  {
    assert f[0] == Equality(STATIC_GROUP_COLUMN, name);
    assert f[1] == Equality(STATIC_SERVER_COLUMN, server);
  }

  /** Whatever the address and the server hold, the scope guard's query selects the scopes the delete would. */
  lemma ScopeQuerySelects(db: Db, server: string, netAddr: string)
    ensures
      var q := ReadConjunction(MemberQuery(SCOPE_NET_ADDR_COLUMN, netAddr, SCOPE_SERVER_COLUMN, server));
      q.Some? && ScopesMatching(db, q.value) == ScopesAt(db, server, netAddr)
  {
    QueryReadsBack(SCOPE_NET_ADDR_COLUMN, netAddr, SCOPE_SERVER_COLUMN, server);
    var f := [Equality(SCOPE_NET_ADDR_COLUMN, netAddr), Equality(SCOPE_SERVER_COLUMN, server)];
    ScopesAtSelected(db, server, netAddr, f);
  }

  lemma SharedNetworkQuerySelects(db: Db, server: string, name: string)
    ensures
      var q := ReadConjunction(MemberQuery(SCOPE_SHARED_NETWORK_COLUMN, name, SCOPE_SERVER_COLUMN, server));
      q.Some? && ScopesMatching(db, q.value) == ScopesUnder(db, server, name)
  {
    QueryReadsBack(SCOPE_SHARED_NETWORK_COLUMN, name, SCOPE_SERVER_COLUMN, server);
    var f := [Equality(SCOPE_SHARED_NETWORK_COLUMN, name), Equality(SCOPE_SERVER_COLUMN, server)];
    ScopesUnderSelected(db, server, name, f);
  }

  lemma StaticQuerySelects(db: Db, server: string, name: string)
    ensures
      var q := ReadConjunction(MemberQuery(STATIC_GROUP_COLUMN, name, STATIC_SERVER_COLUMN, server));
      q.Some? && StaticsMatching(db, q.value) == StaticsUnder(db, server, name)
  {
    QueryReadsBack(STATIC_GROUP_COLUMN, name, STATIC_SERVER_COLUMN, server);
    var f := [Equality(STATIC_GROUP_COLUMN, name), Equality(STATIC_SERVER_COLUMN, server)];
    StaticsUnderSelected(db, server, name, f);
  }

  // ---------- the appliance ----------

  class Appliance {
    var db: Db
    var log: Trace

    constructor (db: Db)
      ensures this.db == db && log == []
    {
      this.db, log := db, [];
    }

    method ListScopes(where: string, limit: nat) returns (ok: bool, page: seq<ScopeRow>, ghost ids: seq<nat>)
      modifies this`log
      ensures log == old(log) + [Sent(DhcpScopeList(where), ok)]
      ensures ok ==>
        && ReadConjunction(where).Some?
        && IsPage(ScopesMatching(db, ReadConjunction(where).value), limit, ids)
        && |page| == |ids|
        && forall i | 0 <= i < |ids| :: ids[i] in db.scopes && page[i] == db.scopes[ids[i]]
    {
      var query := ReadConjunction(where);
      var fails: bool := *;
      if query == None || fails {
        ids := [];
        log := log + [Sent(DhcpScopeList(where), false)];
        return false, [], ids;
      }
      var chosen := ChoosePage(ScopesMatching(db, query.value), limit);
      page := seq(
        |chosen|,
        i requires 0 <= i < |chosen| && chosen[i] in db.scopes reads this => db.scopes[chosen[i]]);
      log := log + [Sent(DhcpScopeList(where), true)];
      return true, page, chosen;
    }

    method ListStatics(where: string, limit: nat) returns (ok: bool, page: seq<StaticRow>, ghost ids: seq<nat>)
      modifies this`log
      ensures log == old(log) + [Sent(DhcpStaticList(where), ok)]
      ensures ok ==>
        && ReadConjunction(where).Some?
        && IsPage(StaticsMatching(db, ReadConjunction(where).value), limit, ids)
        && |page| == |ids|
        && forall i | 0 <= i < |ids| :: ids[i] in db.statics && page[i] == db.statics[ids[i]]
    {
      var query := ReadConjunction(where);
      var fails: bool := *;
      if query == None || fails {
        ids := [];
        log := log + [Sent(DhcpStaticList(where), false)];
        return false, [], ids;
      }
      var chosen := ChoosePage(StaticsMatching(db, query.value), limit);
      page := seq(
        |chosen|,
        i requires 0 <= i < |chosen| && chosen[i] in db.statics reads this => db.statics[chosen[i]]);
      log := log + [Sent(DhcpStaticList(where), true)];
      return true, page, chosen;
    }

    method AddStatic(row: StaticRow) returns (ok: bool)
      modifies this
      ensures log == old(log) + [Sent(DhcpStaticAdd(row), ok)]
      ensures ok ==> StaticAdded(old(db), row, db)
      ensures db == old(db) || StaticAdded(old(db), row, db)
    {
      var id: nat := *;
      var carried;
      carried, ok := Fate();
      if !carried || id in db.statics {
        ok := false;
        log := log + [Sent(DhcpStaticAdd(row), ok)];
        return;
      }
      db := db.(statics := db.statics[id := row]);
      AddedUnder(old(db.statics), id, row);
      log := log + [Sent(DhcpStaticAdd(row), ok)];
    }

    method AddScope(row: ScopeRow) returns (ok: bool)
      modifies this
      ensures log == old(log) + [Sent(DhcpScopeAdd(row), ok)]
      ensures ok ==> ScopeAdded(old(db), row, db)
      ensures db == old(db) || ScopeAdded(old(db), row, db)
    {
      var id: nat := *;
      var carried;
      carried, ok := Fate();
      if !carried || id in db.scopes {
        ok := false;
        log := log + [Sent(DhcpScopeAdd(row), ok)];
        return;
      }
      db := db.(scopes := db.scopes[id := row]);
      AddedUnder(old(db.scopes), id, row);
      log := log + [Sent(DhcpScopeAdd(row), ok)];
    }

    method AddRange(row: RangeRow) returns (ok: bool)
      modifies this
      ensures log == old(log) + [Sent(DhcpRangeAdd(row), ok)]
      ensures ok ==> RangeAdded(old(db), row, db)
      ensures db == old(db) || RangeAdded(old(db), row, db)
    {
      var id: nat := *;
      var carried;
      carried, ok := Fate();
      if !carried || id in db.ranges {
        ok := false;
        log := log + [Sent(DhcpRangeAdd(row), ok)];
        return;
      }
      db := db.(ranges := db.ranges[id := row]);
      AddedUnder(old(db.ranges), id, row);
      log := log + [Sent(DhcpRangeAdd(row), ok)];
    }

    method AddSharedNetwork(server: string, name: string) returns (ok: bool)
      modifies this
      ensures log == old(log) + [Sent(DhcpSharednetworkAdd(server, name), ok)]
      ensures ok ==> db == old(db).(sharedNetworks := old(db).sharedNetworks + {(server, name)})
      ensures db == old(db) || db == old(db).(sharedNetworks := old(db).sharedNetworks + {(server, name)})
    {
      var carried;
      carried, ok := Fate();
      if carried {
        db := db.(sharedNetworks := db.sharedNetworks + {(server, name)});
      }
      log := log + [Sent(DhcpSharednetworkAdd(server, name), ok)];
    }

    method AddGroup(server: string, name: string) returns (ok: bool)
      modifies this
      ensures log == old(log) + [Sent(DhcpGroupAdd(server, name), ok)]
      ensures ok ==> db == old(db).(groups := old(db).groups + {(server, name)})
      ensures db == old(db) || db == old(db).(groups := old(db).groups + {(server, name)})
    {
      var carried;
      carried, ok := Fate();
      if carried {
        db := db.(groups := db.groups + {(server, name)});
      }
      log := log + [Sent(DhcpGroupAdd(server, name), ok)];
    }

    method DeleteStatics(v6: Ipv6Text, server: string, addr: string) returns (ok: bool)
      modifies this
      ensures log == old(log) + [Sent(DhcpStaticDelete(server, addr), ok)]
      ensures ok ==> db == WithoutStatics(v6, old(db), server, addr)
      ensures db == old(db) || db == WithoutStatics(v6, old(db), server, addr)
    {
      var carried;
      carried, ok := Fate();
      if carried {
        db := WithoutStatics(v6, db, server, addr);
      }
      log := log + [Sent(DhcpStaticDelete(server, addr), ok)];
    }

    method DeleteRanges(v6: Ipv6Text, server: string, start: string, end: string) returns (ok: bool)
      modifies this
      ensures log == old(log) + [Sent(DhcpRangeDelete(server, start, end), ok)]
      ensures ok ==> db == WithoutRanges(v6, old(db), server, start, end)
      ensures db == old(db) || db == WithoutRanges(v6, old(db), server, start, end)
    {
      var carried;
      carried, ok := Fate();
      if carried {
        db := WithoutRanges(v6, db, server, start, end);
      }
      log := log + [Sent(DhcpRangeDelete(server, start, end), ok)];
    }

    method DeleteScopes(v6: Ipv6Text, server: string, netAddr: string) returns (ok: bool)
      modifies this
      ensures log == old(log) + [Sent(DhcpScopeDelete(server, netAddr), ok)]
      ensures ok ==> ScopesDeleted(v6, old(db), server, netAddr, db)
      ensures db == old(db) || ScopesDeleted(v6, old(db), server, netAddr, db)
    {
      var carried;
      carried, ok := Fate();
      if carried {
        var gone := ScopesAt(db, server, netAddr);
        Cascade(v6, gone);
        db := db.(scopes := db.scopes - gone);
      }
      log := log + [Sent(DhcpScopeDelete(server, netAddr), ok)];
    }

    method DeleteSharedNetwork(v6: Ipv6Text, server: string, name: string) returns (ok: bool)
      modifies this
      ensures log == old(log) + [Sent(DhcpSharednetworkDelete(server, name), ok)]
      ensures ok ==> SharedNetworkDeleted(v6, old(db), server, name, db)
      ensures db == old(db) || SharedNetworkDeleted(v6, old(db), server, name, db)
    {
      var take: set<nat> := *;
      var ungroup: bool := *;
      var carried;
      carried, ok := Fate();
      if carried {
        var members := ScopesUnder(db, server, name);
        Cascade(v6, members);
        db := db.(
          scopes := map s | s in db.scopes && !(s in members && s in take) ::
            if s in members && ungroup then db.scopes[s].(sharedNetwork := "") else db.scopes[s],
          sharedNetworks := db.sharedNetworks - {(server, name)});
      }
      log := log + [Sent(DhcpSharednetworkDelete(server, name), ok)];
    }

    method DeleteGroup(server: string, name: string) returns (ok: bool)
      modifies this
      ensures log == old(log) + [Sent(DhcpGroupDelete(server, name), ok)]
      ensures ok ==> GroupDeleted(old(db), server, name, db)
      ensures db == old(db) || GroupDeleted(old(db), server, name, db)
    {
      var take: set<nat> := *;
      var ungroup: bool := *;
      var carried;
      carried, ok := Fate();
      if carried {
        var members := StaticsUnder(db, server, name);
        db := db.(
          statics := map s | s in db.statics && !(s in members && s in take) ::
            if s in members && ungroup then db.statics[s].(group := "") else db.statics[s],
          groups := db.groups - {(server, name)});
      }
      log := log + [Sent(DhcpGroupDelete(server, name), ok)];
    }

    /** Takes some of the ranges and reservations inside these scopes. */
    method Cascade(v6: Ipv6Text, ids: set<nat>)
      modifies this`db
      ensures db == old(db).(ranges := db.ranges, statics := db.statics)
      ensures OnlyInsideGone(v6, old(db), ids, db)
    {
      var takeRanges: set<nat> := *;
      var takeStatics: set<nat> := *;
      db := db.(
        ranges := map r | r in db.ranges
          && !(r in takeRanges && RangeInsideSome(v6, db, ids, db.ranges[r]))
          :: db.ranges[r],
        statics := map s | s in db.statics
          && !(s in takeStatics && StaticInsideSome(v6, db, ids, db.statics[s]))
          :: db.statics[s]);
    }
  }

  // ---------- the tools ----------

  /** A trimmed pair that validates denotes a block: the family of its address, and the length written. */
  lemma TrimmedPairBlock(v6: Ipv6Text, address: string, prefix: string)
    ensures
      var (addrText, prefixText) := (TrimSpace(address), TrimSpace(prefix));
      var block := CanonicalBlock(v6, addrText, prefixText);
      && (ValidSubnetPrefix(v6, addrText, prefixText) <==> block.Some?)
      && (block.Some? ==>
            && ParseAddr(v6, addrText).Some?
            && ParseAddr(v6, addrText).value.family == block.value.addr.family
            && Atoi(prefixText) == Some(block.value.bits))
  {
    TrimIsTight(address);
    TrimIsTight(prefix);
    ValidIffCanonical(v6, TrimSpace(address), TrimSpace(prefix));
  }

  class Server {
    const v6: Ipv6Text
    const g: Guardrails
    const appliance: Appliance

    constructor (v6: Ipv6Text, g: Guardrails, appliance: Appliance)
      ensures this.v6 == v6 && this.g == g && this.appliance == appliance
    {
      this.v6, this.g, this.appliance := v6, g, appliance;
    }

    // ---------- the delete guards ----------

    /** What a guard asks of the appliance: nothing when no subnets are configured, else its listing. */
    function Listed(request: Request, v: Verdict): Trace {
      if |g.protectedSubnets| == 0 then [] else [Sent(request, !v.Failed?)]
    }

    /** `runDhcpScopeExtentQuery`: the extents of all matching scopes, or a refusal when the page is full. */
    method RunDhcpScopeExtentQuery(where: string, ghost matches: set<nat>)
      returns (extents: seq<AddrExtent>, v: Verdict, ghost ids: seq<nat>)
      requires ReadConjunction(where).Some? && matches == ScopesMatching(appliance.db, ReadConjunction(where).value)
      modifies appliance`log
      ensures appliance.log == old(appliance.log) + [Sent(DhcpScopeList(where), !v.Failed?)]
      ensures v.Pass? ==>
        && ToSet(ids) == matches
        && |matches| < MAX_LIST_LIMIT
        && |extents| == |ids|
        && forall i | 0 <= i < |ids| ::
             && ids[i] in appliance.db.scopes
             && extents[i] == ScopeRowExtent(v6, appliance.db.scopes[ids[i]])
      ensures v.Refuse? ==> |matches| >= MAX_LIST_LIMIT
    {
      var ok, page;
      ok, page, ids := appliance.ListScopes(where, MAX_LIST_LIMIT);
      if !ok {
        return [], Failed, ids;
      }
      ShortPageIsComplete(matches, MAX_LIST_LIMIT, ids);
      if |page| >= MAX_LIST_LIMIT {
        return [], Refuse, ids;
      }
      extents := ScopeExtentsFromRows(v6, page);
      return extents, Pass, ids;
    }

    /** The loop both scope guards run over the extents of the scopes they resolved. */
    method CheckScopeExtents(where: string, ghost members: set<nat>) returns (v: Verdict)
      requires ReadConjunction(where).Some? && members == ScopesMatching(appliance.db, ReadConjunction(where).value)
      modifies appliance`log
      ensures appliance.log == old(appliance.log) + Listed(DhcpScopeList(where), v)
      ensures |g.protectedSubnets| == 0 ==> v.Pass?
      ensures v.Pass? ==> ScopesVerified(v6, g.protectedSubnets, appliance.db, members)
      ensures v.Refuse? ==> !ScopesVerified(v6, g.protectedSubnets, appliance.db, members)
    {
      if |g.protectedSubnets| == 0 {
        return Pass;
      }
      var extents, resolved;
      ghost var ids;
      extents, resolved, ids := RunDhcpScopeExtentQuery(where, members);
      if !resolved.Pass? {
        return resolved;
      }
      ghost var db := appliance.db;
      ghost var verified := id => id in db.scopes && ScopeVerified(v6, g.protectedSubnets, db.scopes[id]);
      for i := 0 to |extents|
        invariant forall j | 0 <= j < i :: verified(ids[j])
        modifies {}
      {
        var e := extents[i];
        assert ids[i] in members;
        ExtentCheckIsExact(v6, g.protectedSubnets, db.scopes[ids[i]]);
        if !Parseable(v6, e) {
          return Refuse;
        }
        var p := g.OverlappingProtectedSubnet(v6, e.start, e.end);
        if p.Some? {
          return Refuse;
        }
        HoldsSoFar(verified, ids, i);
      }
      return Pass;
    }

    method ApplyDhcpScopeDeleteExtentProtection(server: string, netAddr: string) returns (v: Verdict)
      modifies appliance`log
      ensures
        appliance.log == old(appliance.log)
          + Listed(DhcpScopeList(MemberQuery("scope_net_addr", netAddr, "server_name", server)), v)
      ensures |g.protectedSubnets| == 0 ==> v.Pass?
      ensures
        var members := ScopesAt(appliance.db, server, netAddr);
        && (v.Pass? ==> ScopesVerified(v6, g.protectedSubnets, appliance.db, members))
        && (v.Refuse? ==> !ScopesVerified(v6, g.protectedSubnets, appliance.db, members))
    {
      var where := MemberQuery(SCOPE_NET_ADDR_COLUMN, netAddr, SCOPE_SERVER_COLUMN, server);
      ScopeQuerySelects(appliance.db, server, netAddr);
      v := CheckScopeExtents(where, ScopesAt(appliance.db, server, netAddr));
    }

    method ApplyDhcpSharedNetworkDeleteExtentProtection(server: string, name: string) returns (v: Verdict)
      modifies appliance`log
      ensures
        appliance.log == old(appliance.log)
          + Listed(DhcpScopeList(MemberQuery("sharednetwork_name", name, "server_name", server)), v)
      ensures |g.protectedSubnets| == 0 ==> v.Pass?
      ensures
        var members := ScopesUnder(appliance.db, server, name);
        && (v.Pass? ==> ScopesVerified(v6, g.protectedSubnets, appliance.db, members))
        && (v.Refuse? ==> !ScopesVerified(v6, g.protectedSubnets, appliance.db, members))
    {
      var where := MemberQuery(SCOPE_SHARED_NETWORK_COLUMN, name, SCOPE_SERVER_COLUMN, server);
      SharedNetworkQuerySelects(appliance.db, server, name);
      v := CheckScopeExtents(where, ScopesUnder(appliance.db, server, name));
    }

    /** `lookupDhcpGroupStaticAddrs`: the addresses of all of a group's reservations, or a refusal of a full page. */
    method LookupDhcpGroupStaticAddrs(server: string, name: string)
      returns (addrs: seq<string>, v: Verdict, ghost ids: seq<nat>)
      modifies appliance`log
      ensures
        appliance.log == old(appliance.log)
          + [Sent(DhcpStaticList(MemberQuery("group_name", name, "server_name", server)), !v.Failed?)]
      ensures v.Pass? ==>
        && ToSet(ids) == StaticsUnder(appliance.db, server, name)
        && |StaticsUnder(appliance.db, server, name)| < MAX_LIST_LIMIT
        && |addrs| == |ids|
        && forall i | 0 <= i < |ids| ::
             && ids[i] in appliance.db.statics
             && addrs[i] == AddrText(appliance.db.statics[ids[i]])
      ensures v.Refuse? ==> |StaticsUnder(appliance.db, server, name)| >= MAX_LIST_LIMIT
    {
      var where := MemberQuery(STATIC_GROUP_COLUMN, name, STATIC_SERVER_COLUMN, server);
      StaticQuerySelects(appliance.db, server, name);
      ghost var matches := StaticsUnder(appliance.db, server, name);
      var ok, page;
      ok, page, ids := appliance.ListStatics(where, MAX_LIST_LIMIT);
      if !ok {
        return [], Failed, ids;
      }
      ShortPageIsComplete(matches, MAX_LIST_LIMIT, ids);
      if |page| >= MAX_LIST_LIMIT {
        return [], Refuse, ids;
      }
      addrs := [];
      for i := 0 to |page|
        invariant |addrs| == i
        invariant forall j | 0 <= j < i :: addrs[j] == AddrText(page[j])
      {
        var addr := "";
        if page[i].addr.Some? {
          addr := page[i].addr.value;
        }
        addrs := addrs + [addr];
      }
      return addrs, Pass, ids;
    }

    method ApplyDhcpGroupDeleteStaticProtection(server: string, name: string) returns (v: Verdict)
      requires Lawful(v6)
      modifies appliance`log
      ensures
        appliance.log == old(appliance.log)
          + Listed(DhcpStaticList(MemberQuery("group_name", name, "server_name", server)), v)
      ensures |g.protectedSubnets| == 0 ==> v.Pass?
      ensures
        var members := StaticsUnder(appliance.db, server, name);
        && (v.Pass? ==> StaticsVerified(v6, g.protectedSubnets, appliance.db, members))
        && (v.Refuse? ==> !StaticsVerified(v6, g.protectedSubnets, appliance.db, members))
    {
      if |g.protectedSubnets| == 0 {
        return Pass;
      }
      var addrs, resolved;
      ghost var ids;
      addrs, resolved, ids := LookupDhcpGroupStaticAddrs(server, name);
      if !resolved.Pass? {
        return resolved;
      }
      ghost var db := appliance.db;
      ghost var passes := id => id in db.statics && StaticPasses(v6, g.protectedSubnets, db.statics[id]);
      for i := 0 to |addrs|
        invariant forall j | 0 <= j < i :: passes(ids[j])
        modifies {}
      {
        assert ids[i] in StaticsUnder(db, server, name);
        StaticCheckIsExact(v6, g.protectedSubnets, db.statics[ids[i]]);
        if ParseAddr(v6, TrimSpace(addrs[i])) == None {
          return Refuse;
        }
        var refused := g.CheckProtectedSubnet(v6, addrs[i]);
        if refused {
          return Refuse;
        }
        HoldsSoFar(passes, ids, i);
      }
      return Pass;
    }

    // ---------- the handlers ----------

    /** The mode, the guard and the validators of `dhcp_static_add`. */
    method StaticAddPasses(server: string, name: string, ip: string, mac: string) returns (pass: bool)
      requires Lawful(v6)
      ensures pass <==> InputsPass(v6, g, Call.StaticAdd(server, name, ip, mac))
    {
      if g.readOnly {
        return false;
      }
      var forbidden := g.CheckProtectedSubnet(v6, ip);
      if ParseAddr(v6, TrimSpace(ip)).Some? {
        AddressCheckIsExact(v6, g.protectedSubnets, ip);
      }
      if forbidden {
        return false;
      }
      if !ValidRequiredString(server) || !ValidRequiredString(name) || !ValidIP(v6, ip) || !ValidDHCPMAC(mac) {
        return false;
      }
      return true;
    }

    method StaticAdd(server: string, name: string, ip: string, mac: string)
      returns (r: Reply, ghost trace: Trace)
      requires Lawful(v6)
      modifies appliance
      ensures appliance.log == old(appliance.log) + trace
      ensures
        Answered(
          v6, g, old(appliance.db), Call.StaticAdd(server, name, ip, mac), r, appliance.db, trace)
    {
      ghost var c := Call.StaticAdd(server, name, ip, mac);
      var pass := StaticAddPasses(server, name, ip, mac);
      if !pass {
        return Refused, [];
      }
      var input := StaticRow(server, Some(ip), name, mac, "");
      var ok := appliance.AddStatic(input);
      return if ok then Done else ApiError, Looked(g, c, true) + [Sent(Write(v6, c), ok)];
    }

    /** The mode, the guard and the validators of `dhcp_static_delete`. */
    method StaticDeletePasses(server: string, ip: string) returns (pass: bool)
      requires Lawful(v6)
      ensures pass <==> InputsPass(v6, g, Call.StaticDelete(server, ip))
    {
      if g.readOnly {
        return false;
      }
      var forbidden := g.CheckProtectedSubnet(v6, ip);
      if ParseAddr(v6, TrimSpace(ip)).Some? {
        AddressCheckIsExact(v6, g.protectedSubnets, ip);
      }
      if forbidden {
        return false;
      }
      if !ValidRequiredString(server) || !ValidIP(v6, ip) {
        return false;
      }
      return true;
    }

    method StaticDelete(server: string, ip: string)
      returns (r: Reply, ghost trace: Trace)
      requires Lawful(v6)
      modifies appliance
      ensures appliance.log == old(appliance.log) + trace
      ensures
        Answered(
          v6, g, old(appliance.db), Call.StaticDelete(server, ip), r, appliance.db, trace)
    {
      ghost var c := Call.StaticDelete(server, ip);
      var pass := StaticDeletePasses(server, ip);
      if !pass {
        return Refused, [];
      }
      var ok := appliance.DeleteStatics(v6, server, ip);
      return if ok then Done else ApiError, Looked(g, c, true) + [Sent(Write(v6, c), ok)];
    }

    /** The mode, the guard and the validators of `dhcp_scope_create`. */
    method ScopeCreatePasses(server: string, address: string, prefix: string, name: string) returns (pass: bool)
      requires Lawful(v6)
      ensures pass <==> InputsPass(v6, g, Call.ScopeCreate(server, address, prefix, name))
    {
      var addrText, prefixText := TrimSpace(address), TrimSpace(prefix);
      if g.readOnly {
        return false;
      }
      var forbidden := g.CheckProtectedSubnetCIDR(v6, addrText, prefixText);
      TrimmedPairBlock(v6, address, prefix);
      if forbidden {
        return false;
      }
      if !ValidRequiredString(server) || !ValidSubnetPrefix(v6, addrText, prefixText) || !ValidOptionalString(name) {
        return false;
      }
      var addr := ParseAddr(v6, addrText);
      if !addr.value.family.V4? {
        return false;
      }
      return true;
    }

    /** The row of a scope create; the name is set when one is given. */
    method ScopeInput(server: string, addrText: string, bits: int, name: string) returns (input: ScopeRow)
      ensures input == CreatedRow(server, addrText, bits, Given(name))
    {
      var mask := PrefixToDottedMask(bits);
      input := ScopeRow(server, Some(addrText), None, Some(mask), None, "");
      if name != "" {
        input := input.(name := Some(name));
      }
    }

    method ScopeCreate(server: string, address: string, prefix: string, name: string)
      returns (r: Reply, ghost trace: Trace)
      requires Lawful(v6)
      modifies appliance
      ensures appliance.log == old(appliance.log) + trace
      ensures
        Answered(
          v6, g, old(appliance.db), Call.ScopeCreate(server, address, prefix, name), r, appliance.db, trace)
    {
      ghost var c := Call.ScopeCreate(server, address, prefix, name);
      var pass := ScopeCreatePasses(server, address, prefix, name);
      if !pass {
        return Refused, [];
      }
      TrimmedPairBlock(v6, address, prefix);
      var input := ScopeInput(server, TrimSpace(address), Atoi(TrimSpace(prefix)).value, name);
      assert input == ScopeSent(v6, c);
      var ok := appliance.AddScope(input);
      return if ok then Done else ApiError, Looked(g, c, true) + [Sent(Write(v6, c), ok)];
    }

    /** The mode, the guard and the validators of `dhcp_scope_delete`. */
    method ScopeDeletePasses(server: string, address: string) returns (pass: bool)
      requires Lawful(v6)
      ensures pass <==> InputsPass(v6, g, Call.ScopeDelete(server, address))
    {
      var addrText := TrimSpace(address);
      if g.readOnly {
        return false;
      }
      var forbidden := g.CheckProtectedSubnet(v6, addrText);
      if ParseAddr(v6, TrimSpace(addrText)).Some? {
        AddressCheckIsExact(v6, g.protectedSubnets, addrText);
      }
      if forbidden {
        return false;
      }
      if !ValidRequiredString(server) || !ValidIPv4(v6, addrText) {
        return false;
      }
      return true;
    }

    method ScopeDelete(server: string, address: string)
      returns (r: Reply, ghost trace: Trace)
      requires Lawful(v6)
      modifies appliance
      ensures appliance.log == old(appliance.log) + trace
      ensures
        Answered(
          v6, g, old(appliance.db), Call.ScopeDelete(server, address), r, appliance.db, trace)
    {
      ghost var c := Call.ScopeDelete(server, address);
      var pass := ScopeDeletePasses(server, address);
      if !pass {
        return Refused, [];
      }
      var addrText := TrimSpace(address);
      var verdict := ApplyDhcpScopeDeleteExtentProtection(server, addrText);
      if !verdict.Pass? {
        return if verdict.Refuse? then Refused else ApiError, Looked(g, c, verdict.Refuse?);
      }
      var ok := appliance.DeleteScopes(v6, server, addrText);
      WriteAnswers(v6, g, old(appliance.db), c, ok, appliance.db);
      return if ok then Done else ApiError, Looked(g, c, true) + [Sent(Write(v6, c), ok)];
    }

    /** `validateDhcpRangeEndpoints`: accepts exactly the ends of one run of addresses of one family. */
    method ValidateDhcpRangeEndpoints(server: string, start: string, end: string) returns (valid: bool)
      ensures valid <==> ValidRangeEndpoints(v6, server, start, end)
    {
      if !ValidRequiredString(server) || !ValidIP(v6, start) || !ValidIP(v6, end) {
        return false;
      }
      var startAddr, endAddr := ParseAddr(v6, TrimSpace(start)).value, ParseAddr(v6, TrimSpace(end)).value;
      EndsOfInterval(startAddr, endAddr);
      if startAddr.family.V4? != endAddr.family.V4? {
        return false;
      }
      return !Less(endAddr, startAddr);
    }

    /** The mode, the guard and the validators of `dhcp_range_create`. */
    method RangeCreatePasses(server: string, start: string, end: string, scope: string, name: string)
      returns (pass: bool)
      ensures pass <==> InputsPass(v6, g, Call.RangeCreate(server, start, end, scope, name))
    {
      RangeChecksAreExact(v6, g, server, start, end);
      if g.readOnly {
        return false;
      }
      var forbidden := g.CheckProtectedRange(v6, start, end);
      if forbidden {
        return false;
      }
      var valid := ValidateDhcpRangeEndpoints(server, start, end);
      if !valid || !ValidOptionalString(scope) || !ValidOptionalString(name) {
        return false;
      }
      return true;
    }

    method RangeCreate(server: string, start: string, end: string, scope: string, name: string)
      returns (r: Reply, ghost trace: Trace)
      modifies appliance
      ensures appliance.log == old(appliance.log) + trace
      ensures
        Answered(
          v6, g, old(appliance.db), Call.RangeCreate(server, start, end, scope, name), r, appliance.db, trace)
    {
      ghost var c := Call.RangeCreate(server, start, end, scope, name);
      var pass := RangeCreatePasses(server, start, end, scope, name);
      if !pass {
        return Refused, [];
      }
      var input := RangeRow(server, start, end, None, None);
      if scope != "" {
        input := input.(scope := Some(scope));
      }
      if name != "" {
        input := input.(name := Some(name));
      }
      var ok := appliance.AddRange(input);
      return if ok then Done else ApiError, Looked(g, c, true) + [Sent(Write(v6, c), ok)];
    }

    /** The mode, the guard and the validators of `dhcp_range_delete`. */
    method RangeDeletePasses(server: string, start: string, end: string) returns (pass: bool)
      ensures pass <==> InputsPass(v6, g, Call.RangeDelete(server, start, end))
    {
      RangeChecksAreExact(v6, g, server, start, end);
      if g.readOnly {
        return false;
      }
      var hit := g.OverlappingProtectedSubnet(v6, start, end);
      if hit.Some? {
        return false;
      }
      var valid := ValidateDhcpRangeEndpoints(server, start, end);
      if !valid {
        return false;
      }
      return true;
    }

    method RangeDelete(server: string, start: string, end: string)
      returns (r: Reply, ghost trace: Trace)
      modifies appliance
      ensures appliance.log == old(appliance.log) + trace
      ensures
        Answered(
          v6, g, old(appliance.db), Call.RangeDelete(server, start, end), r, appliance.db, trace)
    {
      ghost var c := Call.RangeDelete(server, start, end);
      var pass := RangeDeletePasses(server, start, end);
      if !pass {
        return Refused, [];
      }
      var ok := appliance.DeleteRanges(v6, server, start, end);
      return if ok then Done else ApiError, Looked(g, c, true) + [Sent(Write(v6, c), ok)];
    }

    method SharedNetworkCreate(server: string, name: string) returns (r: Reply, ghost trace: Trace)
      modifies appliance
      ensures appliance.log == old(appliance.log) + trace
      ensures Answered(v6, g, old(appliance.db), Call.SharedNetworkCreate(server, name), r, appliance.db, trace)
    {
      ghost var c := Call.SharedNetworkCreate(server, name);
      if g.readOnly {
        return Refused, [];
      }
      if !ValidRequiredString(server) || !ValidRequiredString(name) {
        return Refused, [];
      }
      var ok := appliance.AddSharedNetwork(server, name);
      return if ok then Done else ApiError, Looked(g, c, true) + [Sent(Write(v6, c), ok)];
    }

    method SharedNetworkDelete(server: string, name: string) returns (r: Reply, ghost trace: Trace)
      modifies appliance
      ensures appliance.log == old(appliance.log) + trace
      ensures Answered(v6, g, old(appliance.db), Call.SharedNetworkDelete(server, name), r, appliance.db, trace)
    {
      ghost var c := Call.SharedNetworkDelete(server, name);
      if g.readOnly {
        return Refused, [];
      }
      if !ValidRequiredString(server) || !ValidRequiredString(name) {
        return Refused, [];
      }
      var verdict := ApplyDhcpSharedNetworkDeleteExtentProtection(server, name);
      if !verdict.Pass? {
        return if verdict.Refuse? then Refused else ApiError, Looked(g, c, verdict.Refuse?);
      }
      var ok := appliance.DeleteSharedNetwork(v6, server, name);
      return if ok then Done else ApiError, Looked(g, c, true) + [Sent(Write(v6, c), ok)];
    }

    method GroupCreate(server: string, name: string) returns (r: Reply, ghost trace: Trace)
      modifies appliance
      ensures appliance.log == old(appliance.log) + trace
      ensures Answered(v6, g, old(appliance.db), Call.GroupCreate(server, name), r, appliance.db, trace)
    {
      ghost var c := Call.GroupCreate(server, name);
      if g.readOnly {
        return Refused, [];
      }
      if !ValidRequiredString(server) || !ValidRequiredString(name) {
        return Refused, [];
      }
      var ok := appliance.AddGroup(server, name);
      return if ok then Done else ApiError, Looked(g, c, true) + [Sent(Write(v6, c), ok)];
    }

    method GroupDelete(server: string, name: string) returns (r: Reply, ghost trace: Trace)
      requires Lawful(v6)
      modifies appliance
      ensures appliance.log == old(appliance.log) + trace
      ensures Answered(v6, g, old(appliance.db), Call.GroupDelete(server, name), r, appliance.db, trace)
    {
      ghost var c := Call.GroupDelete(server, name);
      if g.readOnly {
        return Refused, [];
      }
      if !ValidRequiredString(server) || !ValidRequiredString(name) {
        return Refused, [];
      }
      var verdict := ApplyDhcpGroupDeleteStaticProtection(server, name);
      if !verdict.Pass? {
        return if verdict.Refuse? then Refused else ApiError, Looked(g, c, verdict.Refuse?);
      }
      var ok := appliance.DeleteGroup(server, name);
      return if ok then Done else ApiError, Looked(g, c, true) + [Sent(Write(v6, c), ok)];
    }
  }
}
