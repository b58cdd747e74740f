/**
 The appliance's networks: how the IPAM tools look them up, by a filter of text equalities, one
 page of at most a thousand rows, or by id; and what creating, editing and deleting a subnet does.
 The appliance keeps subnets as whole CIDR blocks.
 */
module Ipam {
  import opened Wrappers
  import opened Text
  import opened Netip
  import opened NetipText
  import opened Validation
  import opened Guards
  import opened WhereQuery
  import opened Pages
  import opened Requests

  /** The fields of a network row that the tools read or filter on. */
  datatype NetworkRow = NetworkRow(
    id: Option<string>,
    size: Option<string>,
    start: Option<string>,
    end: Option<string>,
    space: Option<string>,
    terminal: Option<string>)

  type Networks = map<nat, NetworkRow>

  function NetworkColumn(row: NetworkRow, column: string): Option<string> {
    if column == "network_start_hostaddr" then row.start
    else if column == "network_is_terminal" then row.terminal
    else if column == "site_name" then row.space
    else None
  }

  function NetworksMatching(networks: Networks, f: Filter): set<nat> {
    set id | id in networks && forall i | 0 <= i < |f| :: NetworkColumn(networks[id], f[i].column) == Some(f[i].value)
  }

  /** The networks at a start address, in one space or in all, terminal ones only or all. */
  function NetworksAt(networks: Networks, start: string, terminalOnly: bool, space: string): set<nat> {
    set id | id in networks
             && networks[id].start == Some(start)
             && (terminalOnly ==> networks[id].terminal == Some("1"))
             && (space != "" ==> networks[id].space == Some(space))
  }

  function RowsOf(networks: Networks, ids: seq<nat>): seq<NetworkRow>
    requires forall i | 0 <= i < |ids| :: ids[i] in networks
  {
    seq(|ids|, i requires 0 <= i < |ids| => networks[ids[i]])
  }

  function TextOf(field: Option<string>): string {
    if field.Some? then field.value else ""
  }

  function RowExtent(row: NetworkRow): AddrExtent {
    AddrExtent(TextOf(row.start), TextOf(row.end))
  }

  /** The networks a subnet delete names: all that start at the address, in the space if one is given. */
  function Targets(v6: Ipv6Text, networks: Networks, a: Addr, space: string): set<nat> {
    NetworksAt(networks, ShowAddr(v6, a), false, space)
  }

  function TargetsOf(v6: Ipv6Text, networks: Networks, space: string, address: string): set<nat> {
    match ParseAddr(v6, TrimSpace(address))
    case None => {}
    case Some(a) => Targets(v6, networks, a, space)
  }

  // ---------- what a subnet request does ----------

  /** The row's extent is this block's. */
  predicate IsSubnet(v6: Ipv6Text, row: NetworkRow, block: Prefix) {
    row.start == Some(ShowAddr(v6, First(block))) && row.end == Some(ShowAddr(v6, Last(block)))
  }

  /** One network more, in this space: the block of the address and the prefix. */
  ghost predicate SubnetAdded(
      v6: Ipv6Text, before: Networks, space: string, address: string, prefix: string, after: Networks)
  {
    && CanonicalBlock(v6, address, prefix).Some?
    && exists id: nat, row: NetworkRow |
         && id !in before && row.space == Some(space)
         && IsSubnet(v6, row, CanonicalBlock(v6, address, prefix).value) ::
         after == before[id := row]
  }

  lemma SubnetAddedUnder(
      v6: Ipv6Text, before: Networks, id: nat, row: NetworkRow, space: string, address: string, prefix: string)
    requires CanonicalBlock(v6, address, prefix).Some? && id !in before && row.space == Some(space)
    requires IsSubnet(v6, row, CanonicalBlock(v6, address, prefix).value)
    ensures SubnetAdded(v6, before, space, address, prefix, before[id := row])
  {
  }

  /** An edited row stays in its space, and keeps its extent or becomes the block of its start and a new length. */
  ghost predicate EditOf(v6: Ipv6Text, row: NetworkRow, prefix: Option<string>, edited: NetworkRow) {
    && edited.space == row.space
    && match prefix
       case None => edited.start == row.start && edited.end == row.end
       case Some(p) =>
         && CanonicalBlock(v6, TextOf(row.start), p).Some?
         && IsSubnet(v6, edited, CanonicalBlock(v6, TextOf(row.start), p).value)
  }

  ghost predicate SubnetEdited(v6: Ipv6Text, before: Networks, id: int, prefix: Option<string>, after: Networks) {
    && id >= 0 && id in before
    && exists edited: NetworkRow | EditOf(v6, before[id], prefix, edited) :: after == before[id := edited]
  }

  /** The inner network lies in the outer one: same space, and both its ends between the outer ends. */
  predicate NetworkInside(v6: Ipv6Text, outer: NetworkRow, inner: NetworkRow) {
    var (o, i) := (RowExtent(outer), RowExtent(inner));
    && inner.space == outer.space
    && match (ParseAddr(v6, TrimSpace(o.start)), ParseAddr(v6, TrimSpace(o.end)))
       case (Some(a), Some(b)) =>
         (match (ParseAddr(v6, TrimSpace(i.start)), ParseAddr(v6, TrimSpace(i.end)))
          case (Some(c), Some(d)) =>
            Between(Lower(a, b), c, Upper(a, b)) && Between(Lower(a, b), d, Upper(a, b))
          case _ => false)
       case _ => false
  }

  predicate InsideSome(v6: Ipv6Text, networks: Networks, ids: set<nat>, row: NetworkRow) {
    exists id | id in ids && id in networks :: NetworkInside(v6, networks[id], row)
  }

  /** The targets go, networks inside them may go along, and nothing else changes. */
  ghost predicate SubnetsDeleted(v6: Ipv6Text, before: Networks, space: string, address: string, after: Networks) {
    var targets := TargetsOf(v6, before, space, address);
    && after.Keys <= before.Keys - targets
    && forall id | id in before ::
         || (id in after && after[id] == before[id])
         || (id !in after && (id in targets || InsideSome(v6, before, targets, before[id])))
  }

  /** What is left without the targets, when these ids go along if they are inside. */
  function Without(v6: Ipv6Text, networks: Networks, targets: set<nat>, take: set<nat>): Networks {
    map id | id in networks
      && id !in targets && !(id in take && InsideSome(v6, networks, targets, networks[id])) :: networks[id]
  }

  lemma WithoutIsDelete(v6: Ipv6Text, networks: Networks, space: string, address: string, take: set<nat>)
    ensures
      SubnetsDeleted(
        v6, networks, space, address, Without(v6, networks, TargetsOf(v6, networks, space, address), take))
  {
  }

  // ---------- the requests ----------

  /** The requests of the appliance's network interface, with what they carry. */
  datatype Request =
    | IpamNetworkList(where: string)
    | IpamNetworkInfo(id: int)
    | IpamNetworkAdd(space: string, address: string, prefix: string, name: string)
    | IpamNetworkEdit(id: int, newName: Option<string>, newPrefix: Option<string>, newClass: Option<string>)
    | IpamNetworkDelete(space: string, address: string)

  type Trace = seq<Sent<Request>>

  // ---------- the appliance ----------

  class Appliance {
    var networks: Networks
    var log: Trace

    constructor (networks: Networks)
      ensures this.networks == networks && log == []
    {
      this.networks, log := networks, [];
    }

    method ListNetworks(where: string, limit: nat) returns (ok: bool, page: seq<NetworkRow>, ghost ids: seq<nat>)
      modifies this`log
      ensures log == old(log) + [Sent(IpamNetworkList(where), ok)]
      ensures ok ==>
        && ReadConjunction(where).Some?
        && IsPage(NetworksMatching(networks, ReadConjunction(where).value), limit, ids)
        && (forall i | 0 <= i < |ids| :: ids[i] in networks)
        && page == RowsOf(networks, ids)
    {
      var query := ReadConjunction(where);
      var fails: bool := *;
      if query == None || fails {
        ids := [];
        log := log + [Sent(IpamNetworkList(where), false)];
        return false, [], ids;
      }
      var chosen := ChoosePage(NetworksMatching(networks, query.value), limit);
      log := log + [Sent(IpamNetworkList(where), true)];
      return true, RowsOf(networks, chosen), chosen;
    }

    /** The row of an id, or no row. */
    method NetworkInfo(id: int) returns (ok: bool, data: seq<NetworkRow>)
      modifies this`log
      ensures log == old(log) + [Sent(IpamNetworkInfo(id), ok)]
      ensures ok ==> data == if id >= 0 && id in networks then [networks[id]] else []
    {
      ok := *;
      data := if ok && id >= 0 && id in networks then [networks[id]] else [];
      log := log + [Sent(IpamNetworkInfo(id), ok)];
    }

    /** Creates the subnet of an address and a prefix, if they form a block. */
    method AddSubnet(v6: Ipv6Text, space: string, address: string, prefix: string, name: string) returns (ok: bool)
      modifies this
      ensures log == old(log) + [Sent(IpamNetworkAdd(space, address, prefix, name), ok)]
      ensures ok ==> SubnetAdded(v6, old(networks), space, address, prefix, networks)
      ensures networks == old(networks) || SubnetAdded(v6, old(networks), space, address, prefix, networks)
    {
      var id: nat := *;
      var row: NetworkRow := *;
      var carried;
      carried, ok := Fate();
      var block := CanonicalBlock(v6, address, prefix);
      if carried && block.Some? && id !in networks {
        row := row.(start := Some(ShowAddr(v6, First(block.value))), end := Some(ShowAddr(v6, Last(block.value))));
        row := row.(space := Some(space));
        SubnetAddedUnder(v6, networks, id, row, space, address, prefix);
        networks := networks[id := row];
      } else {
        ok := false;
      }
      log := log + [Sent(IpamNetworkAdd(space, address, prefix, name), ok)];
    }

    /** Edits a subnet; a resize needs a block of its start and the new length. */
    method EditSubnet(
        v6: Ipv6Text, id: int, name: Option<string>, prefix: Option<string>, className: Option<string>)
      returns (ok: bool)
      modifies this
      ensures log == old(log) + [Sent(IpamNetworkEdit(id, name, prefix, className), ok)]
      ensures ok ==> SubnetEdited(v6, old(networks), id, prefix, networks)
      ensures networks == old(networks) || SubnetEdited(v6, old(networks), id, prefix, networks)
    {
      var size: Option<string> := *;
      var carried;
      carried, ok := Fate();
      var known := id >= 0 && id in networks;
      var block := if known && prefix.Some? then CanonicalBlock(v6, TextOf(networks[id].start), prefix.value) else None;
      if carried && known && (prefix == None || block.Some?) {
        var edited := networks[id];
        if prefix.Some? {
          edited := edited.(start := Some(ShowAddr(v6, First(block.value))), size := size);
          edited := edited.(end := Some(ShowAddr(v6, Last(block.value))));
        }
        assert EditOf(v6, networks[id], prefix, edited);
        networks := networks[id := edited];
      } else {
        ok := false;
      }
      log := log + [Sent(IpamNetworkEdit(id, name, prefix, className), ok)];
    }

    /** Deletes the networks that start at an address in a space. */
    method DeleteSubnets(v6: Ipv6Text, space: string, address: string) returns (ok: bool)
      modifies this
      ensures log == old(log) + [Sent(IpamNetworkDelete(space, address), ok)]
      ensures ok ==> SubnetsDeleted(v6, old(networks), space, address, networks)
      ensures networks == old(networks) || SubnetsDeleted(v6, old(networks), space, address, networks)
    {
      var take: set<nat> := *;
      var carried;
      carried, ok := Fate();
      if carried {
        WithoutIsDelete(v6, networks, space, address, take);
        networks := Without(v6, networks, TargetsOf(v6, networks, space, address), take);
      }
      log := log + [Sent(IpamNetworkDelete(space, address), ok)];
    }
  }

  // ---------- the lookups' filters ----------

  /** Whatever start address and space hold, the filter text selects exactly the networks meant. */
  ghost predicate Selects(networks: Networks, where: string, start: string, terminalOnly: bool, space: string) {
    && ReadConjunction(where).Some?
    && NetworksMatching(networks, ReadConjunction(where).value) == NetworksAt(networks, start, terminalOnly, space)
  }

  /** One more equality, on the space, when one is given. */
  function SpaceWhere(space: string): string {
    if space == "" then "" else " AND site_name='" + EscapeWhereValue(space) + "'"
  }

  function StartWhere(start: string, space: string): string {
    "network_start_hostaddr='" + EscapeWhereValue(start) + "'" + SpaceWhere(space)
  }

  function TerminalWhere(start: string, space: string): string {
    "network_start_hostaddr='" + EscapeWhereValue(start) + "' AND network_is_terminal='1'" + SpaceWhere(space)
  }

  /** The filter of a CIDR resolution: start address, terminal networks, and the space when one is given. */
  method TerminalFilter(start: string, space: string) returns (fixed: string)
    ensures fixed == TerminalWhere(start, space)
    ensures forall networks :: Selects(networks, fixed, start, true, space)
  {
    fixed := "network_start_hostaddr='" + EscapeWhereValue(start) + "' AND network_is_terminal='1'";
    if space != "" {
      fixed := fixed + " AND site_name='" + EscapeWhereValue(space) + "'";
    }
    assert fixed == TerminalWhere(start, space);
    TerminalText(start, space);
    FilterSelects(LookupFilter(start, true, space), start, true, space);
  }

  /** The filter of a delete's lookup: start address, and the space when one is given. */
  method StartFilter(start: string, space: string) returns (fixed: string)
    ensures fixed == StartWhere(start, space)
    ensures forall networks :: Selects(networks, fixed, start, false, space)
  {
    fixed := "network_start_hostaddr='" + EscapeWhereValue(start) + "'";
    if space != "" {
      fixed := fixed + " AND site_name='" + EscapeWhereValue(space) + "'";
    }
    assert fixed == StartWhere(start, space);
    StartText(start, space);
    FilterSelects(LookupFilter(start, false, space), start, false, space);
  }

  lemma OneNeedsNoEscape()
    ensures EscapeWhereValue("1") == "1"
  {
    TwoPassesAreOne("1");
    assert EscapeEach("1") == EscapeChar('1') + EscapeEach("");
  }

  /** A filter's text grows by the space's equality, if there is one. */
  lemma SpaceText(f: Filter, space: string, fixed: string)
    requires f != [] && FilterText(f) == fixed
    ensures
      FilterText(f + if space != "" then [Equality("site_name", space)] else []) == fixed + SpaceWhere(space)
  {
    if space == "" {
      assert f + [] == f;
    } else {
      FilterGrows(f, Equality("site_name", space));
      SpaceEquality(EscapeWhereValue(space));
      assert fixed + (" AND " + ("site_name" + "='" + EscapeWhereValue(space) + "'")) == fixed + SpaceWhere(space);
    }
  }

  lemma SpaceEquality(e: string)
    ensures " AND " + ("site_name" + "='" + e + "'") == " AND site_name='" + e + "'"
  {
    assert " AND site_name='" == " AND " + "site_name" + "='";
  }

  lemma StartEquality(e: string)
    ensures "network_start_hostaddr" + "='" + e + "'" == "network_start_hostaddr='" + e + "'"
  {
    assert "network_start_hostaddr='" == "network_start_hostaddr" + "='";
  }

  lemma TerminalEquality(fixed: string)
    ensures fixed + "' AND " + "network_is_terminal" + "='" + "1" + "'" == fixed + "' AND network_is_terminal='1'"
  {
    assert "' AND network_is_terminal='1'" == "' AND " + "network_is_terminal" + "='" + "1" + "'";
  }

  /** The two filter texts are those of the equalities that mean the networks. */
  lemma StartText(start: string, space: string)
    ensures StartWhere(start, space) == FilterText(LookupFilter(start, false, space))
  {
    var f, e := [Equality("network_start_hostaddr", start)], EscapeWhereValue(start);
    StartEquality(e);
    assert FilterText(f) == "network_start_hostaddr='" + e + "'";
    SpaceText(f, space, "network_start_hostaddr='" + e + "'");
  }

  lemma TerminalText(start: string, space: string)
    ensures TerminalWhere(start, space) == FilterText(LookupFilter(start, true, space))
  {
    var f := [Equality("network_start_hostaddr", start), Equality("network_is_terminal", "1")];
    var e := EscapeWhereValue(start);
    MemberQueryIsFilter("network_start_hostaddr", start, "network_is_terminal", "1");
    OneNeedsNoEscape();
    TerminalEquality("network_start_hostaddr" + "='" + e);
    assert "network_start_hostaddr='" == "network_start_hostaddr" + "='";
    SpaceText(f, space, "network_start_hostaddr='" + e + "' AND network_is_terminal='1'");
  }

  /** The equalities that mean these networks. */
  function LookupFilter(start: string, terminalOnly: bool, space: string): Filter {
    [Equality("network_start_hostaddr", start)]
    + (if terminalOnly then [Equality("network_is_terminal", "1")] else [])
    + (if space != "" then [Equality("site_name", space)] else [])
  }

  lemma ColumnsArePlain()
    ensures PlainText("network_start_hostaddr") && PlainText("network_is_terminal") && PlainText("site_name")
  {
  }

  lemma LookupFilterIsPlain(f: Filter, start: string, terminalOnly: bool, space: string)
    requires f == LookupFilter(start, terminalOnly, space)
    requires PlainText("network_start_hostaddr") && PlainText("network_is_terminal") && PlainText("site_name")
    ensures f != [] && PlainColumns(f)
  {
  }

  lemma FilterSelects(f: Filter, start: string, terminalOnly: bool, space: string)
    requires f == LookupFilter(start, terminalOnly, space)
    ensures forall networks :: Selects(networks, FilterText(f), start, terminalOnly, space)
  {
    ColumnsArePlain();
    LookupFilterIsPlain(f, start, terminalOnly, space);
    FilterReadsBack(f);
    forall networks: Networks ensures Selects(networks, FilterText(f), start, terminalOnly, space) {
      ColumnsSelect(networks, f, start, terminalOnly, space);
    }
  }

  lemma ColumnsSelect(networks: Networks, f: Filter, start: string, terminalOnly: bool, space: string)
    requires f == LookupFilter(start, terminalOnly, space)
    ensures NetworksMatching(networks, f) == NetworksAt(networks, start, terminalOnly, space)
  {
    forall id | id in networks
      ensures id in NetworksMatching(networks, f) <==> id in NetworksAt(networks, start, terminalOnly, space)
    {
      var row := networks[id];
      assert f[0] == Equality("network_start_hostaddr", start);
      assert terminalOnly ==> f[1] == Equality("network_is_terminal", "1");
      assert space != "" ==> f[|f| - 1] == Equality("site_name", space);
      assert forall i | 0 <= i < |f| ::
        || f[i] == Equality("network_start_hostaddr", start)
        || (terminalOnly && f[i] == Equality("network_is_terminal", "1"))
        || (space != "" && f[i] == Equality("site_name", space));
    }
  }
}
