/**
 The appliance's DHCP objects, the ten mutating DHCP tools as calls, when the server lets a call
 through, and what the appliance then does. The appliance answers one call at a time; list
 filters and deletes select by the same equality; deleting a container may or may not take its
 members along; deleting a scope may take ranges and reservations of that server inside its extent.
 */
module DhcpState {
  import opened Wrappers
  import opened Text
  import opened Netip
  import opened NetipText
  import opened Validation
  import opened Guards
  import opened WhereQuery
  import opened ScopeExtent
  import opened Pages
  import opened Requests

  datatype RangeRow = RangeRow(
    server: string,
    start: string,
    end: string,
    scope: Option<string>,
    name: Option<string>)

  datatype StaticRow = StaticRow(server: string, addr: Option<string>, name: string, mac: string, group: string)

  /** Rows by the appliance's row id; containers by server and name. */
  datatype Db = Db(
    scopes: map<nat, ScopeRow>,
    ranges: map<nat, RangeRow>,
    statics: map<nat, StaticRow>,
    groups: set<(string, string)>,
    sharedNetworks: set<(string, string)>)

  /** The ten mutating tools, with the inputs their callers give. */
  datatype Call =
    | StaticAdd(server: string, name: string, ip: string, mac: string)
    | StaticDelete(server: string, ip: string)
    | ScopeCreate(server: string, address: string, prefix: string, name: string)
    | ScopeDelete(server: string, address: string)
    | RangeCreate(server: string, start: string, end: string, scope: string, name: string)
    | RangeDelete(server: string, start: string, end: string)
    | SharedNetworkCreate(server: string, name: string)
    | SharedNetworkDelete(server: string, name: string)
    | GroupCreate(server: string, name: string)
    | GroupDelete(server: string, name: string)

  // ---------- extents of rows ----------

  function AddrOf(v6: Ipv6Text, text: string): Option<Addr> {
    ParseAddr(v6, TrimSpace(text))
  }

  /** The two texts denote one address. */
  predicate SameAddress(v6: Ipv6Text, s: string, t: string) {
    AddrOf(v6, s).Some? && AddrOf(v6, s) == AddrOf(v6, t)
  }

  function StaticAddr(v6: Ipv6Text, row: StaticRow): Option<Addr> {
    if row.addr.Some? then AddrOf(v6, row.addr.value) else None
  }

  /** The scope's addresses are known and none is protected. */
  ghost predicate ScopeVerified(v6: Ipv6Text, entries: seq<string>, row: ScopeRow) {
    match RowSpan(v6, row)
    case None => false
    case Some((first, last)) => Clear(v6, entries, first, last)
  }

  ghost predicate RangeVerified(v6: Ipv6Text, entries: seq<string>, row: RangeRow) {
    match (AddrOf(v6, row.start), AddrOf(v6, row.end))
    case (Some(a), Some(b)) => Clear(v6, entries, a, b)
    case _ => false
  }

  ghost predicate StaticVerified(v6: Ipv6Text, entries: seq<string>, row: StaticRow) {
    match StaticAddr(v6, row)
    case None => false
    case Some(a) => Clear(v6, entries, a, a)
  }

  /** What the scope guards test on a resolved extent is whether the scope is verified. */
  lemma ExtentCheckIsExact(v6: Ipv6Text, entries: seq<string>, row: ScopeRow)
    ensures
      var e := ScopeRowExtent(v6, row);
      ScopeVerified(v6, entries, row) <==> Parseable(v6, e) && !ReportsOverlap(v6, entries, e.start, e.end)
  {
    ExtentIsSpan(v6, row);
  }

  predicate InScope(v6: Ipv6Text, scope: ScopeRow, a: Addr) {
    match RowSpan(v6, scope)
    case None => false
    case Some((first, last)) => Between(first, a, last)
  }

  predicate RangeInside(v6: Ipv6Text, scope: ScopeRow, row: RangeRow) {
    && row.server == scope.server
    && match (AddrOf(v6, row.start), AddrOf(v6, row.end))
       case (Some(a), Some(b)) => InScope(v6, scope, a) && InScope(v6, scope, b)
       case _ => false
  }

  predicate StaticInside(v6: Ipv6Text, scope: ScopeRow, row: StaticRow) {
    && row.server == scope.server
    && StaticAddr(v6, row).Some? && InScope(v6, scope, StaticAddr(v6, row).value)
  }

  // ---------- members ----------

  function ScopesAt(db: Db, server: string, netAddr: string): set<nat> {
    set id | id in db.scopes && db.scopes[id].netAddr == Some(netAddr) && db.scopes[id].server == server
  }

  function ScopesUnder(db: Db, server: string, name: string): set<nat> {
    set id | id in db.scopes && db.scopes[id].sharedNetwork == name && db.scopes[id].server == server
  }

  function StaticsUnder(db: Db, server: string, name: string): set<nat> {
    set id | id in db.statics && db.statics[id].group == name && db.statics[id].server == server
  }

  /** The members fit one page and each is verified; with nothing configured there is nothing to verify. */
  ghost predicate ScopesVerified(v6: Ipv6Text, entries: seq<string>, db: Db, ids: set<nat>) {
    || |entries| == 0
    || (|ids| < MAX_LIST_LIMIT && forall id | id in ids && id in db.scopes :: ScopeVerified(v6, entries, db.scopes[id]))
  }

  /** A reservation passes the group guard: a known address, not protected, and not spelled by an entry. */
  ghost predicate StaticPasses(v6: Ipv6Text, entries: seq<string>, row: StaticRow) {
    StaticVerified(v6, entries, row) && !NamedByEntry(entries, row.addr.value)
  }

  ghost predicate StaticsVerified(v6: Ipv6Text, entries: seq<string>, db: Db, ids: set<nat>) {
    || |entries| == 0
    || (|ids| < MAX_LIST_LIMIT
        && forall id | id in ids && id in db.statics :: StaticPasses(v6, entries, db.statics[id]))
  }

  /** The dotted address of a reservation row, or nothing. */
  function AddrText(row: StaticRow): string {
    if row.addr.Some? then row.addr.value else ""
  }

  /** What the group guard tests on a row's address text is whether the row passes. */
  lemma StaticCheckIsExact(v6: Ipv6Text, entries: seq<string>, row: StaticRow)
    requires Lawful(v6)
    ensures StaticPasses(v6, entries, row) <==> AddrOf(v6, AddrText(row)).Some? && !Forbids(v6, entries, AddrText(row))
  {
    assert AddrOf(v6, "") == None;
    if row.addr.Some? && AddrOf(v6, row.addr.value).Some? {
      AddressCheckIsExact(v6, entries, row.addr.value);
    }
  }

  // ---------- when a call is let through ----------

  /** Server and ends are there, and the ends are those of one run of addresses of one family. */
  ghost predicate ValidRangeEndpoints(v6: Ipv6Text, server: string, start: string, end: string) {
    && ValidRequiredString(server) && NUL !in start + end
    && AddrOf(v6, start).Some? && AddrOf(v6, end).Some?
    && OneFamilyInterval(AddrOf(v6, start).value, AddrOf(v6, end).value)
  }

  /** What an address-keyed call must satisfy: a valid address, unprotected, spelled by no entry. */
  ghost predicate AddressPasses(v6: Ipv6Text, entries: seq<string>, text: string) {
    && ValidIP(v6, text)
    && Clear(v6, entries, AddrOf(v6, text).value, AddrOf(v6, text).value)
    && !NamedByEntry(entries, text)
  }

  /** The block of a scope create, when address and prefix form one. */
  function CreateBlock(v6: Ipv6Text, c: Call): Option<Prefix>
    requires c.ScopeCreate?
  {
    CanonicalBlock(v6, TrimSpace(c.address), TrimSpace(c.prefix))
  }

  ghost predicate StaticAddPermitted(v6: Ipv6Text, g: Guardrails, c: Call)
    requires c.StaticAdd?
  {
    ValidRequiredString(c.name) && AddressPasses(v6, g.protectedSubnets, c.ip) && ValidDHCPMAC(c.mac)
  }

  ghost predicate ScopeCreatePermitted(v6: Ipv6Text, g: Guardrails, c: Call)
    requires c.ScopeCreate?
  {
    && CreateBlock(v6, c).Some? && CreateBlock(v6, c).value.addr.family.V4?
    && ClearBlock(v6, g.protectedSubnets, CreateBlock(v6, c).value)
    && ValidOptionalString(c.name)
  }

  /** A range may be created or deleted: coherent ends, and nothing protected between them. */
  ghost predicate RangePermitted(v6: Ipv6Text, g: Guardrails, server: string, start: string, end: string) {
    && ValidRangeEndpoints(v6, server, start, end)
    && Clear(v6, g.protectedSubnets, AddrOf(v6, start).value, AddrOf(v6, end).value)
  }

  /** The interval guard and the endpoint validation together decide it. */
  lemma RangeChecksAreExact(v6: Ipv6Text, g: Guardrails, server: string, start: string, end: string)
    ensures
      RangePermitted(v6, g, server, start, end) <==>
      ValidRangeEndpoints(v6, server, start, end) && !ReportsOverlap(v6, g.protectedSubnets, start, end)
  {
  }

  /** The call's own inputs pass the mode, the guards on them and the validators; nothing is looked up yet. */
  ghost predicate InputsPass(v6: Ipv6Text, g: Guardrails, c: Call) {
    && !g.readOnly
    && Visible(c.server)
    && match c
       case StaticAdd(_, _, _, _) => StaticAddPermitted(v6, g, c)
       case StaticDelete(_, ip) => AddressPasses(v6, g.protectedSubnets, ip)
       case ScopeCreate(_, _, _, _) => ScopeCreatePermitted(v6, g, c)
       case ScopeDelete(_, address) =>
         && AddressPasses(v6, g.protectedSubnets, TrimSpace(address))
         && AddrOf(v6, TrimSpace(address)).value.family.V4?
       case RangeCreate(server, start, end, scope, name) =>
         RangePermitted(v6, g, server, start, end) && ValidOptionalString(scope) && ValidOptionalString(name)
       case RangeDelete(server, start, end) => RangePermitted(v6, g, server, start, end)
       case SharedNetworkCreate(_, name) => Visible(name)
       case SharedNetworkDelete(_, name) => Visible(name)
       case GroupCreate(_, name) => Visible(name)
       case GroupDelete(_, name) => Visible(name)
  }

  /** What the call would take along fits a page and is verified. */
  ghost predicate MembersPass(v6: Ipv6Text, g: Guardrails, db: Db, c: Call) {
    match c
    case ScopeDelete(server, address) =>
      ScopesVerified(v6, g.protectedSubnets, db, ScopesAt(db, server, TrimSpace(address)))
    case SharedNetworkDelete(server, name) =>
      ScopesVerified(v6, g.protectedSubnets, db, ScopesUnder(db, server, name))
    case GroupDelete(server, name) =>
      StaticsVerified(v6, g.protectedSubnets, db, StaticsUnder(db, server, name))
    case _ => true
  }

  ghost predicate Permitted(v6: Ipv6Text, g: Guardrails, db: Db, c: Call) {
    InputsPass(v6, g, c) && MembersPass(v6, g, db, c)
  }

  // ---------- the requests ----------

  /** The requests of the appliance's DHCP interface, with what they carry. */
  datatype Request =
    | DhcpScopeList(where: string)
    | DhcpStaticList(where: string)
    | DhcpStaticAdd(staticRow: StaticRow)
    | DhcpStaticDelete(server: string, addr: string)
    | DhcpScopeAdd(scopeRow: ScopeRow)
    | DhcpScopeDelete(server: string, netAddr: string)
    | DhcpRangeAdd(rangeRow: RangeRow)
    | DhcpRangeDelete(server: string, start: string, end: string)
    | DhcpSharednetworkAdd(server: string, name: string)
    | DhcpSharednetworkDelete(server: string, name: string)
    | DhcpGroupAdd(server: string, name: string)
    | DhcpGroupDelete(server: string, name: string)

  type Trace = seq<Sent<Request>>

  /** The listing a call makes before it writes, if any, and how it went. */
  function Looked(g: Guardrails, c: Call, ok: bool): Trace {
    if |g.protectedSubnets| == 0 then []
    else
      match c
      case ScopeDelete(server, address) =>
        [Sent(DhcpScopeList(MemberQuery("scope_net_addr", TrimSpace(address), "server_name", server)), ok)]
      case SharedNetworkDelete(server, name) =>
        [Sent(DhcpScopeList(MemberQuery("sharednetwork_name", name, "server_name", server)), ok)]
      case GroupDelete(server, name) =>
        [Sent(DhcpStaticList(MemberQuery("group_name", name, "server_name", server)), ok)]
      case _ => []
  }

  /** The one request a call writes with. */
  function Write(v6: Ipv6Text, c: Call): Request
    requires c.ScopeCreate? ==> CreateBlock(v6, c).Some?
  {
    match c
    case StaticAdd(server, name, ip, mac) => DhcpStaticAdd(StaticRow(server, Some(ip), name, mac, ""))
    case StaticDelete(server, ip) => DhcpStaticDelete(server, ip)
    case ScopeCreate(_, _, _, _) => DhcpScopeAdd(ScopeSent(v6, c))
    case ScopeDelete(server, address) => DhcpScopeDelete(server, TrimSpace(address))
    case RangeCreate(server, start, end, scope, name) =>
      DhcpRangeAdd(RangeRow(server, start, end, Given(scope), Given(name)))
    case RangeDelete(server, start, end) => DhcpRangeDelete(server, start, end)
    case SharedNetworkCreate(server, name) => DhcpSharednetworkAdd(server, name)
    case SharedNetworkDelete(server, name) => DhcpSharednetworkDelete(server, name)
    case GroupCreate(server, name) => DhcpGroupAdd(server, name)
    case GroupDelete(server, name) => DhcpGroupDelete(server, name)
  }

  // ---------- what the appliance does ----------

  /** The row that a scope create must send. */
  function ScopeSent(v6: Ipv6Text, c: Call): ScopeRow
    requires c.ScopeCreate? && CreateBlock(v6, c).Some?
  {
    CreatedRow(c.server, TrimSpace(c.address), CreateBlock(v6, c).value.bits, Given(c.name))
  }

  /** The ranges a range delete selects: same server, and ends that denote the same addresses. */
  function RangesAt(v6: Ipv6Text, db: Db, server: string, start: string, end: string): set<nat> {
    set id | id in db.ranges
             && db.ranges[id].server == server
             && SameAddress(v6, db.ranges[id].start, start) && SameAddress(v6, db.ranges[id].end, end)
  }

  function StaticsAt(v6: Ipv6Text, db: Db, server: string, ip: string): set<nat> {
    set id | id in db.statics
             && db.statics[id].server == server
             && db.statics[id].addr.Some? && SameAddress(v6, db.statics[id].addr.value, ip)
  }

  predicate RangeInsideSome(v6: Ipv6Text, db: Db, ids: set<nat>, row: RangeRow) {
    exists id | id in ids && id in db.scopes :: RangeInside(v6, db.scopes[id], row)
  }

  predicate StaticInsideSome(v6: Ipv6Text, db: Db, ids: set<nat>, row: StaticRow) {
    exists id | id in ids && id in db.scopes :: StaticInside(v6, db.scopes[id], row)
  }

  /** Ranges and reservations may go with these scopes, if they are inside one of them; nothing else changes. */
  ghost predicate OnlyInsideGone(v6: Ipv6Text, before: Db, ids: set<nat>, after: Db) {
    && after.ranges.Keys <= before.ranges.Keys
    && (forall r | r in before.ranges ::
          || (r in after.ranges && after.ranges[r] == before.ranges[r])
          || (r !in after.ranges && RangeInsideSome(v6, before, ids, before.ranges[r])))
    && after.statics.Keys <= before.statics.Keys
    && (forall s | s in before.statics ::
          || (s in after.statics && after.statics[s] == before.statics[s])
          || (s !in after.statics && StaticInsideSome(v6, before, ids, before.statics[s])))
  }

  /** One row more, under an id that was not in use. */
  ghost predicate Added<Row>(before: map<nat, Row>, row: Row, after: map<nat, Row>) {
    exists id: nat | id !in before :: after == before[id := row]
  }

  lemma AddedUnder<Row>(before: map<nat, Row>, id: nat, row: Row)
    requires id !in before
    ensures Added(before, row, before[id := row])
  {
  }

  // ---------- what each request does ----------

  ghost predicate StaticAdded(before: Db, row: StaticRow, after: Db) {
    Added(before.statics, row, after.statics) && after == before.(statics := after.statics)
  }

  ghost predicate ScopeAdded(before: Db, row: ScopeRow, after: Db) {
    Added(before.scopes, row, after.scopes) && after == before.(scopes := after.scopes)
  }

  ghost predicate RangeAdded(before: Db, row: RangeRow, after: Db) {
    Added(before.ranges, row, after.ranges) && after == before.(ranges := after.ranges)
  }

  function WithoutStatics(v6: Ipv6Text, db: Db, server: string, ip: string): Db {
    db.(statics := db.statics - StaticsAt(v6, db, server, ip))
  }

  function WithoutRanges(v6: Ipv6Text, db: Db, server: string, start: string, end: string): Db {
    db.(ranges := db.ranges - RangesAt(v6, db, server, start, end))
  }

  ghost predicate ScopesDeleted(v6: Ipv6Text, before: Db, server: string, netAddr: string, after: Db) {
    var gone := ScopesAt(before, server, netAddr);
    && after.scopes == before.scopes - gone
    && OnlyInsideGone(v6, before, gone, after)
    && after.groups == before.groups && after.sharedNetworks == before.sharedNetworks
  }

  ghost predicate SharedNetworkDeleted(v6: Ipv6Text, before: Db, server: string, name: string, after: Db) {
    var members := ScopesUnder(before, server, name);
    && after.scopes.Keys <= before.scopes.Keys
    && (forall id | id in before.scopes ::
          || (id in after.scopes && after.scopes[id] == before.scopes[id])
          || (id in members && id !in after.scopes)
          || (id in members && id in after.scopes && after.scopes[id] == before.scopes[id].(sharedNetwork := "")))
    && OnlyInsideGone(v6, before, members, after)
    && after.groups == before.groups && after.sharedNetworks == before.sharedNetworks - {(server, name)}
  }

  ghost predicate GroupDeleted(before: Db, server: string, name: string, after: Db) {
    var members := StaticsUnder(before, server, name);
    && after.statics.Keys <= before.statics.Keys
    && (forall id | id in before.statics ::
          || (id in after.statics && after.statics[id] == before.statics[id])
          || (id in members && id !in after.statics)
          || (id in members && id in after.statics && after.statics[id] == before.statics[id].(group := "")))
    && after == before.(statics := after.statics, groups := before.groups - {(server, name)})
  }

  /** What a tool's call must come to, in terms of the inputs its caller gave. */
  ghost predicate Effect(v6: Ipv6Text, before: Db, c: Call, after: Db) {
    match c
    case StaticAdd(server, name, ip, mac) => StaticAdded(before, StaticRow(server, Some(ip), name, mac, ""), after)
    case StaticDelete(server, ip) => after == WithoutStatics(v6, before, server, ip)
    case ScopeCreate(_, _, _, _) => CreateBlock(v6, c).Some? && ScopeAdded(before, ScopeSent(v6, c), after)
    case ScopeDelete(server, address) => ScopesDeleted(v6, before, server, TrimSpace(address), after)
    case RangeCreate(server, start, end, scope, name) =>
      RangeAdded(before, RangeRow(server, start, end, Given(scope), Given(name)), after)
    case RangeDelete(server, start, end) => after == WithoutRanges(v6, before, server, start, end)
    case SharedNetworkCreate(server, name) =>
      after == before.(sharedNetworks := before.sharedNetworks + {(server, name)})
    case SharedNetworkDelete(server, name) => SharedNetworkDeleted(v6, before, server, name, after)
    case GroupCreate(server, name) =>
      after == before.(groups := before.groups + {(server, name)})
    case GroupDelete(server, name) => GroupDeleted(before, server, name, after)
  }

  /** One tool call: refused or failed, with no effect; or let through and carried out. */
  ghost predicate Next(v6: Ipv6Text, g: Guardrails, before: Db, c: Call, after: Db) {
    after == before || (Permitted(v6, g, before, c) && Effect(v6, before, c, after))
  }

  /**
   What every tool promises of a call, and of the requests it made. It is refused without a request
   when its inputs do not pass, and after its listing alone when what it would take along does not.
   Otherwise its one write is sent, and it is done when that succeeds. It fails only when its listing
   or its write was reported failed; a write that failed may have been carried out all the same.
   */
  ghost predicate Answered(v6: Ipv6Text, g: Guardrails, before: Db, c: Call, r: Reply, after: Db, trace: Trace) {
    match r
    case Done =>
      && Permitted(v6, g, before, c) && Effect(v6, before, c, after)
      && trace == Looked(g, c, true) + [Sent(Write(v6, c), true)]
    case Refused =>
      && !Permitted(v6, g, before, c) && after == before
      && trace == if InputsPass(v6, g, c) then Looked(g, c, true) else []
    case ApiError =>
      && InputsPass(v6, g, c)
      && ((trace == Looked(g, c, false) != [] && after == before)
          || (Permitted(v6, g, before, c) && trace == Looked(g, c, true) + [Sent(Write(v6, c), false)]
              && (after == before || Effect(v6, before, c, after))))
  }

  /** Once a permitted call has sent its write, the write's outcome is the answer. */
  lemma WriteAnswers(v6: Ipv6Text, g: Guardrails, before: Db, c: Call, ok: bool, after: Db)
    requires Permitted(v6, g, before, c)
    requires Effect(v6, before, c, after) || (!ok && after == before)
    ensures
      Answered(
        v6, g, before, c, if ok then Done else ApiError, after, Looked(g, c, true) + [Sent(Write(v6, c), ok)])
  {
  }

  /** However a tool answers, its call was a step of a run. */
  lemma AnswersAreSteps(v6: Ipv6Text, g: Guardrails, before: Db, c: Call, r: Reply, after: Db, trace: Trace)
    requires Answered(v6, g, before, c, r, after, trace)
    ensures Next(v6, g, before, c, after)
  {
  }

  /** A call fails only when the appliance reported its last request failed. */
  lemma FailureIsLogged(v6: Ipv6Text, g: Guardrails, before: Db, c: Call, r: Reply, after: Db, trace: Trace)
    requires Answered(v6, g, before, c, r, after, trace)
    ensures r.ApiError? ==> trace != [] && !trace[|trace| - 1].ok
    ensures !r.ApiError? ==> r == if Permitted(v6, g, before, c) then Done else Refused
  {
  }

  /** A call whose requests all succeed is done exactly when it is permitted, and refused otherwise. */
  lemma SuccessDecides(v6: Ipv6Text, g: Guardrails, before: Db, c: Call, r: Reply, after: Db, trace: Trace)
    requires Answered(v6, g, before, c, r, after, trace) && AllOk(trace)
    ensures r == if Permitted(v6, g, before, c) then Done else Refused
  {
    FailureIsLogged(v6, g, before, c, r, after, trace);
  }
}
