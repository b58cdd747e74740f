/**
 The guards of subnet delete and update, which check the extents the appliance resolves, and what
 their passing says of the networks at the address.
 */
module SubnetGuards {
  import opened Wrappers
  import opened Text
  import opened Netip
  import opened NetipText
  import opened Validation
  import opened Guards
  import opened Pages
  import opened Requests
  import opened Ipam

  /** What the subnet guards ask of an extent: it is not empty, and the interval test reports nothing. */
  ghost predicate ExtentPasses(v6: Ipv6Text, entries: seq<string>, e: AddrExtent) {
    e.start != "" && e.end != "" && !ReportsOverlap(v6, entries, e.start, e.end)
  }

  predicate ExtentReads(v6: Ipv6Text, e: AddrExtent) {
    ParseAddr(v6, TrimSpace(e.start)).Some? && ParseAddr(v6, TrimSpace(e.end)).Some?
  }

  /** The extent's addresses are known and none is protected. */
  ghost predicate ExtentVerified(v6: Ipv6Text, entries: seq<string>, e: AddrExtent) {
    && ExtentReads(v6, e)
    && Clear(v6, entries, ParseAddr(v6, TrimSpace(e.start)).value, ParseAddr(v6, TrimSpace(e.end)).value)
  }

  ghost predicate AllExtentsPass(v6: Ipv6Text, entries: seq<string>, networks: Networks, ids: set<nat>) {
    forall m | m in ids && m in networks :: ExtentPasses(v6, entries, RowExtent(networks[m]))
  }

  ghost predicate AllExtentsVerified(v6: Ipv6Text, entries: seq<string>, networks: Networks, ids: set<nat>) {
    forall m | m in ids && m in networks :: ExtentVerified(v6, entries, RowExtent(networks[m]))
  }

  predicate AllExtentsRead(v6: Ipv6Text, networks: Networks, ids: set<nat>) {
    forall m | m in ids && m in networks :: ExtentReads(v6, RowExtent(networks[m]))
  }

  predicate AllEndsRead(v6: Ipv6Text, networks: Networks, ids: set<nat>) {
    forall m | m in ids && m in networks :: ParseAddr(v6, TrimSpace(RowExtent(networks[m]).end)).Some?
  }

  // ---------- the delete guard ----------

  /** Every network a delete's lookup lists starts at the address it names. */
  lemma TargetStartsAt(v6: Ipv6Text, networks: Networks, a: Addr, space: string, m: nat)
    requires Lawful(v6) && m in Targets(v6, networks, a, space)
    ensures RowExtent(networks[m]).start != ""
    ensures ParseAddr(v6, TrimSpace(RowExtent(networks[m]).start)) == Some(a)
  {
    AddrReadsBack(v6, a);
  }

  lemma TargetsReadIffEndsRead(v6: Ipv6Text, networks: Networks, a: Addr, space: string)
    requires Lawful(v6)
    ensures
      var targets := Targets(v6, networks, a, space);
      AllExtentsRead(v6, networks, targets) <==> AllEndsRead(v6, networks, targets)
  {
    forall m | m in Targets(v6, networks, a, space)
      ensures ParseAddr(v6, TrimSpace(RowExtent(networks[m]).start)).Some?
    {
      TargetStartsAt(v6, networks, a, space, m);
    }
  }

  /** The request that lists the networks at an address, if it reads. */
  function StartListed(v6: Ipv6Text, space: string, address: string, ok: bool): Trace {
    match ParseAddr(v6, TrimSpace(address))
    case None => []
    case Some(a) => [Sent(IpamNetworkList(StartWhere(ShowAddr(v6, a), space)), ok)]
  }

  /** `lookupSubnetExtents`: the extents on one page; an address that does not read resolves nothing. */
  method LookupSubnetExtents(v6: Ipv6Text, ipam: Appliance, space: string, address: string)
    returns (ok: bool, extents: seq<AddrExtent>, ghost ids: seq<nat>)
    modifies ipam`log
    ensures ipam.log == old(ipam.log) + StartListed(v6, space, address, ok)
    ensures ParseAddr(v6, TrimSpace(address)) == None ==> ok && extents == []
    ensures ok && ParseAddr(v6, TrimSpace(address)).Some? ==>
      && IsPage(Targets(v6, ipam.networks, ParseAddr(v6, TrimSpace(address)).value, space), MAX_LIST_LIMIT, ids)
      && |extents| == |ids|
      && forall i | 0 <= i < |ids| :: ids[i] in ipam.networks && extents[i] == RowExtent(ipam.networks[ids[i]])
  {
    ok, extents, ids := true, [], [];
    var startAddr := ParseAddr(v6, TrimSpace(address));
    if startAddr == None {
      return;
    }
    var fixed := StartFilter(ShowAddr(v6, startAddr.value), space);
    assert Selects(ipam.networks, fixed, ShowAddr(v6, startAddr.value), false, space);
    var page;
    ok, page, ids := ipam.ListNetworks(fixed, MAX_LIST_LIMIT);
    if !ok {
      return;
    }
    extents := ExtentsOf(page);
  }

  /** The extents of the rows; a missing end is empty. */
  method ExtentsOf(page: seq<NetworkRow>) returns (extents: seq<AddrExtent>)
    ensures |extents| == |page|
    ensures forall j | 0 <= j < |page| :: extents[j] == RowExtent(page[j])
  {
    extents := [];
    for i := 0 to |page|
      invariant |extents| == i
      invariant forall j | 0 <= j < i :: extents[j] == RowExtent(page[j])
    {
      var start, end := "", "";
      if page[i].start.Some? {
        start := page[i].start.value;
      }
      if page[i].end.Some? {
        end := page[i].end.value;
      }
      extents := extents + [AddrExtent(start, end)];
    }
  }

  /**
   `applySubnetDeleteExtentProtection`. It refuses only when some target's extent is empty or
   overlaps. When it passes, the page it saw passes; when the targets fit a page, all of them pass,
   and they are known to be unprotected exactly when all their extents read as addresses, that is,
   all their ends: their starts are the address named.
   */
  method ApplySubnetDeleteExtentProtection(
      v6: Ipv6Text, g: Guardrails, ipam: Appliance, space: string, address: string)
    returns (v: Verdict, ghost ids: seq<nat>)
    modifies ipam`log
    ensures
      ipam.log == old(ipam.log)
        + if |g.protectedSubnets| == 0 then [] else StartListed(v6, space, address, !v.Failed?)
    ensures |g.protectedSubnets| == 0 || ParseAddr(v6, TrimSpace(address)) == None ==> v.Pass?
    ensures |g.protectedSubnets| > 0 && ParseAddr(v6, TrimSpace(address)).Some? ==>
      var targets := Targets(v6, ipam.networks, ParseAddr(v6, TrimSpace(address)).value, space);
      && (v.Refuse? ==> !AllExtentsPass(v6, g.protectedSubnets, ipam.networks, targets))
      && (v.Pass? ==>
            && IsPage(targets, MAX_LIST_LIMIT, ids)
            && AllExtentsPass(v6, g.protectedSubnets, ipam.networks, ToSet(ids)))
      && (v.Pass? && |targets| <= MAX_LIST_LIMIT ==>
            && AllExtentsPass(v6, g.protectedSubnets, ipam.networks, targets)
            && (AllExtentsVerified(v6, g.protectedSubnets, ipam.networks, targets)
                <==> AllExtentsRead(v6, ipam.networks, targets))
            && (Lawful(v6) ==>
                  (AllExtentsRead(v6, ipam.networks, targets) <==> AllEndsRead(v6, ipam.networks, targets))))
  {
    ids := [];
    if |g.protectedSubnets| == 0 {
      return Pass, ids;
    }
    var ok, extents;
    ok, extents, ids := LookupSubnetExtents(v6, ipam, space, address);
    if !ok {
      return Failed, ids;
    }
    ghost var passes := (e: AddrExtent) => ExtentPasses(v6, g.protectedSubnets, e);
    for i := 0 to |extents|
      invariant forall j | 0 <= j < i :: passes(extents[j])
      modifies {}
    {
      var e := extents[i];
      if e.start == "" || e.end == "" {
        return Refuse, ids;
      }
      var p := g.OverlappingProtectedSubnet(v6, e.start, e.end);
      if p.Some? {
        return Refuse, ids;
      }
      HoldsSoFar(passes, extents, i);
    }
    if ParseAddr(v6, TrimSpace(address)).Some? {
      var targets := Targets(v6, ipam.networks, ParseAddr(v6, TrimSpace(address)).value, space);
      PassedPage(v6, g.protectedSubnets, ipam.networks, targets, ids, extents);
      if Lawful(v6) {
        TargetsReadIffEndsRead(v6, ipam.networks, ParseAddr(v6, TrimSpace(address)).value, space);
      }
    }
    return Pass, ids;
  }

  lemma PassedPage(
      v6: Ipv6Text, entries: seq<string>, networks: Networks, targets: set<nat>, ids: seq<nat>,
      extents: seq<AddrExtent>)
    requires IsPage(targets, MAX_LIST_LIMIT, ids) && |extents| == |ids|
    requires forall i | 0 <= i < |ids| :: ids[i] in networks && extents[i] == RowExtent(networks[ids[i]])
    requires forall i | 0 <= i < |extents| :: ExtentPasses(v6, entries, extents[i])
    ensures AllExtentsPass(v6, entries, networks, ToSet(ids))
    ensures |targets| <= MAX_LIST_LIMIT ==>
      && AllExtentsPass(v6, entries, networks, targets)
      && (AllExtentsVerified(v6, entries, networks, targets) <==> AllExtentsRead(v6, networks, targets))
  {
    if |targets| <= MAX_LIST_LIMIT {
      FittingPageIsComplete(targets, MAX_LIST_LIMIT, ids);
      forall m | m in targets && m in networks
        ensures ExtentVerified(v6, entries, RowExtent(networks[m])) <==> ExtentReads(v6, RowExtent(networks[m]))
      {
        PassedIsVerifiedIffItReads(v6, entries, RowExtent(networks[m]));
      }
    }
  }

  /**
   The subnet guards test extents for emptiness only. An extent that passes is verified exactly
   when both its ends read as addresses.
   */
  lemma PassedIsVerifiedIffItReads(v6: Ipv6Text, entries: seq<string>, e: AddrExtent)
    requires ExtentPasses(v6, entries, e)
    ensures ExtentVerified(v6, entries, e) <==> ExtentReads(v6, e)
  {
  }

  lemma QuestionMarkIsNoAddress(v6: Ipv6Text)
    ensures ParseAddr(v6, TrimSpace("?")) == None
  {
    assert TrimSpace("?") == "?" by { TrimKeepsTight("?"); }
    assert Mark("?") == None;
  }

  /** A network at an address, in the space if one is given, with some end. */
  function TargetRow(v6: Ipv6Text, a: Addr, space: string, end: Option<string>): NetworkRow {
    NetworkRow(None, None, Some(ShowAddr(v6, a)), end, if space == "" then None else Some(space), None)
  }

  /** A target whose end is "?": under any configuration the delete guard never refuses it, and it is not verified. */
  lemma UnreadableTargetPasses(v6: Ipv6Text, entries: seq<string>, a: Addr, space: string)
    requires Lawful(v6)
    ensures
      var networks := map[0 := TargetRow(v6, a, space, Some("?"))];
      && Targets(v6, networks, a, space) == {0}
      && AllExtentsPass(v6, entries, networks, {0}) && !AllExtentsVerified(v6, entries, networks, {0})
  {
    var networks := map[0 := TargetRow(v6, a, space, Some("?"))];
    assert 0 in networks && 0 in Targets(v6, networks, a, space);
    TargetStartsAt(v6, networks, a, space, 0);
    QuestionMarkIsNoAddress(v6);
  }

  /** Whatever networks give a delete n targets, and whichever page of them comes back: if the page passes, all do. */
  ghost predicate DeleteGuardSpeaksForAll(v6: Ipv6Text, entries: seq<string>, a: Addr, space: string, n: nat) {
    forall networks: Networks, ids: seq<nat> |
      && |Targets(v6, networks, a, space)| == n
      && IsPage(Targets(v6, networks, a, space), MAX_LIST_LIMIT, ids)
      && AllExtentsPass(v6, entries, networks, ToSet(ids)) ::
      AllExtentsPass(v6, entries, networks, Targets(v6, networks, a, space))
  }

  /**
   The lookup does not refuse a full page: a guard that passes speaks for all targets exactly when
   they fit one page.
   */
  lemma DeleteGuardSpeaksIffItFits(v6: Ipv6Text, entries: seq<string>, a: Addr, space: string, n: nat)
    requires Lawful(v6)
    ensures DeleteGuardSpeaksForAll(v6, entries, a, space, n) <==> n <= MAX_LIST_LIMIT
  {
    if n <= MAX_LIST_LIMIT {
      forall networks: Networks, ids: seq<nat> |
        && |Targets(v6, networks, a, space)| == n
        && IsPage(Targets(v6, networks, a, space), MAX_LIST_LIMIT, ids)
        && AllExtentsPass(v6, entries, networks, ToSet(ids))
        ensures AllExtentsPass(v6, entries, networks, Targets(v6, networks, a, space))
      {
        FittingPageIsComplete(Targets(v6, networks, a, space), MAX_LIST_LIMIT, ids);
      }
    } else {
      OffPageMisleads(v6, entries, a, space, n);
    }
  }

  /** Networks 0 to n-1 at the address, of which only the last has no end. */
  function AllButLast(v6: Ipv6Text, a: Addr, space: string, n: nat): Networks {
    map m | m in FirstSet(n) :: TargetRow(v6, a, space, if m == n - 1 then None else Some("?"))
  }

  /** The first page of them passes, and the last network, off the page, does not. */
  lemma OffPageMisleads(v6: Ipv6Text, entries: seq<string>, a: Addr, space: string, n: nat)
    requires Lawful(v6) && n > MAX_LIST_LIMIT
    ensures !DeleteGuardSpeaksForAll(v6, entries, a, space, n)
  {
    var networks, ids := AllButLast(v6, a, space, n), FirstIds(MAX_LIST_LIMIT);
    var targets := Targets(v6, networks, a, space);
    FirstIdsAre(n);
    FirstIdsAre(MAX_LIST_LIMIT);
    assert targets == FirstSet(n);
    FirstPage(n, MAX_LIST_LIMIT);
    QuestionMarkIsNoAddress(v6);
    forall m | m in ToSet(ids) && m in networks ensures ExtentPasses(v6, entries, RowExtent(networks[m])) {
      assert m < MAX_LIST_LIMIT;
      TargetStartsAt(v6, networks, a, space, m);
    }
    assert !ExtentPasses(v6, entries, RowExtent(networks[n - 1]));
  }

  // ---------- the update guard ----------

  /** `lookupSubnetExtentByID`: the extent and the space of a subnet; refused when there is none. */
  method LookupSubnetExtentByID(ipam: Appliance, networkID: int)
    returns (v: Verdict, start: string, end: string, space: string)
    modifies ipam`log
    ensures ipam.log == old(ipam.log) + [Sent(IpamNetworkInfo(networkID), !v.Failed?)]
    ensures v.Refuse? ==> !(networkID >= 0 && networkID in ipam.networks)
    ensures v.Pass? ==>
      && networkID >= 0 && networkID in ipam.networks
      && AddrExtent(start, end) == RowExtent(ipam.networks[networkID])
      && space == TextOf(ipam.networks[networkID].space)
  {
    start, end, space := "", "", "";
    var ok, data := ipam.NetworkInfo(networkID);
    if !ok {
      return Failed, "", "", "";
    }
    if |data| == 0 {
      return Refuse, "", "", "";
    }
    var row := data[0];
    if row.start.Some? {
      start := row.start.value;
    }
    if row.end.Some? {
      end := row.end.value;
    }
    if row.space.Some? {
      space := row.space.value;
    }
    v := Pass;
  }

  /** The subnet as it is passes, and, when the edit resizes it, the resized block exists and is clear. */
  ghost predicate UpdatePasses(v6: Ipv6Text, entries: seq<string>, e: AddrExtent, prefix: string) {
    && (|entries| > 0 ==> e.start != "" && e.end != "")
    && !ReportsOverlap(v6, entries, e.start, e.end)
    && (TrimSpace(prefix) != "" && e.start != "" ==>
          && CanonicalBlock(v6, e.start, TrimSpace(prefix)).Some?
          && ClearBlock(v6, entries, CanonicalBlock(v6, e.start, TrimSpace(prefix)).value))
  }

  /**
   An update that passes with a resize touches nothing protected, before or after, provided the
   subnet's end reads as an address; a resize vouches for its start.
   */
  lemma UpdateCoversBothExtents(v6: Ipv6Text, entries: seq<string>, e: AddrExtent, prefix: string)
    requires |entries| > 0 && TrimSpace(prefix) != ""
    requires UpdatePasses(v6, entries, e, prefix)
    ensures ParseAddr(v6, TrimSpace(e.start)).Some?
    ensures ExtentVerified(v6, entries, e) <==> ParseAddr(v6, TrimSpace(e.end)).Some?
    ensures ClearBlock(v6, entries, CanonicalBlock(v6, e.start, TrimSpace(prefix)).value)
  {
  }

  /** The space is known if spaces are protected, and it is not one of them. */
  predicate SpacePasses(entries: seq<string>, space: string) {
    |entries| > 0 ==> space != "" && !NamedByEntry(entries, space)
  }

  ghost predicate UpdateAllowed(v6: Ipv6Text, g: Guardrails, row: NetworkRow, prefix: string) {
    UpdatePasses(v6, g.protectedSubnets, RowExtent(row), prefix) && SpacePasses(g.protectedSpaces, TextOf(row.space))
  }

  /**
   `applySubnetUpdateProtections`. Passes only an update it may allow and refuses only one it may
   not. An update that passes is of a subnet known to be unprotected exactly when its extent reads; a
   resize vouches for the start, and leaves a clear block.
   */
  method ApplySubnetUpdateProtections(v6: Ipv6Text, g: Guardrails, ipam: Appliance, subnetID: int, prefix: string)
    returns (v: Verdict)
    requires Lawful(v6)
    modifies ipam`log
    ensures ipam.log == old(ipam.log) + [Sent(IpamNetworkInfo(subnetID), !v.Failed?)]
    ensures v.Refuse? ==>
      !(subnetID >= 0 && subnetID in ipam.networks && UpdateAllowed(v6, g, ipam.networks[subnetID], prefix))
    ensures v.Pass? ==>
      && subnetID >= 0 && subnetID in ipam.networks
      && UpdateAllowed(v6, g, ipam.networks[subnetID], prefix)
    ensures v.Pass? && |g.protectedSubnets| > 0 ==>
      var e := RowExtent(ipam.networks[subnetID]);
      ExtentVerified(v6, g.protectedSubnets, e) <==> ExtentReads(v6, e)
    ensures v.Pass? && |g.protectedSubnets| > 0 && TrimSpace(prefix) != "" ==>
      var e := RowExtent(ipam.networks[subnetID]);
      && ParseAddr(v6, TrimSpace(e.start)).Some?
      && (ExtentVerified(v6, g.protectedSubnets, e) <==> ParseAddr(v6, TrimSpace(e.end)).Some?)
      && ClearBlock(v6, g.protectedSubnets, CanonicalBlock(v6, e.start, TrimSpace(prefix)).value)
  {
    var found, start, end, space := LookupSubnetExtentByID(ipam, subnetID);
    if !found.Pass? {
      return found;
    }
    if |g.protectedSubnets| > 0 && (start == "" || end == "") {
      return Refuse;
    }
    var p := g.OverlappingProtectedSubnet(v6, start, end);
    if p.Some? {
      return Refuse;
    }
    if TrimSpace(prefix) != "" && start != "" {
      var cidr := CanonicalCIDR(v6, start, TrimSpace(prefix));
      if cidr == None {
        return Refuse;
      }
      ValidIffCanonical(v6, start, TrimSpace(prefix));
      GuardThenValidationIsClosed(v6, g.protectedSubnets, start, TrimSpace(prefix));
      var refused := g.CheckProtectedSubnet(v6, cidr.value);
      if refused {
        return Refuse;
      }
    }
    if |g.protectedSpaces| > 0 && space == "" {
      return Refuse;
    }
    var refused := g.CheckProtectedSpace(space);
    if refused {
      return Refuse;
    }
    if |g.protectedSubnets| > 0 && TrimSpace(prefix) != "" {
      UpdateCoversBothExtents(v6, g.protectedSubnets, AddrExtent(start, end), prefix);
    }
    return Pass;
  }

  /** A subnet whose extent is "?" to "?": the update guard never refuses an edit of it, and it is not verified. */
  lemma UnreadableSubnetPasses(v6: Ipv6Text, g: Guardrails, space: string)
    requires SpacePasses(g.protectedSpaces, space)
    ensures
      var row := NetworkRow(None, None, Some("?"), Some("?"), Some(space), None);
      UpdateAllowed(v6, g, row, "") && !ExtentVerified(v6, g.protectedSubnets, RowExtent(row))
  {
    QuestionMarkIsNoAddress(v6);
    assert TrimSpace("") == "";
  }
}
