/**
 Safety of the subnet tools over whole sessions: networks that overlap a protected subnet, or have
 no extent, and networks in a protected or unknown space outlive every session unchanged, and none
 is added. For extents this takes deletes whose targets fit one page, which is all the guard looks at.
 */
module SubnetRuns {
  import opened Wrappers
  import opened Text
  import opened Netip
  import opened NetipText
  import opened Validation
  import opened Guards
  import opened Requests
  import opened Ipam
  import opened SubnetGuards
  import opened SubnetTools

  /** Subnets are configured, and the network overlaps one or has no extent. */
  ghost predicate ExtentGuarded(v6: Ipv6Text, g: Guardrails, row: NetworkRow) {
    && |g.protectedSubnets| > 0
    && (TextOf(row.start) == "" || TextOf(row.end) == ""
        || ReportsOverlap(v6, g.protectedSubnets, TextOf(row.start), TextOf(row.end)))
  }

  /** Spaces are configured, and the network is in one of them or in no known space. */
  predicate SpaceGuarded(g: Guardrails, row: NetworkRow) {
    |g.protectedSpaces| > 0 && (TextOf(row.space) == "" || NamedByEntry(g.protectedSpaces, TextOf(row.space)))
  }

  /** The guarded networks are the same, row by row. */
  ghost predicate KeepsExtents(v6: Ipv6Text, g: Guardrails, before: Networks, after: Networks) {
    && (forall id | id in before && ExtentGuarded(v6, g, before[id]) :: id in after && after[id] == before[id])
    && (forall id | id in after && ExtentGuarded(v6, g, after[id]) :: id in before && before[id] == after[id])
  }

  predicate KeepsSpaces(g: Guardrails, before: Networks, after: Networks) {
    && (forall id | id in before && SpaceGuarded(g, before[id]) :: id in after && after[id] == before[id])
    && (forall id | id in after && SpaceGuarded(g, after[id]) :: id in before && before[id] == after[id])
  }

  // ---------- one step ----------

  /** A network that is a clear block passes the guards. */
  lemma ClearBlockPasses(v6: Ipv6Text, entries: seq<string>, row: NetworkRow, block: Prefix)
    requires Lawful(v6) && IsSubnet(v6, row, block) && ClearBlock(v6, entries, block)
    ensures ExtentPasses(v6, entries, RowExtent(row))
  {
    AddrReadsBack(v6, First(block));
    AddrReadsBack(v6, Last(block));
  }

  lemma ClearIsSymmetric(v6: Ipv6Text, entries: seq<string>, a: Addr, b: Addr)
    requires Clear(v6, entries, a, b)
    ensures Clear(v6, entries, Lower(a, b), Upper(a, b)) && AtMost(Lower(a, b), Upper(a, b))
  {
    LowerUpper(a, b);
    LowerUpper(Lower(a, b), Upper(a, b));
    forall k | 0 <= k < |entries| ensures !EntryMeets(v6, entries[k], Lower(a, b), Upper(a, b)) {
      assert !EntryMeets(v6, entries[k], a, b);
    }
  }

  /** What lies in a network that passes, passes. */
  lemma InsidePasses(v6: Ipv6Text, entries: seq<string>, outer: NetworkRow, inner: NetworkRow)
    requires NetworkInside(v6, outer, inner) && ExtentPasses(v6, entries, RowExtent(outer))
    ensures ExtentPasses(v6, entries, RowExtent(inner))
  {
    var (o, i) := (RowExtent(outer), RowExtent(inner));
    var a, b := ParseAddr(v6, TrimSpace(o.start)).value, ParseAddr(v6, TrimSpace(o.end)).value;
    var c, d := ParseAddr(v6, TrimSpace(i.start)).value, ParseAddr(v6, TrimSpace(i.end)).value;
    ClearIsSymmetric(v6, entries, a, b);
    ClearMono(v6, entries, Lower(a, b), Upper(a, b), c, d);
    assert ParseAddr(v6, TrimSpace("")) == None;
  }

  lemma CreateKeeps(v6: Ipv6Text, g: Guardrails, before: Networks, c: Call, after: Networks)
    requires Lawful(v6) && c.SubnetCreate? && CarriedOut(v6, g, before, c, after)
    ensures KeepsExtents(v6, g, before, after) && KeepsSpaces(g, before, after)
  {
    var block := CanonicalBlock(v6, c.address, c.prefix).value;
    var id: nat, row: NetworkRow :|
      id !in before && row.space == Some(c.space) && IsSubnet(v6, row, block) && after == before[id := row];
    ClearBlockPasses(v6, g.protectedSubnets, row, block);
  }

  lemma UpdateKeeps(v6: Ipv6Text, g: Guardrails, before: Networks, c: Call, after: Networks)
    requires Lawful(v6) && c.SubnetUpdate? && CarriedOut(v6, g, before, c, after)
    ensures KeepsExtents(v6, g, before, after) && KeepsSpaces(g, before, after)
  {
    var row := before[c.id];
    var edited: NetworkRow :| EditOf(v6, row, NewLength(c.prefix), edited) && after == before[c.id := edited];
    if |g.protectedSubnets| > 0 {
      EditedPasses(v6, g, row, c.prefix, edited);
    }
    OneRowKeeps(v6, g, before, c.id, edited);
  }

  /** Replacing an unguarded row by an unguarded one. */
  lemma OneRowKeeps(v6: Ipv6Text, g: Guardrails, before: Networks, id: nat, row: NetworkRow)
    requires id in before && !ExtentGuarded(v6, g, before[id]) && !ExtentGuarded(v6, g, row)
    requires !SpaceGuarded(g, before[id]) && !SpaceGuarded(g, row)
    ensures KeepsExtents(v6, g, before, before[id := row]) && KeepsSpaces(g, before, before[id := row])
  {
  }

  lemma EditedPasses(v6: Ipv6Text, g: Guardrails, row: NetworkRow, prefix: string, edited: NetworkRow)
    requires Lawful(v6) && |g.protectedSubnets| > 0
    requires UpdateAllowed(v6, g, row, prefix) && EditOf(v6, row, NewLength(prefix), edited)
    ensures ExtentPasses(v6, g.protectedSubnets, RowExtent(row))
    ensures ExtentPasses(v6, g.protectedSubnets, RowExtent(edited))
  {
    if TrimSpace(prefix) != "" {
      var block := CanonicalBlock(v6, TextOf(row.start), TrimSpace(prefix)).value;
      ClearBlockPasses(v6, g.protectedSubnets, edited, block);
    }
  }

  lemma DeleteKeepsSpaces(v6: Ipv6Text, g: Guardrails, before: Networks, c: Call, after: Networks)
    requires c.SubnetDelete? && CarriedOut(v6, g, before, c, after)
    ensures KeepsSpaces(g, before, after)
  {
    var targets := TargetsOf(v6, before, c.space, c.address);
    assert c.space != "";
    forall id | id in before && id !in after ensures before[id].space == Some(c.space) {
      if id !in targets {
        var t :| t in targets && t in before && NetworkInside(v6, before[t], before[id]);
      }
    }
  }

  lemma DeleteKeepsExtents(v6: Ipv6Text, g: Guardrails, before: Networks, c: Call, after: Networks)
    requires c.SubnetDelete? && CarriedOut(v6, g, before, c, after)
    requires TargetsFit(v6, before, c.space, c.address)
    ensures KeepsExtents(v6, g, before, after)
  {
    var targets := TargetsOf(v6, before, c.space, c.address);
    if |g.protectedSubnets| > 0 {
      forall id | id in before && id !in after ensures ExtentPasses(v6, g.protectedSubnets, RowExtent(before[id])) {
        if id !in targets {
          var t :| t in targets && t in before && NetworkInside(v6, before[t], before[id]);
          InsidePasses(v6, g.protectedSubnets, before[t], before[id]);
        }
      }
    }
  }

  /** Every call keeps the networks in guarded spaces. */
  lemma StepKeepsSpaces(v6: Ipv6Text, g: Guardrails, before: Networks, c: Call, after: Networks)
    requires Lawful(v6) && Next(v6, g, before, c, after)
    ensures KeepsSpaces(g, before, after)
  {
    if after != before {
      match c
      case SubnetCreate(_, _, _, _) => CreateKeeps(v6, g, before, c, after);
      case SubnetUpdate(_, _, _, _, _) => UpdateKeeps(v6, g, before, c, after);
      case SubnetDelete(_, _) => DeleteKeepsSpaces(v6, g, before, c, after);
    }
  }

  /** Every call keeps the networks with guarded extents, if it is not a delete of more targets than a page holds. */
  lemma StepKeepsExtents(v6: Ipv6Text, g: Guardrails, before: Networks, c: Call, after: Networks)
    requires Lawful(v6) && Next(v6, g, before, c, after) && DeleteFits(v6, before, c)
    ensures KeepsExtents(v6, g, before, after)
  {
    if after != before {
      match c
      case SubnetCreate(_, _, _, _) => CreateKeeps(v6, g, before, c, after);
      case SubnetUpdate(_, _, _, _, _) => UpdateKeeps(v6, g, before, c, after);
      case SubnetDelete(_, _) => DeleteKeepsExtents(v6, g, before, c, after);
    }
  }

  // ---------- sessions ----------

  /** Hands a call to the handler registered for its tool. */
  method Dispatch(server: SubnetServer, c: Call) returns (r: Reply, ghost trace: Trace)
    requires Lawful(server.v6)
    modifies server.ipam
    ensures server.ipam.log == old(server.ipam.log) + trace
    ensures Answered(server.v6, server.g, old(server.ipam.networks), c, r, server.ipam.networks, trace)
  {
    match c {
      case SubnetCreate(space, name, address, prefix) =>
        r, trace := server.SubnetCreate(space, name, address, prefix);
      case SubnetUpdate(id, name, prefix, className, space) =>
        r, trace := server.SubnetUpdate(id, name, prefix, className, space);
      case SubnetDelete(space, address) => r, trace := server.SubnetDelete(space, address);
    }
  }

  ghost predicate IsRun(v6: Ipv6Text, g: Guardrails, states: seq<Networks>, calls: seq<Call>) {
    && |states| == |calls| + 1
    && forall i | 0 <= i < |calls| :: Next(v6, g, states[i], calls[i], states[i + 1])
  }

  /** No delete of the run has more targets, when it comes, than a page holds. */
  ghost predicate AllFit(v6: Ipv6Text, states: seq<Networks>, calls: seq<Call>)
    requires |states| > |calls|
  {
    forall i | 0 <= i < |calls| :: DeleteFits(v6, states[i], calls[i])
  }

  lemma RunKeepsSpaces(v6: Ipv6Text, g: Guardrails, states: seq<Networks>, calls: seq<Call>)
    requires Lawful(v6) && IsRun(v6, g, states, calls)
    ensures KeepsSpaces(g, states[0], states[|calls|])
  {
    var kept := (i: nat) => i < |states| && KeepsSpaces(g, states[0], states[i]);
    assert kept(0);
    forall i: nat | i < |calls| && kept(i) ensures kept(i + 1) {
      StepKeepsSpaces(v6, g, states[i], calls[i], states[i + 1]);
      SpacesTransitive(g, states[0], states[i], states[i + 1]);
    }
    StepsReach(kept, |calls|);
  }

  lemma SpacesTransitive(g: Guardrails, a: Networks, b: Networks, c: Networks)
    requires KeepsSpaces(g, a, b) && KeepsSpaces(g, b, c)
    ensures KeepsSpaces(g, a, c)
  {
  }

  lemma RunKeepsExtents(v6: Ipv6Text, g: Guardrails, states: seq<Networks>, calls: seq<Call>)
    requires Lawful(v6) && IsRun(v6, g, states, calls) && AllFit(v6, states, calls)
    ensures KeepsExtents(v6, g, states[0], states[|calls|])
  {
    var kept := (i: nat) => i < |states| && KeepsExtents(v6, g, states[0], states[i]);
    assert kept(0);
    forall i: nat | i < |calls| && kept(i) ensures kept(i + 1) {
      StepKeepsExtents(v6, g, states[i], calls[i], states[i + 1]);
      ExtentsTransitive(v6, g, states[0], states[i], states[i + 1]);
    }
    StepsReach(kept, |calls|);
  }

  lemma ExtentsTransitive(v6: Ipv6Text, g: Guardrails, a: Networks, b: Networks, c: Networks)
    requires KeepsExtents(v6, g, a, b) && KeepsExtents(v6, g, b, c)
    ensures KeepsExtents(v6, g, a, c)
  {
  }

  /**
   Whatever subnet calls are made, in whatever order, and however requests fail: every network in a
   protected or unknown space is there at the end unchanged, and none was added. If the targets
   of every delete fit a page, every network that overlaps a protected subnet, or has no extent, is
   there at the end unchanged, and none was added. In read-only mode nothing is sent and nothing
   changes. A session whose requests all succeed does every call it must let through and refuses
   those it may not; what fits a page is done exactly when it is permitted.
   */
  method Serve(server: SubnetServer, calls: seq<Call>)
    returns (replies: seq<Reply>, ghost states: seq<Networks>, ghost traces: seq<Trace>)
    requires Lawful(server.v6)
    modifies server.ipam
    ensures |replies| == |traces| == |calls| && IsRun(server.v6, server.g, states, calls)
    ensures states[0] == old(server.ipam.networks) && states[|calls|] == server.ipam.networks
    ensures server.ipam.log == old(server.ipam.log) + Joined(traces)
    ensures forall i | 0 <= i < |calls| ::
      Answered(server.v6, server.g, states[i], calls[i], replies[i], states[i + 1], traces[i])
    ensures KeepsSpaces(server.g, old(server.ipam.networks), server.ipam.networks)
    ensures AllFit(server.v6, states, calls) ==>
      KeepsExtents(server.v6, server.g, old(server.ipam.networks), server.ipam.networks)
    ensures server.g.readOnly ==>
      && server.ipam.networks == old(server.ipam.networks)
      && forall i | 0 <= i < |calls| :: replies[i] == Refused && traces[i] == []
    ensures AllOk(Joined(traces)) ==>
      forall i | 0 <= i < |calls| :: Decided(server.v6, server.g, states[i], calls[i], replies[i])
  {
    replies, states, traces := [], [server.ipam.networks], [];
    ghost var log := server.ipam.log;
    for i := 0 to |calls|
      invariant |replies| == |traces| == i && |states| == i + 1
      invariant states[0] == old(server.ipam.networks) && states[i] == server.ipam.networks
      invariant server.ipam.log == log + Joined(traces)
      invariant AllAnswered(server.v6, server.g, states, calls[..i], replies, traces)
      invariant server.g.readOnly ==> server.ipam.networks == old(server.ipam.networks)
    {
      var r;
      ghost var trace;
      r, trace := Dispatch(server, calls[i]);
      AnsweredGrows(server.v6, server.g, states, calls, replies, traces, i, r, server.ipam.networks, trace);
      JoinedGrows(traces, trace, log);
      replies, states, traces := replies + [r], states + [server.ipam.networks], traces + [trace];
    }
    assert calls[..|calls|] == calls;
    AnsweredRun(server.v6, server.g, states, calls, replies, traces);
    RunKeepsSpaces(server.v6, server.g, states, calls);
    if AllFit(server.v6, states, calls) {
      RunKeepsExtents(server.v6, server.g, states, calls);
    }
  }

  /** The reply to a call whose requests all succeed. */
  ghost predicate Decided(v6: Ipv6Text, g: Guardrails, before: Networks, c: Call, r: Reply) {
    && (r.Done? || r.Refused?)
    && (Permitted(v6, g, before, c, Must) ==> r.Done?) && (r.Done? ==> Permitted(v6, g, before, c, May))
    && (DeleteFits(v6, before, c) ==> r == if Permitted(v6, g, before, c, Must) then Done else Refused)
  }

  /** Every call so far was answered, one after another. */
  ghost predicate AllAnswered(
      v6: Ipv6Text, g: Guardrails, states: seq<Networks>, calls: seq<Call>, replies: seq<Reply>, traces: seq<Trace>)
  {
    && |replies| == |traces| == |calls| && |states| == |calls| + 1
    && forall i | 0 <= i < |calls| :: Answered(v6, g, states[i], calls[i], replies[i], states[i + 1], traces[i])
  }

  lemma AnsweredGrows(
      v6: Ipv6Text, g: Guardrails, states: seq<Networks>, calls: seq<Call>, replies: seq<Reply>, traces: seq<Trace>,
      n: nat, r: Reply, next: Networks, trace: Trace)
    requires n < |calls| && AllAnswered(v6, g, states, calls[..n], replies, traces)
    requires Answered(v6, g, states[n], calls[n], r, next, trace)
    ensures AllAnswered(v6, g, states + [next], calls[..n + 1], replies + [r], traces + [trace])
  {
    var s, c, q, t := states + [next], calls[..n + 1], replies + [r], traces + [trace];
    forall i | 0 <= i < n + 1 ensures Answered(v6, g, s[i], c[i], q[i], s[i + 1], t[i]) {
      if i < n {
        assert Answered(v6, g, states[i], calls[..n][i], replies[i], states[i + 1], traces[i]);
      }
    }
  }

  /** Answered calls are a run, and their requests decide the replies. */
  lemma AnsweredRun(
      v6: Ipv6Text, g: Guardrails, states: seq<Networks>, calls: seq<Call>, replies: seq<Reply>, traces: seq<Trace>)
    requires AllAnswered(v6, g, states, calls, replies, traces)
    ensures IsRun(v6, g, states, calls)
    ensures g.readOnly ==> forall i | 0 <= i < |calls| :: replies[i] == Refused && traces[i] == []
    ensures AllOk(Joined(traces)) ==>
      forall i | 0 <= i < |calls| :: Decided(v6, g, states[i], calls[i], replies[i])
  {
    forall i | 0 <= i < |calls| ensures Next(v6, g, states[i], calls[i], states[i + 1]) {
      AnswersAreSteps(v6, g, states[i], calls[i], replies[i], states[i + 1], traces[i]);
    }
    forall i | 0 <= i < |calls| && g.readOnly ensures replies[i] == Refused && traces[i] == [] {
      ReadOnlyRefuses(v6, g, states[i], calls[i], replies[i], states[i + 1], traces[i]);
    }
    if AllOk(Joined(traces)) {
      forall i | 0 <= i < |calls| ensures Decided(v6, g, states[i], calls[i], replies[i]) {
        AllOkEach(traces, i);
        SuccessDecides(v6, g, states[i], calls[i], replies[i], states[i + 1], traces[i]);
      }
    }
  }

  lemma ReadOnlyRefuses(
      v6: Ipv6Text, g: Guardrails, before: Networks, c: Call, r: Reply, after: Networks, trace: Trace)
    requires g.readOnly && Answered(v6, g, before, c, r, after, trace)
    ensures r == Refused && trace == []
  {
  }
}
