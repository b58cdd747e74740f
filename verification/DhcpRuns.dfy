/**
 Safety of the DHCP tools over whole runs: objects that touch a protected subnet, or whose
 addresses cannot be told, outlive every run unchanged, and none is ever added, except by a
 scope create whose address is not network-aligned.
 */
module DhcpRuns {
  import opened Wrappers
  import opened Text
  import opened Arithmetic
  import opened Netip
  import opened NetipText
  import opened Validation
  import opened Guards
  import opened ScopeExtent
  import opened DhcpState

  /** Subnets are configured, and the row overlaps one or cannot be told not to. */
  ghost predicate ScopeGuarded(v6: Ipv6Text, g: Guardrails, row: ScopeRow) {
    |g.protectedSubnets| > 0 && !ScopeVerified(v6, g.protectedSubnets, row)
  }

  ghost predicate RangeGuarded(v6: Ipv6Text, g: Guardrails, row: RangeRow) {
    |g.protectedSubnets| > 0 && !RangeVerified(v6, g.protectedSubnets, row)
  }

  ghost predicate StaticGuarded(v6: Ipv6Text, g: Guardrails, row: StaticRow) {
    |g.protectedSubnets| > 0 && !StaticVerified(v6, g.protectedSubnets, row)
  }

  /** A scope create whose address has bits set beyond its prefix. */
  predicate UnalignedCreate(v6: Ipv6Text, c: Call) {
    && c.ScopeCreate? && CreateBlock(v6, c).Some?
    && AddrOf(v6, TrimSpace(c.address)) != Some(CreateBlock(v6, c).value.addr)
  }

  // ---------- one step ----------

  ghost predicate KeepsGuarded(v6: Ipv6Text, g: Guardrails, before: Db, after: Db) {
    && (forall id | id in before.scopes && ScopeGuarded(v6, g, before.scopes[id]) ::
          id in after.scopes && after.scopes[id] == before.scopes[id])
    && (forall id | id in before.ranges && RangeGuarded(v6, g, before.ranges[id]) ::
          id in after.ranges && after.ranges[id] == before.ranges[id])
    && (forall id | id in before.statics && StaticGuarded(v6, g, before.statics[id]) ::
          id in after.statics && after.statics[id] == before.statics[id])
  }

  ghost predicate AddsNoGuardedRange(v6: Ipv6Text, g: Guardrails, before: Db, after: Db) {
    forall id | id in after.ranges && RangeGuarded(v6, g, after.ranges[id]) ::
      id in before.ranges && before.ranges[id] == after.ranges[id]
  }

  ghost predicate AddsNoGuardedStatic(v6: Ipv6Text, g: Guardrails, before: Db, after: Db) {
    forall id | id in after.statics && StaticGuarded(v6, g, after.statics[id]) ::
      id in before.statics && before.statics[id] == after.statics[id]
  }

  /** The row is what one of the unaligned creates among these calls sent. */
  ghost predicate SentUnaligned(v6: Ipv6Text, calls: seq<Call>, row: ScopeRow) {
    exists i | 0 <= i < |calls| :: UnalignedCreate(v6, calls[i]) && ScopeSent(v6, calls[i]) == row
  }

  ghost predicate AddsNoGuardedScope(v6: Ipv6Text, g: Guardrails, before: Db, calls: seq<Call>, after: Db) {
    forall id | id in after.scopes && ScopeGuarded(v6, g, after.scopes[id]) ::
      (id in before.scopes && before.scopes[id] == after.scopes[id]) || SentUnaligned(v6, calls, after.scopes[id])
  }

  /** What one call, or a run of them, does to guarded rows. */
  ghost predicate Conserves(v6: Ipv6Text, g: Guardrails, before: Db, calls: seq<Call>, after: Db) {
    && KeepsGuarded(v6, g, before, after)
    && AddsNoGuardedRange(v6, g, before, after)
    && AddsNoGuardedStatic(v6, g, before, after)
    && AddsNoGuardedScope(v6, g, before, calls, after)
  }

  lemma RangeInsideVerified(v6: Ipv6Text, entries: seq<string>, scope: ScopeRow, row: RangeRow)
    requires ScopeVerified(v6, entries, scope) && RangeInside(v6, scope, row)
    ensures RangeVerified(v6, entries, row)
  {
    ExtentIsSpan(v6, scope);
    var (first, last) := RowSpan(v6, scope).value;
    ClearMono(v6, entries, first, last, AddrOf(v6, row.start).value, AddrOf(v6, row.end).value);
  }

  lemma StaticInsideVerified(v6: Ipv6Text, entries: seq<string>, scope: ScopeRow, row: StaticRow)
    requires ScopeVerified(v6, entries, scope) && StaticInside(v6, scope, row)
    ensures StaticVerified(v6, entries, row)
  {
    ExtentIsSpan(v6, scope);
    var (first, last) := RowSpan(v6, scope).value;
    ClearMono(v6, entries, first, last, StaticAddr(v6, row).value, StaticAddr(v6, row).value);
  }

  /** What goes along with verified scopes is not guarded. */
  lemma CascadeSpares(v6: Ipv6Text, g: Guardrails, before: Db, ids: set<nat>, after: Db)
    requires ids <= before.scopes.Keys && ScopesVerified(v6, g.protectedSubnets, before, ids)
    requires OnlyInsideGone(v6, before, ids, after)
    ensures forall r | r in before.ranges && RangeGuarded(v6, g, before.ranges[r]) ::
              r in after.ranges && after.ranges[r] == before.ranges[r]
    ensures forall s | s in before.statics && StaticGuarded(v6, g, before.statics[s]) ::
              s in after.statics && after.statics[s] == before.statics[s]
  {
    forall r | r in before.ranges && RangeGuarded(v6, g, before.ranges[r])
      ensures r in after.ranges && after.ranges[r] == before.ranges[r]
    {
      if r !in after.ranges {
        var id :| id in ids && id in before.scopes && RangeInside(v6, before.scopes[id], before.ranges[r]);
        RangeInsideVerified(v6, g.protectedSubnets, before.scopes[id], before.ranges[r]);
      }
    }
    forall s | s in before.statics && StaticGuarded(v6, g, before.statics[s])
      ensures s in after.statics && after.statics[s] == before.statics[s]
    {
      if s !in after.statics {
        var id :| id in ids && id in before.scopes && StaticInside(v6, before.scopes[id], before.statics[s]);
        StaticInsideVerified(v6, g.protectedSubnets, before.scopes[id], before.statics[s]);
      }
    }
  }

  /** A permitted, network-aligned create adds a scope with a known, unprotected extent. */
  lemma AlignedCreateVerified(v6: Ipv6Text, g: Guardrails, db: Db, c: Call)
    requires c.ScopeCreate? && Permitted(v6, g, db, c) && !UnalignedCreate(v6, c)
    ensures ScopeVerified(v6, g.protectedSubnets, ScopeSent(v6, c))
  {
    var block := CreateBlock(v6, c).value;
    var t := TrimSpace(c.address);
    TrimIsTight(c.address);
    MaskedIsAligned(AddrOf(v6, t).value, block.bits);
    CreateAndDeleteSeeTheSameBlock(v6, c.server, t, block.bits, Given(c.name), block.addr);
    AlignedIsFirst(block);
  }

  lemma ScopeDeleteConserves(v6: Ipv6Text, g: Guardrails, before: Db, c: Call, after: Db)
    requires c.ScopeDelete? && Permitted(v6, g, before, c) && Effect(v6, before, c, after)
    ensures Conserves(v6, g, before, [c], after)
  {
    CascadeSpares(v6, g, before, ScopesAt(before, c.server, TrimSpace(c.address)), after);
  }

  lemma SharedNetworkDeleteConserves(v6: Ipv6Text, g: Guardrails, before: Db, c: Call, after: Db)
    requires c.SharedNetworkDelete? && Permitted(v6, g, before, c) && Effect(v6, before, c, after)
    ensures Conserves(v6, g, before, [c], after)
  {
    var members := ScopesUnder(before, c.server, c.name);
    CascadeSpares(v6, g, before, members, after);
    forall id | id in before.scopes && id in members && id in after.scopes
      ensures ScopeGuarded(v6, g, after.scopes[id]) <==> ScopeGuarded(v6, g, before.scopes[id])
    {
      UngroupedSpan(v6, before.scopes[id]);
    }
  }

  lemma UngroupedSpan(v6: Ipv6Text, row: ScopeRow)
    ensures RowSpan(v6, row.(sharedNetwork := "")) == RowSpan(v6, row)
  {
  }

  lemma RangeDeleteConserves(v6: Ipv6Text, g: Guardrails, before: Db, c: Call, after: Db)
    requires c.RangeDelete? && Permitted(v6, g, before, c) && Effect(v6, before, c, after)
    ensures Conserves(v6, g, before, [c], after)
  {
    forall id | id in RangesAt(v6, before, c.server, c.start, c.end)
      ensures RangeVerified(v6, g.protectedSubnets, before.ranges[id])
    {
      assert AddrOf(v6, before.ranges[id].start) == AddrOf(v6, c.start);
    }
  }

  lemma StaticDeleteConserves(v6: Ipv6Text, g: Guardrails, before: Db, c: Call, after: Db)
    requires c.StaticDelete? && Permitted(v6, g, before, c) && Effect(v6, before, c, after)
    ensures Conserves(v6, g, before, [c], after)
  {
    forall id | id in StaticsAt(v6, before, c.server, c.ip)
      ensures StaticVerified(v6, g.protectedSubnets, before.statics[id])
    {
      assert StaticAddr(v6, before.statics[id]) == AddrOf(v6, c.ip);
    }
  }

  lemma GroupDeleteConserves(v6: Ipv6Text, g: Guardrails, before: Db, c: Call, after: Db)
    requires c.GroupDelete? && Permitted(v6, g, before, c) && Effect(v6, before, c, after)
    ensures Conserves(v6, g, before, [c], after)
  {
    forall id | id in before.statics && id in StaticsUnder(before, c.server, c.name)
      ensures !StaticGuarded(v6, g, before.statics[id])
      ensures !StaticGuarded(v6, g, before.statics[id].(group := ""))
    {
    }
  }

  lemma ScopeCreateConserves(v6: Ipv6Text, g: Guardrails, before: Db, c: Call, after: Db)
    requires c.ScopeCreate? && Permitted(v6, g, before, c) && Effect(v6, before, c, after)
    ensures Conserves(v6, g, before, [c], after)
  {
    if UnalignedCreate(v6, c) {
      assert UnalignedCreate(v6, [c][0]);
    } else {
      AlignedCreateVerified(v6, g, before, c);
    }
  }

  lemma RangeCreateConserves(v6: Ipv6Text, g: Guardrails, before: Db, c: Call, after: Db)
    requires c.RangeCreate? && Permitted(v6, g, before, c) && Effect(v6, before, c, after)
    ensures Conserves(v6, g, before, [c], after)
  {
    assert RangeVerified(v6, g.protectedSubnets, RangeRow(c.server, c.start, c.end, Given(c.scope), Given(c.name)));
  }

  lemma StaticAddConserves(v6: Ipv6Text, g: Guardrails, before: Db, c: Call, after: Db)
    requires c.StaticAdd? && Permitted(v6, g, before, c) && Effect(v6, before, c, after)
    ensures Conserves(v6, g, before, [c], after)
  {
    assert StaticVerified(v6, g.protectedSubnets, StaticRow(c.server, Some(c.ip), c.name, c.mac, ""));
  }

  /** Every call keeps every guarded row, and adds none but through an unaligned scope create. */
  lemma StepConserves(v6: Ipv6Text, g: Guardrails, before: Db, c: Call, after: Db)
    requires Next(v6, g, before, c, after)
    ensures Conserves(v6, g, before, [c], after)
  {
    if after != before {
      match c
      case StaticAdd(_, _, _, _) => StaticAddConserves(v6, g, before, c, after);
      case StaticDelete(_, _) => StaticDeleteConserves(v6, g, before, c, after);
      case ScopeCreate(_, _, _, _) => ScopeCreateConserves(v6, g, before, c, after);
      case ScopeDelete(_, _) => ScopeDeleteConserves(v6, g, before, c, after);
      case RangeCreate(_, _, _, _, _) => RangeCreateConserves(v6, g, before, c, after);
      case RangeDelete(_, _, _) => RangeDeleteConserves(v6, g, before, c, after);
      case SharedNetworkDelete(_, _) => SharedNetworkDeleteConserves(v6, g, before, c, after);
      case GroupDelete(_, _) => GroupDeleteConserves(v6, g, before, c, after);
      case SharedNetworkCreate(_, _) => SameRowsConserve(v6, g, before, c, after);
      case GroupCreate(_, _) => SameRowsConserve(v6, g, before, c, after);
    } else {
      SameRowsConserve(v6, g, before, c, after);
    }
  }

  lemma SameRowsConserve(v6: Ipv6Text, g: Guardrails, before: Db, c: Call, after: Db)
    requires after.scopes == before.scopes && after.ranges == before.ranges && after.statics == before.statics
    ensures Conserves(v6, g, before, [c], after)
  {
  }

  // ---------- runs ----------

  ghost predicate IsRun(v6: Ipv6Text, g: Guardrails, states: seq<Db>, calls: seq<Call>) {
    && |states| == |calls| + 1
    && forall i | 0 <= i < |calls| :: Next(v6, g, states[i], calls[i], states[i + 1])
  }

  /**
   Over every run of the ten tools, cascades included: what was guarded at the start is there at the
   end, unchanged; what is guarded at the end was there at the start, unless an unaligned create sent it.
   */
  lemma RunsConserve(v6: Ipv6Text, g: Guardrails, states: seq<Db>, calls: seq<Call>)
    requires IsRun(v6, g, states, calls)
    ensures Conserves(v6, g, states[0], calls, states[|calls|])
  {
    var kept := (i: nat) => i <= |calls| && Conserves(v6, g, states[0], calls[..i], states[i]);
    assert kept(|calls|) by {
      NoCalls(v6, g, states[0]);
      assert calls[..0] == [] && kept(0);
      forall i: nat | i < |calls| && kept(i) ensures kept(i + 1) {
        OneMoreCall(v6, g, states[0], calls, i, states[i], states[i + 1]);
      }
      StepsReach(kept, |calls|);
    }
    assert calls[..|calls|] == calls;
  }

  lemma NoCalls(v6: Ipv6Text, g: Guardrails, db: Db)
    ensures Conserves(v6, g, db, [], db)
  {
  }

  lemma OneMoreCall(v6: Ipv6Text, g: Guardrails, first: Db, calls: seq<Call>, i: nat, middle: Db, last: Db)
    requires i < |calls| && Conserves(v6, g, first, calls[..i], middle) && Next(v6, g, middle, calls[i], last)
    ensures Conserves(v6, g, first, calls[..i + 1], last)
  {
    StepConserves(v6, g, middle, calls[i], last);
    Compose(v6, g, first, calls[..i], middle, calls[i], last);
    assert calls[..i + 1] == calls[..i] + [calls[i]];
  }

  lemma Compose(v6: Ipv6Text, g: Guardrails, first: Db, calls: seq<Call>, middle: Db, c: Call, last: Db)
    requires Conserves(v6, g, first, calls, middle) && Conserves(v6, g, middle, [c], last)
    ensures Conserves(v6, g, first, calls + [c], last)
  {
    forall id | id in last.scopes && ScopeGuarded(v6, g, last.scopes[id])
      ensures
        || (id in first.scopes && first.scopes[id] == last.scopes[id])
        || SentUnaligned(v6, calls + [c], last.scopes[id])
    {
      if SentUnaligned(v6, calls, last.scopes[id]) || SentUnaligned(v6, [c], last.scopes[id]) {
        SentUnalignedGrows(v6, calls + [c], |calls|, last.scopes[id]);
      }
    }
  }

  lemma SentUnalignedGrows(v6: Ipv6Text, calls: seq<Call>, n: nat, row: ScopeRow)
    requires n < |calls|
    requires SentUnaligned(v6, calls[..n], row) || SentUnaligned(v6, [calls[n]], row)
    ensures SentUnaligned(v6, calls, row)
  {
    if SentUnaligned(v6, calls[..n], row) {
      var i :| 0 <= i < n && UnalignedCreate(v6, calls[..n][i]) && ScopeSent(v6, calls[..n][i]) == row;
      assert UnalignedCreate(v6, calls[i]);
    } else {
      assert UnalignedCreate(v6, calls[n]);
    }
  }

  /** The rows that satisfy a predicate, by id. */
  ghost function Where<Row>(rows: map<nat, Row>, keep: Row -> bool): map<nat, Row> {
    map id | id in rows && keep(rows[id]) :: rows[id]
  }

  lemma SameWhere<Row>(a: map<nat, Row>, b: map<nat, Row>, keep: Row -> bool)
    requires forall id | id in a && keep(a[id]) :: id in b && b[id] == a[id]
    requires forall id | id in b && keep(b[id]) :: id in a && a[id] == b[id]
    ensures Where(a, keep) == Where(b, keep)
  {
  }

  /** The guarded scopes, ranges and reservations are the same, row by row, in both states. */
  ghost predicate SameGuarded(v6: Ipv6Text, g: Guardrails, a: Db, b: Db) {
    && Where(a.scopes, row => ScopeGuarded(v6, g, row)) == Where(b.scopes, row => ScopeGuarded(v6, g, row))
    && Where(a.ranges, row => RangeGuarded(v6, g, row)) == Where(b.ranges, row => RangeGuarded(v6, g, row))
    && Where(a.statics, row => StaticGuarded(v6, g, row)) == Where(b.statics, row => StaticGuarded(v6, g, row))
  }

  ghost predicate AllAligned(v6: Ipv6Text, calls: seq<Call>) {
    forall i | 0 <= i < |calls| :: !UnalignedCreate(v6, calls[i])
  }

  lemma AlignedCallsConserveGuarded(v6: Ipv6Text, g: Guardrails, a: Db, calls: seq<Call>, b: Db)
    requires Conserves(v6, g, a, calls, b) && AllAligned(v6, calls)
    ensures SameGuarded(v6, g, a, b)
  {
    SameWhere(a.scopes, b.scopes, row => ScopeGuarded(v6, g, row));
    SameWhere(a.ranges, b.ranges, row => RangeGuarded(v6, g, row));
    SameWhere(a.statics, b.statics, row => StaticGuarded(v6, g, row));
  }

  /** If every scope create of the run is network-aligned, the guarded rows are exactly the same at both ends. */
  lemma AlignedRunsConserveGuarded(v6: Ipv6Text, g: Guardrails, states: seq<Db>, calls: seq<Call>)
    requires IsRun(v6, g, states, calls) && AllAligned(v6, calls)
    ensures SameGuarded(v6, g, states[0], states[|calls|])
  {
    RunsConserve(v6, g, states, calls);
    AlignedCallsConserveGuarded(v6, g, states[0], calls, states[|calls|]);
  }

  /** In read-only mode no run changes any state. */
  lemma {:induction false} ReadOnlyRunsChangeNothing(v6: Ipv6Text, g: Guardrails, states: seq<Db>, calls: seq<Call>)
    requires g.readOnly && IsRun(v6, g, states, calls)
    ensures forall i | 0 <= i < |states| :: states[i] == states[0]
  {
    if calls != [] {
      var n := |calls| - 1;
      ReadOnlyRunsChangeNothing(v6, g, states[..n + 1], calls[..n]);
      assert Next(v6, g, states[n], calls[n], states[n + 1]);
      forall i | 0 <= i < |states| ensures states[i] == states[0] {
        if i <= n {
          assert states[i] == states[..n + 1][i];
        } else {
          assert states[n] == states[..n + 1][n];
        }
      }
    }
  }

  // ---------- why creates must be aligned ----------

  /** Entries as the configuration gives them: at least one, trimmed, and none blank. */
  predicate Configurable(entries: seq<string>) {
    |entries| > 0 && forall k | 0 <= k < |entries| :: entries[k] != "" && TrimSpace(entries[k]) == entries[k]
  }

  /** Whatever is configured, a create that the guard lets through adds a scope with a known, unprotected extent. */
  ghost predicate CreateAlwaysVerified(v6: Ipv6Text, address: string, prefix: string, bits: nat) {
    forall entries: seq<string>, server, name |
      Configurable(entries) && !PairOffends(v6, entries, address, prefix) ::
      ScopeVerified(v6, entries, CreatedRow(server, address, bits, name))
  }

  /**
   The guard checks the masked block while the request carries the address as given. The two agree
   for every configuration exactly when the address is network-aligned.
   */
  lemma CreateGuardIsExactIffAligned(v6: Ipv6Text, address: string, prefix: string, a: Addr, bits: nat)
    requires Lawful(v6)
    requires AddrOf(v6, address) == Some(a) && a.family.V4?
    requires Atoi(TrimSpace(prefix)) == Some(bits) && bits <= 32
    ensures CreateAlwaysVerified(v6, address, prefix, bits) <==> IsAligned(RawPrefix.Prefix(a, bits))
  {
    if IsAligned(RawPrefix.Prefix(a, bits)) {
      forall entries: seq<string>, server, name | !PairOffends(v6, entries, address, prefix)
        ensures ScopeVerified(v6, entries, CreatedRow(server, address, bits, name))
      {
        CreateAndDeleteSeeTheSameBlock(v6, server, address, bits, name, a);
      }
    } else {
      var entries := UnalignedSpill(v6, address, prefix, a, bits, "", None);
    }
  }

  /**
   The extent of an unaligned create runs past its masked block, or past the end of IPv4: some
   configuration of well-formed prefixes lets it through and has the extent protected or unknown.
   */
  lemma UnalignedSpill(
      v6: Ipv6Text, address: string, prefix: string, a: Addr, bits: nat, server: string, name: Option<string>)
    returns (entries: seq<string>)
    requires Lawful(v6)
    requires AddrOf(v6, address) == Some(a) && a.family.V4?
    requires Atoi(TrimSpace(prefix)) == Some(bits) && bits <= 32
    requires !IsAligned(RawPrefix.Prefix(a, bits))
    ensures Configurable(entries) && forall k | 0 <= k < |entries| :: EntryBlock(v6, entries[k]).Some?
    ensures !PairOffends(v6, entries, address, prefix)
    ensures !ScopeVerified(v6, entries, CreatedRow(server, address, bits, name))
  {
    CreatedRowSpan(v6, server, address, bits, name, a);
    entries := SpillEntries(v6, a, bits);
    BlockOfPair(v6, address, prefix, a, bits);
  }

  lemma BlockOfPair(v6: Ipv6Text, address: string, prefix: string, a: Addr, bits: nat)
    requires AddrOf(v6, address) == Some(a) && bits <= Width(a.family)
    requires Atoi(TrimSpace(prefix)) == Some(bits)
    ensures CanonicalBlock(v6, address, prefix) == Some(Mask(a, bits))
  {
  }

  /** A configuration that the masked block is clear of and the unaligned extent is not. */
  lemma SpillEntries(v6: Ipv6Text, a: Addr, bits: nat) returns (entries: seq<string>)
    requires Lawful(v6)
    requires a.family.V4? && bits <= 32 && !IsAligned(RawPrefix.Prefix(a, bits))
    ensures Configurable(entries) && forall k | 0 <= k < |entries| :: EntryBlock(v6, entries[k]).Some?
    ensures ClearBlock(v6, entries, Mask(a, bits))
    ensures
      match Span(a, Pow2(32 - bits))
      case Some((first, last)) => !Clear(v6, entries, first, last)
      case None => true
  {
    var span := Span(a, Pow2(32 - bits));
    if span.Some? {
      var b := NextAfterBlock(a, bits);
      entries := HostEntry(v6, b, a, span.value.1, Mask(a, bits));
    } else {
      entries := OtherFamilyEntry(v6, Mask(a, bits));
    }
  }

  /** An IPv6 entry is clear of every IPv4 block. */
  lemma OtherFamilyEntry(v6: Ipv6Text, p: Prefix) returns (entries: seq<string>)
    requires Lawful(v6) && p.addr.family.V4?
    ensures Configurable(entries) && forall k | 0 <= k < |entries| :: EntryBlock(v6, entries[k]).Some?
    ensures ClearBlock(v6, entries, p)
  {
    var host: Prefix := RawPrefix.Prefix(RawAddr.Addr(V6, 0), 128);
    entries := [ShowPrefix(v6, host)];
    PrefixReadsBack(v6, host);
    LowerUpper(First(p), Last(p));
    BlockHoldsEnds(p);
    MeetsBlockIsOverlap(host, p);
  }

  /** An entry for one address that lies in an interval and right after a block. */
  lemma HostEntry(v6: Ipv6Text, b: Addr, lo: Addr, hi: Addr, p: Prefix) returns (entries: seq<string>)
    requires Lawful(v6) && b.family.V4? && p.addr.family.V4?
    requires AtMost(lo, hi) && Between(lo, b, hi) && b.value == Last(p).value + 1
    ensures Configurable(entries) && forall k | 0 <= k < |entries| :: EntryBlock(v6, entries[k]).Some?
    ensures ClearBlock(v6, entries, p) && !Clear(v6, entries, lo, hi)
  {
    var host: Prefix := RawPrefix.Prefix(b, 32);
    entries := [ShowPrefix(v6, host)];
    PrefixReadsBack(v6, host);
    LowerUpper(lo, hi);
    HostMeets(b, lo, hi);
    assert EntryMeets(v6, entries[0], lo, hi);
    BlockHoldsEnds(p);
    LowerUpper(First(p), Last(p));
    HostMisses(b, p);
  }

  /** The address after the masked block is among the addresses an unaligned create spans. */
  lemma NextAfterBlock(a: Addr, bits: nat) returns (b: Addr)
    requires a.family.V4? && bits <= 32 && !IsAligned(RawPrefix.Prefix(a, bits))
    requires a.value + Pow2(32 - bits) - 1 < Pow2(32)
    ensures b.family.V4? && b.value == Last(Mask(a, bits)).value + 1
    ensures a.value <= b.value <= a.value + Pow2(32 - bits) - 1
  {
    var h := Pow2(32 - bits);
    MaskedIsAligned(a, bits);
    UnalignedIsPastStart(a.value, h);
    b := RawAddr.Addr(V4, a.value / h * h + h);
  }

  lemma UnalignedIsPastStart(v: nat, h: nat)
    requires h > 0 && v % h != 0
    ensures v < v / h * h + h <= v + h - 1
  {
    assert v == v / h * h + v % h;
  }

  lemma HostMeets(b: Addr, lo: Addr, hi: Addr)
    requires b.family.V4? && Between(lo, b, hi)
    ensures Meets(RawPrefix.Prefix(b, 32), lo, hi)
  {
    assert Contains(RawPrefix.Prefix(b, 32), b);
  }

  lemma HostMisses(b: Addr, p: Prefix)
    requires b.family.V4? && p.addr.family.V4? && b.value == Last(p).value + 1
    ensures !Meets(RawPrefix.Prefix(b, 32), First(p), Last(p))
  {
    var host: Prefix := RawPrefix.Prefix(b, 32);
    assert BlockSize(host) == 1;
    AlignedIsFirst(host);
    forall x: Addr | Contains(host, x) ensures x == b {
      ContainsIsBlock(host, x);
    }
  }

  /**
   With 10.0.1.0/24 protected, creating 10.0.0.128/24 passes the guard and validation, and adds a
   scope from 10.0.0.128 to 10.0.1.127.
   */
  lemma UnalignedCreateExample(v6: Ipv6Text, a: Addr, p: Prefix, last: Addr, server: string, name: Option<string>)
    requires Lawful(v6)
    requires a == RawAddr.Addr(V4, Join4(10, 0, 0, 128)) && last == RawAddr.Addr(V4, Join4(10, 0, 1, 127))
    requires p.addr == RawAddr.Addr(V4, Join4(10, 0, 1, 0)) && p.bits == 24
    ensures ValidSubnetPrefix(v6, ShowAddr(v6, a), Decimal(24))
    ensures !PairOffends(v6, [ShowPrefix(v6, p)], ShowAddr(v6, a), Decimal(24))
    ensures RowSpan(v6, CreatedRow(server, ShowAddr(v6, a), 24, name)) == Some((a, last))
    ensures !ScopeVerified(v6, [ShowPrefix(v6, p)], CreatedRow(server, ShowAddr(v6, a), 24, name))
  {
    AddrReadsBack(v6, a);
    TwentyFour();
    PrefixReadsBack(v6, p);
    ExampleBlocks(a, p, last);
    CreatedRowSpan(v6, server, ShowAddr(v6, a), 24, name, a);
    assert EntryMeets(v6, [ShowPrefix(v6, p)][0], a, last);
  }

  lemma TwentyFour()
    ensures Atoi(TrimSpace(Decimal(24))) == Some(24) && TrimSpace(Decimal(24)) != ""
    ensures Pow2(8) == 0x100
  {
    var n: nat := 24;
    DecimalReadsBack(n);
    AtoiReadsDecimal(n);
    TrimKeepsTight(Decimal(n));
    Pow2Values();
  }

  /** 10.0.1.0/24 misses the block of 10.0.0.128/24 and meets the addresses from 10.0.0.128 to 10.0.1.127. */
  lemma ExampleBlocks(a: Addr, p: Prefix, last: Addr)
    requires a == RawAddr.Addr(V4, Join4(10, 0, 0, 128)) && last == RawAddr.Addr(V4, Join4(10, 0, 1, 127))
    requires p.addr == RawAddr.Addr(V4, Join4(10, 0, 1, 0)) && p.bits == 24
    ensures !Meets(p, First(Mask(a, 24)), Last(Mask(a, 24))) && AtMost(First(Mask(a, 24)), Last(Mask(a, 24)))
    ensures Span(a, Pow2(8)) == Some((a, last)) && Meets(p, a, last)
  {
    BlockHoldsEnds(Mask(a, 24));
    ExampleMisses(a, p);
    MeetsBlockIsOverlap(p, Mask(a, 24));
    Pow2Values();
    assert Contains(p, p.addr);
  }

  lemma ExampleMisses(a: Addr, p: Prefix)
    requires a == RawAddr.Addr(V4, Join4(10, 0, 0, 128))
    requires p.addr == RawAddr.Addr(V4, Join4(10, 0, 1, 0)) && p.bits == 24
    ensures !Overlaps(p, Mask(a, 24))
  {
    Pow2Values();
  }
}
