/**
 Resolving a CIDR to one subnet id: the lookup by start address, the choice among several rows by
 size, and when a resolved id speaks for every network at that address.
 */
module Subnets {
  import opened Wrappers
  import opened Text
  import opened Arithmetic
  import opened Netip
  import opened NetipText
  import opened Pages
  import opened Requests
  import opened Ipam

  /** `expectedNetworkSize`: the decimal address count, unless it does not fit 64 bits. */
  function ExpectedNetworkSize(p: Prefix): Option<string> {
    var hostBits := Width(p.addr.family) - p.bits;
    if hostBits > 63 then None else Some(Decimal(Pow2(hostBits)))
  }

  /** The size is computable exactly when the block's address count fits 64 bits, and reads back as that count. */
  lemma SizeIsTheBlockCount(p: Prefix)
    ensures ExpectedNetworkSize(p).Some? <==> Last(p).value - First(p).value + 1 <= MAX_UINT64
    ensures ExpectedNetworkSize(p).Some? ==>
      ParseUint64(ExpectedNetworkSize(p).value) == Some(Last(p).value - First(p).value + 1)
  {
    CountFits(Width(p.addr.family) - p.bits);
    DecimalReadsBack(BlockSize(p));
    assert Last(p).value - First(p).value + 1 == BlockSize(p);
  }

  lemma CountFits(hostBits: nat)
    ensures hostBits <= 63 <==> Pow2(hostBits) <= MAX_UINT64
  {
    Pow2Values();
    if hostBits < 64 {
      Pow2Mono(hostBits, 64);
    } else if hostBits > 64 {
      Pow2Mono(64, hostBits);
    }
  }

  /** The row's size is the one the prefix asks for. */
  predicate SizeMatches(row: NetworkRow, p: Prefix) {
    ExpectedNetworkSize(p).Some? && row.size == ExpectedNetworkSize(p)
  }

  /** The row's size does not contradict the prefix. */
  predicate SizeAllows(row: NetworkRow, p: Prefix) {
    row.size == None || ExpectedNetworkSize(p) == None || row.size == ExpectedNetworkSize(p)
  }

  function Matching(rows: seq<NetworkRow>, p: Prefix): seq<NetworkRow> {
    if rows == [] then []
    else
      var init, last := rows[..|rows| - 1], rows[|rows| - 1];
      Matching(init, p) + if SizeMatches(last, p) then [last] else []
  }

  /** `disambiguateSubnetsBySize`. */
  method DisambiguateSubnetsBySize(rows: seq<NetworkRow>, p: Prefix) returns (out: seq<NetworkRow>)
    ensures out == if |rows| <= 1 || Matching(rows, p) == [] then rows else Matching(rows, p)
  {
    if |rows| <= 1 {
      return rows;
    }
    var want := ExpectedNetworkSize(p);
    if want == None {
      NothingMatches(rows, p);
      return rows;
    }
    out := [];
    for i := 0 to |rows|
      invariant out == Matching(rows[..i], p)
    {
      assert rows[..i + 1][..i] == rows[..i];
      if rows[i].size.Some? && rows[i].size.value == want.value {
        out := out + [rows[i]];
      }
    }
    assert rows[..|rows|] == rows;
    if |out| == 0 {
      return rows;
    }
  }

  lemma {:induction false} NothingMatches(rows: seq<NetworkRow>, p: Prefix)
    requires ExpectedNetworkSize(p) == None
    ensures Matching(rows, p) == []
  {
    if rows != [] {
      NothingMatches(rows[..|rows| - 1], p);
    }
  }

  /** The row's id, as it is written, is this positive 32-bit number. */
  ghost predicate HasId(row: NetworkRow, id: int) {
    row.id.Some? && SpellsInt(row.id.value, id) && 0 < id <= 0x7fff_ffff
  }

  lemma HasIdIsParsed(row: NetworkRow, id: int)
    ensures HasId(row, id) <==> row.id.Some? && ParseSigned(row.id.value, MAX_INT32) == Some(id) && id > 0
  {
    if row.id.Some? {
      SignedIsSpelled(row.id.value, MAX_INT32, id);
    }
  }

  /** An id in plain decimal is usable exactly when it is from 1 to 2^31 - 1, and then as what it is. */
  lemma DecimalIds(row: NetworkRow, n: nat, id: int)
    requires row.id == Some(Decimal(n))
    ensures HasId(row, id) <==> id == n && 0 < n <= 0x7fff_ffff
  {
    HasIdIsParsed(row, id);
    DecimalReadsBack(n);
  }

  datatype Resolution = Found(id: int) | InvalidCidr | ListError | NoneFound | NoId | UnusableId | Ambiguous

  /** What a CIDR's lookup is about: terminal networks that start where its block does, in the space if given. */
  function Candidates(v6: Ipv6Text, networks: Networks, p: Prefix, space: string): set<nat> {
    NetworksAt(networks, ShowAddr(v6, First(p)), true, space)
  }

  /**
   `resolveSubnetIDByCIDR`. Asks for the candidates unless the CIDR does not read, and fails only
   when that request fails. The rows of the page decide; and when the candidates fit a page, an id
   comes back exactly when the candidates single it out.
   */
  method ResolveSubnetIDByCIDR(v6: Ipv6Text, ipam: Appliance, cidr: string, space: string)
    returns (r: Resolution, ghost ids: seq<nat>)
    modifies ipam`log
    ensures r.InvalidCidr? <==> ParsePrefix(v6, TrimSpace(cidr)) == None
    ensures r.InvalidCidr? ==> ipam.log == old(ipam.log)
    ensures !r.InvalidCidr? ==>
      var p := ParsePrefix(v6, TrimSpace(cidr)).value;
      ipam.log == old(ipam.log)
        + [Sent(IpamNetworkList(TerminalWhere(ShowAddr(v6, First(p)), space)), !r.ListError?)]
    ensures !r.InvalidCidr? && !r.ListError? ==>
      var p := ParsePrefix(v6, TrimSpace(cidr)).value;
      var all := Candidates(v6, ipam.networks, p, space);
      && IsPage(all, MAX_LIST_LIMIT, ids) && (forall i | 0 <= i < |ids| :: ids[i] in ipam.networks)
      && Decides(RowsOf(ipam.networks, ids), p, r)
      && (|all| <= MAX_LIST_LIMIT ==> forall id :: r == Found(id) <==> ResolvesAmong(ipam.networks, all, p, id))
      && (|all| <= MAX_LIST_LIMIT && r.Found? ==> SoundlyResolved(ipam.networks, all, p, r.id))
  {
    ids := [];
    var parsed := ParsePrefix(v6, TrimSpace(cidr));
    if parsed == None {
      return InvalidCidr, ids;
    }
    var prefix := Masked(parsed.value);
    var startAddr := ShowAddr(v6, prefix.addr);
    var fixed := TerminalFilter(startAddr, space);
    assert Selects(ipam.networks, fixed, startAddr, true, space);
    var ok, rows;
    ok, rows, ids := ipam.ListNetworks(fixed, MAX_LIST_LIMIT);
    if !ok {
      return ListError, ids;
    }
    r := ResolveRows(rows, parsed.value);
    ghost var all := Candidates(v6, ipam.networks, parsed.value, space);
    PageDecides(ipam.networks, all, ids, parsed.value);
    FoundIffResolves(rows, parsed.value, r);
    if |all| <= MAX_LIST_LIMIT && r.Found? {
      ResolvedIsSound(ipam.networks, all, parsed.value, r.id);
    }
  }

  /** What the listed rows resolve to. */
  method ResolveRows(rows: seq<NetworkRow>, p: Prefix) returns (r: Resolution)
    ensures Decides(rows, p, r)
  {
    var matched := DisambiguateSubnetsBySize(rows, Masked(p));
    assert ExpectedNetworkSize(Masked(p)) == ExpectedNetworkSize(p);
    SameMatching(rows, Masked(p), p);
    r := ResolveMatched(matched, Masked(p));
    MatchedDecides(rows, p, r);
  }

  /** How the rows that are left decide. */
  method ResolveMatched(matched: seq<NetworkRow>, prefix: Prefix) returns (r: Resolution)
    ensures OneRowDecides(matched, prefix, r)
  {
    if |matched| == 0 {
      return NoneFound;
    }
    if |matched| > 1 {
      return Ambiguous;
    }
    var want := ExpectedNetworkSize(prefix);
    if want.Some? && matched[0].size.Some? && matched[0].size.value != want.value {
      return NoneFound;
    }
    if matched[0].id == None {
      return NoId;
    }
    forall n ensures HasId(matched[0], n) <==> ParseSigned(matched[0].id.value, MAX_INT32) == Some(n) && n > 0 {
      HasIdIsParsed(matched[0], n);
    }
    var id := ParseSigned(matched[0].id.value, MAX_INT32);
    if id == None || id.value <= 0 {
      return UnusableId;
    }
    return Found(id.value);
  }

  /** What is left decides: one row, by its size and its id; none, or more than one, by that alone. */
  ghost predicate OneRowDecides(matched: seq<NetworkRow>, p: Prefix, r: Resolution) {
    if |matched| == 1 then
      if SizeAllows(matched[0], p) then IdDecides(matched[0], r) else r == NoneFound
    else
      r == if matched == [] then NoneFound else Ambiguous
  }

  ghost predicate IdDecides(row: NetworkRow, r: Resolution) {
    match r
    case Found(id) => HasId(row, id)
    case NoId => row.id == None
    case UnusableId => row.id.Some? && forall id :: !HasId(row, id)
    case _ => false
  }

  /** The networks with these ids single out a subnet id, in the sense of `Resolves`. */
  ghost predicate ResolvesAmong(networks: Networks, all: set<nat>, p: Prefix, id: int) {
    exists m | m in all && m in networks ::
      && HasId(networks[m], id)
      && if |all| == 1 then SizeAllows(networks[m], p) else OnlyMatchAmong(networks, all, p, m)
  }

  ghost predicate OnlyMatchAmong(networks: Networks, all: set<nat>, p: Prefix, m: nat)
    requires m in networks
  {
    SizeMatches(networks[m], p) && forall n | n in all && n in networks && n != m :: !SizeMatches(networks[n], p)
  }

  /**
   The rows single out row i: the only row, whose size does not contradict the prefix; or, of
   several, the only one of the size the prefix asks for.
   */
  ghost predicate Singled(rows: seq<NetworkRow>, p: Prefix, i: nat) {
    i < |rows| && if |rows| == 1 then SizeAllows(rows[i], p) else OnlyMatch(rows, p, i)
  }

  ghost predicate OnlyMatch(rows: seq<NetworkRow>, p: Prefix, i: nat)
    requires i < |rows|
  {
    SizeMatches(rows[i], p) && forall j | 0 <= j < |rows| && j != i :: !SizeMatches(rows[j], p)
  }

  /** The rows single out a row with this id. */
  ghost predicate Resolves(rows: seq<NetworkRow>, p: Prefix, id: int) {
    exists i: nat :: Singled(rows, p, i) && HasId(rows[i], id)
  }

  /** A row that is singled out decides by its id; else several rows are ambiguous, and fewer are no match. */
  ghost predicate Decides(rows: seq<NetworkRow>, p: Prefix, r: Resolution) {
    if exists i: nat :: Singled(rows, p, i) then
      exists i: nat :: Singled(rows, p, i) && IdDecides(rows[i], r)
    else
      r == if |rows| > 1 then Ambiguous else NoneFound
  }

  lemma SingledIsOne(rows: seq<NetworkRow>, p: Prefix, i: nat, j: nat)
    requires Singled(rows, p, i) && Singled(rows, p, j)
    ensures i == j
  {
  }

  /** The rows decide one way only. */
  lemma OneDecision(rows: seq<NetworkRow>, p: Prefix, r: Resolution, other: Resolution)
    requires Decides(rows, p, r) && Decides(rows, p, other)
    ensures r == other
  {
    if k: nat :| Singled(rows, p, k) {
      var i: nat :| Singled(rows, p, i) && IdDecides(rows[i], r);
      var j: nat :| Singled(rows, p, j) && IdDecides(rows[j], other);
      SingledIsOne(rows, p, i, j);
      if r.Found? && other.Found? {
        HasIdIsParsed(rows[i], r.id);
        HasIdIsParsed(rows[i], other.id);
      }
    }
  }

  lemma FoundIffResolves(rows: seq<NetworkRow>, p: Prefix, r: Resolution)
    requires Decides(rows, p, r)
    ensures forall id :: r == Found(id) <==> Resolves(rows, p, id)
  {
    forall id | Resolves(rows, p, id) ensures r == Found(id) {
      var i: nat :| Singled(rows, p, i) && HasId(rows[i], id);
      assert IdDecides(rows[i], Found(id));
      OneDecision(rows, p, r, Found(id));
    }
  }

  /** Only the size that a prefix asks for matters. */
  lemma {:induction false} SameMatching(rows: seq<NetworkRow>, p: Prefix, o: Prefix)
    requires ExpectedNetworkSize(p) == ExpectedNetworkSize(o)
    ensures Matching(rows, p) == Matching(rows, o)
  {
    if rows != [] {
      SameMatching(rows[..|rows| - 1], p, o);
    }
  }

  lemma {:induction false} NoMatch(rows: seq<NetworkRow>, p: Prefix)
    ensures Matching(rows, p) == [] <==> forall j | 0 <= j < |rows| :: !SizeMatches(rows[j], p)
  {
    if rows != [] {
      NoMatch(rows[..|rows| - 1], p);
    }
  }

  /** Filtering leaves one row exactly when one row matches, and it is that one. */
  lemma {:induction false} SingleMatch(rows: seq<NetworkRow>, p: Prefix, i: nat)
    requires i < |rows| && OnlyMatch(rows, p, i)
    ensures Matching(rows, p) == [rows[i]]
  {
    var n := |rows| - 1;
    if i == n {
      NoMatch(rows[..n], p);
    } else {
      assert rows[..n][i] == rows[i];
      SingleMatch(rows[..n], p, i);
      assert !SizeMatches(rows[n], p);
    }
  }

  lemma {:induction false} OneLeft(rows: seq<NetworkRow>, p: Prefix) returns (i: nat)
    requires |Matching(rows, p)| == 1
    ensures i < |rows| && OnlyMatch(rows, p, i) && Matching(rows, p) == [rows[i]]
  {
    var n := |rows| - 1;
    if SizeMatches(rows[n], p) {
      assert Matching(rows[..n], p) == [];
      NoMatch(rows[..n], p);
      forall j | 0 <= j < n ensures !SizeMatches(rows[j], p) {
        assert rows[j] == rows[..n][j];
      }
      i := n;
    } else {
      i := OneLeft(rows[..n], p);
      forall j | 0 <= j < n && j != i ensures !SizeMatches(rows[j], p) {
        assert rows[j] == rows[..n][j];
      }
    }
  }

  /** What the filtered rows decide, the rows do. */
  lemma MatchedDecides(rows: seq<NetworkRow>, p: Prefix, r: Resolution)
    requires OneRowDecides(if |rows| <= 1 || Matching(rows, p) == [] then rows else Matching(rows, p), p, r)
    ensures Decides(rows, p, r)
  {
    if |rows| > 1 {
      NoMatch(rows, p);
      if |Matching(rows, p)| == 1 {
        var k := OneLeft(rows, p);
        assert Singled(rows, p, k) && IdDecides(rows[k], r);
      } else {
        forall i: nat | Singled(rows, p, i) ensures false {
          SingleMatch(rows, p, i);
        }
      }
    } else if |rows| == 1 {
      assert Singled(rows, p, 0) <==> SizeAllows(rows[0], p);
    }
  }

  /**
   One of these networks has the id, and the prefix's size whenever both are known; if there are
   several, the size is known and no other network has it.
   */
  ghost predicate SoundlyResolved(networks: Networks, all: set<nat>, p: Prefix, id: int) {
    exists m | m in all && m in networks ::
      && HasId(networks[m], id)
      && (networks[m].size.Some? && ExpectedNetworkSize(p).Some? ==> networks[m].size == ExpectedNetworkSize(p))
      && (|all| > 1 ==>
            && networks[m].size.Some?
            && forall n | n in all && n in networks && n != m :: networks[n].size != networks[m].size)
  }

  lemma ResolvedIsSound(networks: Networks, all: set<nat>, p: Prefix, id: int)
    requires ResolvesAmong(networks, all, p, id)
    ensures SoundlyResolved(networks, all, p, id)
  {
    var m :| m in all && m in networks && HasId(networks[m], id)
             && if |all| == 1 then SizeAllows(networks[m], p) else OnlyMatchAmong(networks, all, p, m);
  }

  /** Sizes tell prefix lengths apart: two blocks of one family with the same expected size have the same length. */
  lemma SizeTellsLength(p: Prefix, o: Prefix)
    requires p.addr.family == o.addr.family
    requires ExpectedNetworkSize(p).Some? && ExpectedNetworkSize(p) == ExpectedNetworkSize(o)
    ensures p.bits == o.bits
  {
    var j, k := Width(p.addr.family) - p.bits, Width(o.addr.family) - o.bits;
    DecimalInjective(Pow2(j), Pow2(k));
    if j < k {
      Pow2Mono(j, k);
    } else if k < j {
      Pow2Mono(k, j);
    }
  }

  // ---------- when a page decides for all candidates ----------

  lemma OnlyMatchOnPage(networks: Networks, all: set<nat>, ids: seq<nat>, p: Prefix, i: nat)
    requires all <= networks.Keys && Distinct(ids) && ToSet(ids) == all && i < |ids|
    requires forall k | 0 <= k < |ids| :: ids[k] in networks
    ensures OnlyMatch(RowsOf(networks, ids), p, i) <==> OnlyMatchAmong(networks, all, p, ids[i])
  {
    var rows := RowsOf(networks, ids);
    if OnlyMatch(rows, p, i) {
      forall n | n in all && n in networks && n != ids[i] ensures !SizeMatches(networks[n], p) {
        assert n in ToSet(ids);
        var k :| 0 <= k < |ids| && ids[k] == n;
        assert rows[k] == networks[n];
      }
    }
    if OnlyMatchAmong(networks, all, p, ids[i]) {
      forall j | 0 <= j < |rows| && j != i ensures !SizeMatches(rows[j], p) {
        assert ids[j] in ToSet(ids);
      }
    }
  }

  /** Candidates that fit the page resolve as the page does. */
  lemma PageDecides(networks: Networks, all: set<nat>, ids: seq<nat>, p: Prefix)
    requires all <= networks.Keys && IsPage(all, MAX_LIST_LIMIT, ids)
    requires forall k | 0 <= k < |ids| :: ids[k] in networks
    ensures |all| <= MAX_LIST_LIMIT ==>
      forall id :: Resolves(RowsOf(networks, ids), p, id) <==> ResolvesAmong(networks, all, p, id)
  {
    if |all| <= MAX_LIST_LIMIT {
      FittingPageIsComplete(all, MAX_LIST_LIMIT, ids);
      forall id ensures Resolves(RowsOf(networks, ids), p, id) <==> ResolvesAmong(networks, all, p, id) {
        FullPageDecides(networks, all, ids, p, id);
      }
    }
  }

  lemma FullPageDecides(networks: Networks, all: set<nat>, ids: seq<nat>, p: Prefix, id: int)
    requires all <= networks.Keys && Distinct(ids) && ToSet(ids) == all && |ids| == |all|
    requires forall k | 0 <= k < |ids| :: ids[k] in networks
    ensures Resolves(RowsOf(networks, ids), p, id) <==> ResolvesAmong(networks, all, p, id)
  {
    var rows := RowsOf(networks, ids);
    forall i: nat | i < |ids|
      ensures OnlyMatch(rows, p, i) <==> OnlyMatchAmong(networks, all, p, ids[i])
    {
      OnlyMatchOnPage(networks, all, ids, p, i);
    }
    if Resolves(rows, p, id) {
      var i: nat :| Singled(rows, p, i) && HasId(rows[i], id);
      assert ids[i] in ToSet(ids);
    }
    if ResolvesAmong(networks, all, p, id) {
      var m :| m in all && m in networks && HasId(networks[m], id)
               && if |all| == 1 then SizeAllows(networks[m], p) else OnlyMatchAmong(networks, all, p, m);
      assert m in ToSet(ids);
      var i :| 0 <= i < |ids| && ids[i] == m;
      assert Singled(rows, p, i) && HasId(rows[i], id);
    }
  }

  ghost predicate PageResolves(networks: Networks, ids: seq<nat>, p: Prefix, id: int) {
    (forall i | 0 <= i < |ids| :: ids[i] in networks) && Resolves(RowsOf(networks, ids), p, id)
  }

  /**
   Whatever networks give a CIDR's lookup n candidates, and whichever page of them comes back: what
   the page resolves to, the candidates do.
   */
  ghost predicate ResolutionSpeaksForAll(v6: Ipv6Text, p: Prefix, space: string, n: nat) {
    forall networks: Networks, ids: seq<nat>, id: int |
      && |Candidates(v6, networks, p, space)| == n
      && IsPage(Candidates(v6, networks, p, space), MAX_LIST_LIMIT, ids)
      && PageResolves(networks, ids, p, id) ::
      ResolvesAmong(networks, Candidates(v6, networks, p, space), p, id)
  }

  /**
   The lookup does not refuse a full page: a resolved id speaks for all candidates exactly when they
   fit one page, or the prefix is too short for a size, and then several candidates never resolve.
   */
  lemma ResolutionSpeaksIffItFits(v6: Ipv6Text, p: Prefix, space: string, n: nat)
    ensures ResolutionSpeaksForAll(v6, p, space, n) <==> n <= MAX_LIST_LIMIT || ExpectedNetworkSize(p) == None
  {
    if n <= MAX_LIST_LIMIT || ExpectedNetworkSize(p) == None {
      forall networks: Networks, ids: seq<nat>, id: int |
        && |Candidates(v6, networks, p, space)| == n
        && IsPage(Candidates(v6, networks, p, space), MAX_LIST_LIMIT, ids)
        && PageResolves(networks, ids, p, id)
        ensures ResolvesAmong(networks, Candidates(v6, networks, p, space), p, id)
      {
        PageDecides(networks, Candidates(v6, networks, p, space), ids, p);
        if n > MAX_LIST_LIMIT {
          assert false;
        }
      }
    } else {
      TwinsMislead(v6, p, space, n);
    }
  }

  /** A terminal network at the start of the block. */
  function CandidateRow(v6: Ipv6Text, p: Prefix, space: string, id: Option<string>, size: Option<string>): NetworkRow {
    NetworkRow(id, size, Some(ShowAddr(v6, First(p))), None, if space == "" then None else Some(space), Some("1"))
  }

  /** Networks 0 to n-1 at the start of the block, of which the first and the last have its size. */
  function Twins(v6: Ipv6Text, p: Prefix, space: string, n: nat): Networks {
    map m | m in FirstSet(n) ::
      if m == 0 || m == n - 1 then CandidateRow(v6, p, space, Some("1"), ExpectedNetworkSize(p))
      else CandidateRow(v6, p, space, None, None)
  }

  /** The first is on the page, the last is not: the page resolves an id that the candidates leave ambiguous. */
  lemma TwinsMislead(v6: Ipv6Text, p: Prefix, space: string, n: nat)
    requires ExpectedNetworkSize(p).Some? && n > MAX_LIST_LIMIT
    ensures !ResolutionSpeaksForAll(v6, p, space, n)
  {
    var networks, ids := Twins(v6, p, space, n), FirstIds(MAX_LIST_LIMIT);
    var all := Candidates(v6, networks, p, space);
    FirstIdsAre(n);
    assert all == FirstSet(n);
    FirstPage(n, MAX_LIST_LIMIT);
    FirstTwinResolves(v6, p, space, n);
    assert SizeMatches(networks[0], p) && SizeMatches(networks[n - 1], p);
    assert !ResolvesAmong(networks, all, p, 1);
  }

  lemma FirstTwinResolves(v6: Ipv6Text, p: Prefix, space: string, n: nat)
    requires ExpectedNetworkSize(p).Some? && n > MAX_LIST_LIMIT
    ensures PageResolves(Twins(v6, p, space, n), FirstIds(MAX_LIST_LIMIT), p, 1)
  {
    var networks, ids := Twins(v6, p, space, n), FirstIds(MAX_LIST_LIMIT);
    FirstIdsAre(n);
    var rows := RowsOf(networks, ids);
    assert FirstIds(MAX_LIST_LIMIT)[0] == 0 && rows[0] == networks[0];
    OneIsAnId(rows[0]);
    forall j | 0 < j < |rows| ensures !SizeMatches(rows[j], p) {
      assert FirstIds(MAX_LIST_LIMIT)[j] == j && rows[j] == networks[j];
    }
    assert Singled(rows, p, 0);
  }

  lemma OneIsAnId(row: NetworkRow)
    requires row.id == Some("1")
    ensures HasId(row, 1)
  {
    assert NumeralValue("1") == 1;
    assert Spells("1", "1", 1);
  }
}
