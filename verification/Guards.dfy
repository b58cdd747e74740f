/**
 `Guardrails`: which addresses, CIDRs and ranges the configured protected subnets forbid.
 The methods are the code's loops; `Clear` is what they decide, stated with the blocks alone.
 */
module Guards {
  import opened Wrappers
  import opened Text
  import opened Netip
  import opened NetipText
  import opened Validation

  /** The block a configured entry denotes; entries that are not prefixes denote none. */
  function EntryBlock(v6: Ipv6Text, entry: string): Option<Prefix> {
    ParsePrefix(v6, TrimSpace(entry))
  }

  function Lower(a: Addr, b: Addr): Addr {
    if Less(b, a) then b else a
  }

  function Upper(a: Addr, b: Addr): Addr {
    if Less(b, a) then a else b
  }

  /** The entry's block shares an address with the closed interval between two addresses, in either order. */
  ghost predicate EntryMeets(v6: Ipv6Text, entry: string, a: Addr, b: Addr) {
    EntryBlock(v6, entry).Some? && Meets(EntryBlock(v6, entry).value, Lower(a, b), Upper(a, b))
  }

  /** No address between a and b, ends included, is in a protected subnet. */
  ghost predicate Clear(v6: Ipv6Text, entries: seq<string>, a: Addr, b: Addr) {
    forall k | 0 <= k < |entries| :: !EntryMeets(v6, entries[k], a, b)
  }

  ghost predicate ClearBlock(v6: Ipv6Text, entries: seq<string>, p: Prefix) {
    Clear(v6, entries, First(p), Last(p))
  }

  /** The interval guard reports an entry for these texts. */
  ghost predicate ReportsOverlap(v6: Ipv6Text, entries: seq<string>, start: string, end: string) {
    match (ParseAddr(v6, TrimSpace(start)), ParseAddr(v6, TrimSpace(end)))
    case (Some(a), Some(b)) => !Clear(v6, entries, a, b)
    case _ => false
  }

  /** What one entry forbids to a trimmed target text: itself, addresses inside it, CIDRs overlapping it. */
  predicate EntryForbids(v6: Ipv6Text, entry: string, target: string) {
    || EqualFold(TrimSpace(entry), target)
    || match EntryBlock(v6, entry)
       case None => false
       case Some(p) =>
         || (ParseAddr(v6, target).Some? && Contains(p, ParseAddr(v6, target).value))
         || (ParsePrefix(v6, target).Some? && Overlaps(p, ParsePrefix(v6, target).value))
  }

  /** `CheckProtectedSubnet` refuses this text. */
  predicate Forbids(v6: Ipv6Text, entries: seq<string>, subnet: string) {
    subnet != "" && exists k | 0 <= k < |entries| :: EntryForbids(v6, entries[k], TrimSpace(subnet))
  }

  /** `CheckProtectedSubnet` refuses the canonical text of this pair, or the address when there is none. */
  predicate ForbidsCIDR(v6: Ipv6Text, entries: seq<string>, address: string, prefix: string) {
    match CanonicalCIDR(v6, address, prefix)
    case Some(cidr) => Forbids(v6, entries, cidr)
    case None => Forbids(v6, entries, address)
  }

  /** An entry spelled like an address forbids that very text, though it denotes no block. */
  predicate NamedByEntry(entries: seq<string>, target: string) {
    exists k | 0 <= k < |entries| :: EqualFold(TrimSpace(entries[k]), TrimSpace(target))
  }

  /** Entries name a target exactly when some entry is the target up to outer spaces and the case of its letters. */
  lemma NamedUpToCase(entries: seq<string>, target: string)
    ensures
      NamedByEntry(entries, target) <==>
      exists k | 0 <= k < |entries| ::
        var (e, t) := (TrimSpace(entries[k]), TrimSpace(target));
        |e| == |t| && forall i | 0 <= i < |e| :: SameLetter(e[i], t[i])
  {
    forall k | 0 <= k < |entries|
      ensures
        var (e, t) := (TrimSpace(entries[k]), TrimSpace(target));
        EqualFold(e, t) <==> |e| == |t| && forall i | 0 <= i < |e| :: SameLetter(e[i], t[i])
    {
      FoldIsCase(TrimSpace(entries[k]), TrimSpace(target));
    }
  }

  /** A space "Prod" is refused where "prod" is protected. */
  lemma ProdIsProd()
    ensures NamedByEntry(["prod"], "Prod")
  {
    TrimKeepsTight("prod");
    TrimKeepsTight("Prod");
    assert TrimSpace(["prod"][0]) == "prod" && TrimSpace("Prod") == "Prod";
  }

  /** The text is an address in a protected block, or a block that meets one, or an entry spells it. */
  ghost predicate Offends(v6: Ipv6Text, entries: seq<string>, text: string) {
    match (ParseAddr(v6, TrimSpace(text)), ParsePrefix(v6, TrimSpace(text)))
    case (Some(a), _) => !Clear(v6, entries, a, a) || NamedByEntry(entries, text)
    case (None, Some(p)) => !ClearBlock(v6, entries, p)
    case (None, None) => text != "" && NamedByEntry(entries, text)
  }

  /** The block of the pair, however spelled, holds protected addresses; without a block, the address text offends. */
  ghost predicate PairOffends(v6: Ipv6Text, entries: seq<string>, address: string, prefix: string) {
    match CanonicalBlock(v6, address, prefix)
    case Some(block) => !ClearBlock(v6, entries, block)
    case None => Offends(v6, entries, address)
  }

  /** `addrExtent`: the texts of an object's first and last address; empty when the appliance gave none. */
  datatype AddrExtent = AddrExtent(start: string, end: string)

  datatype Guardrails = Guardrails(readOnly: bool, protectedSpaces: seq<string>, protectedSubnets: seq<string>)
  {
    /** Refuses a space that some entry spells, up to letter case and outer spaces. */
    method CheckProtectedSpace(space: string) returns (refused: bool)
      ensures refused <==> space != "" && NamedByEntry(protectedSpaces, space)
    {
      if space == "" || |protectedSpaces| == 0 {
        return false;
      }
      for i := 0 to |protectedSpaces|
        invariant forall j | 0 <= j < i :: !EqualFold(TrimSpace(protectedSpaces[j]), TrimSpace(space))
      {
        if EqualFold(TrimSpace(protectedSpaces[i]), TrimSpace(space)) {
          return true;
        }
      }
      return false;
    }

    /** Reports the first entry whose block meets the interval between the two addresses. */
    method OverlappingProtectedSubnet(v6: Ipv6Text, start: string, end: string) returns (r: Option<string>)
      ensures r.Some? <==> ReportsOverlap(v6, protectedSubnets, start, end)
      ensures r.Some? ==>
        var a, b := ParseAddr(v6, TrimSpace(start)).value, ParseAddr(v6, TrimSpace(end)).value;
        exists k | 0 <= k < |protectedSubnets| ::
          && protectedSubnets[k] == r.value && EntryMeets(v6, protectedSubnets[k], a, b)
          && forall j | 0 <= j < k :: !EntryMeets(v6, protectedSubnets[j], a, b)
    {
      if |protectedSubnets| == 0 {
        return None;
      }
      var lo, hi := ParseAddr(v6, TrimSpace(start)), ParseAddr(v6, TrimSpace(end));
      if lo == None || hi == None {
        return None;
      }
      ghost var a, b := lo.value, hi.value;
      if Less(hi.value, lo.value) {
        lo, hi := hi, lo;
      }
      LowerUpper(a, b);
      for i := 0 to |protectedSubnets|
        invariant forall j | 0 <= j < i :: !EntryMeets(v6, protectedSubnets[j], a, b)
      {
        var prot := ParsePrefix(v6, TrimSpace(protectedSubnets[i]));
        var hit := false;
        if prot.Some? {
          var first := Masked(prot.value).addr;
          hit := Contains(prot.value, lo.value) || Contains(prot.value, hi.value)
                 || (AtMost(lo.value, first) && AtMost(first, hi.value));
          ThreeWayIsExact(prot.value, lo.value, hi.value);
        }
        assert hit <==> EntryMeets(v6, protectedSubnets[i], a, b);
        if hit {
          return Some(protectedSubnets[i]);
        }
        HoldsSoFar((e: string) => !EntryMeets(v6, e, a, b), protectedSubnets, i);
      }
      return None;
    }

    method CheckProtectedRange(v6: Ipv6Text, start: string, end: string) returns (refused: bool)
      ensures refused <==> ReportsOverlap(v6, protectedSubnets, start, end)
    {
      var p := OverlappingProtectedSubnet(v6, start, end);
      return p.Some?;
    }

    method CheckProtectedSubnet(v6: Ipv6Text, subnet: string) returns (refused: bool)
      ensures refused <==> Forbids(v6, protectedSubnets, subnet)
    {
      if subnet == "" || |protectedSubnets| == 0 {
        return false;
      }
      var target := TrimSpace(subnet);
      var addr, prefix := ParseAddr(v6, target), ParsePrefix(v6, target);
      for i := 0 to |protectedSubnets|
        invariant forall j | 0 <= j < i :: !EntryForbids(v6, protectedSubnets[j], target)
      {
        var entry := TrimSpace(protectedSubnets[i]);
        if EqualFold(entry, target) {
          return true;
        }
        var prot := ParsePrefix(v6, entry);
        assert prot == EntryBlock(v6, protectedSubnets[i]);
        if prot.Some? {
          if addr.Some? && Contains(prot.value, addr.value) {
            assert EntryForbids(v6, protectedSubnets[i], target);
            return true;
          }
          if prefix.Some? && Overlaps(prot.value, prefix.value) {
            assert EntryForbids(v6, protectedSubnets[i], target);
            return true;
          }
        }
        assert !EntryForbids(v6, protectedSubnets[i], target);
        HoldsSoFar((e: string) => !EntryForbids(v6, e, target), protectedSubnets, i);
      }
      return false;
    }

    method CheckProtectedSubnetCIDR(v6: Ipv6Text, address: string, prefix: string) returns (refused: bool)
      requires Lawful(v6)
      ensures refused <==> PairOffends(v6, protectedSubnets, address, prefix)
    {
      PairCheckIsExact(v6, protectedSubnets, address, prefix);
      var cidr := CanonicalCIDR(v6, address, prefix);
      if cidr.Some? {
        refused := CheckProtectedSubnet(v6, cidr.value);
      } else {
        refused := CheckProtectedSubnet(v6, address);
      }
    }
  }

  // ---------- spelling does not matter to the reader ----------

  lemma FoldFixesNonLetters(c: char, d: char)
    requires FoldChar(c) == FoldChar(d)
    requires IsDigit(c) || c == '.' || c == '/' || c == ':' || c == '%'
    ensures c == d
  {
  }

  lemma {:induction false} FoldKeepsMark(s: string, t: string)
    requires EqualFold(s, t)
    ensures Mark(s) == Mark(t)
  {
    if s != "" {
      assert FoldChar(s[0]) == FoldChar(t[0]);
      forall i | 0 <= i < |s[1..]| ensures FoldChar(s[1..][i]) == FoldChar(t[1..][i]) {
        assert FoldChar(s[i + 1]) == FoldChar(t[i + 1]);
      }
      FoldKeepsMark(s[1..], t[1..]);
    }
  }

  lemma {:induction false} FoldKeepsCut(s: string, t: string)
    requires EqualFold(s, t)
    ensures CutLast(s, '/').Some? <==> CutLast(t, '/').Some?
    ensures CutLast(s, '/').Some? ==>
      var (a, b), (c, d) := CutLast(s, '/').value, CutLast(t, '/').value;
      EqualFold(a, c) && EqualFold(b, d)
  {
    if s != "" {
      var n := |s| - 1;
      assert FoldChar(s[n]) == FoldChar(t[n]);
      FoldKeepsCut(s[..n], t[..n]);
    }
  }

  lemma NumeralSpelling(s: string, t: string)
    requires EqualFold(s, t) && forall i | 0 <= i < |s| :: IsDigit(s[i]) || s[i] == '.'
    ensures s == t
  {
    forall i | 0 <= i < |s| ensures s[i] == t[i] {
      FoldFixesNonLetters(s[i], t[i]);
    }
  }

  lemma {:induction false} FieldsCover(s: string, sep: char)
    requires forall i | 0 <= i < |Split(s, sep)| ::
      forall j | 0 <= j < |Split(s, sep)[i]| :: IsDigit(Split(s, sep)[i][j])
    ensures forall i | 0 <= i < |s| :: IsDigit(s[i]) || s[i] == sep
  {
    forall i | 0 <= i < |s| ensures IsDigit(s[i]) || s[i] == sep {
      if s[i] != sep {
        SplitKeeps(s, sep, s[i]);
      }
    }
  }

  lemma Ipv4Chars(s: string)
    requires ParseIPv4(s).Some?
    ensures forall i | 0 <= i < |s| :: IsDigit(s[i]) || s[i] == '.'
  {
    var f := Split(s, '.');
    assert Octet(f[0]).Some? && Octet(f[1]).Some? && Octet(f[2]).Some? && Octet(f[3]).Some?;
    FieldsCover(s, '.');
  }

  lemma FoldSymmetric(s: string, t: string)
    requires EqualFold(s, t)
    ensures EqualFold(t, s)
  {
  }

  lemma FoldKeepsAddr(v6: Ipv6Text, s: string, t: string)
    requires Lawful(v6) && EqualFold(s, t)
    ensures ParseAddr(v6, s) == ParseAddr(v6, t)
  {
    FoldKeepsMark(s, t);
    FoldSymmetric(s, t);
    if ParseIPv4(s).Some? {
      Ipv4Chars(s);
      NumeralSpelling(s, t);
    } else if ParseIPv4(t).Some? {
      Ipv4Chars(t);
      NumeralSpelling(t, s);
    }
  }

  lemma FoldKeepsBits(s: string, t: string)
    requires EqualFold(s, t)
    requires ParseBits(s).Some? && ParseBits(s).value >= 0
    ensures ParseBits(s) == ParseBits(t)
  {
    if s[0] != '+' && s[0] != '-' {
      NumeralSpelling(s, t);
    }
  }

  /** Two texts that differ in letter case only denote the same block. */
  lemma FoldKeepsPrefix(v6: Ipv6Text, s: string, t: string)
    requires Lawful(v6) && EqualFold(s, t)
    requires ParsePrefix(v6, s).Some?
    ensures ParsePrefix(v6, s) == ParsePrefix(v6, t)
  {
    FoldKeepsCut(s, t);
    var (a, b) := CutLast(s, '/').value;
    var (c, d) := CutLast(t, '/').value;
    FoldKeepsAddr(v6, a, c);
    FoldKeepsBits(b, d);
  }

  function ReadColons(s: string): Option<nat> {
    if InColons(s) then Some(NumeralValue(s[1..|s| - 1])) else None
  }

  function ShowColons(n: nat): string {
    ":" + Decimal(n) + ":"
  }

  predicate InColons(s: string) {
    |s| > 2 && s[0] == ':' && s[|s| - 1] == ':' && IsNumeral(s[1..|s| - 1])
  }

  /** What is assumed of IPv6 text is consistent: a reader and printer of numbers between colons satisfy it. */
  lemma LawfulTextExists()
    ensures Lawful(Ipv6Text(ReadColons, ShowColons))
  {
    forall n: nat
      ensures ReadColons(ShowColons(n)) == Some(n) && Mark(ShowColons(n)) == Some(':')
      ensures '/' !in ShowColons(n) && Tight(ShowColons(n))
    {
      ColonsReadBack(n);
    }
    forall s, t | EqualFold(s, t) ensures ReadColons(s) == ReadColons(t) {
      ColonsIgnoreCase(s, t);
    }
    forall s | ReadColons(s).Some? ensures '/' !in s {
      assert forall i | 0 < i < |s| - 1 :: s[i] == s[1..|s| - 1][i - 1];
    }
  }

  lemma ColonsReadBack(n: nat)
    ensures ReadColons(ShowColons(n)) == Some(n) && Mark(ShowColons(n)) == Some(':')
    ensures '/' !in ShowColons(n) && Tight(ShowColons(n))
  {
    DecimalReadsBack(n);
    var s := ShowColons(n);
    assert s[1..|s| - 1] == Decimal(n);
  }

  lemma ColonsIgnoreCase(s: string, t: string)
    requires EqualFold(s, t)
    ensures ReadColons(s) == ReadColons(t)
  {
    FoldSymmetric(s, t);
    if InColons(s) {
      ColonSpelling(s, t);
    } else if InColons(t) {
      ColonSpelling(t, s);
    }
  }

  lemma ColonSpelling(s: string, t: string)
    requires EqualFold(s, t) && InColons(s)
    ensures s == t
  {
    forall i | 0 <= i < |s| ensures s[i] == t[i] {
      assert 0 < i < |s| - 1 ==> s[i] == s[1..|s| - 1][i - 1];
      FoldFixesNonLetters(s[i], t[i]);
    }
  }

  // ---------- what the guards decide ----------

  lemma LowerUpper(a: Addr, b: Addr)
    ensures AtMost(Lower(a, b), Upper(a, b))
    ensures AtMost(a, b) ==> Lower(a, b) == a && Upper(a, b) == b
  {
  }

  /** An address passes `CheckProtectedSubnet` iff it is in no protected block and no entry spells it. */
  lemma AddressCheckIsExact(v6: Ipv6Text, entries: seq<string>, text: string)
    requires Lawful(v6)
    requires ParseAddr(v6, TrimSpace(text)).Some?
    ensures
      var a := ParseAddr(v6, TrimSpace(text)).value;
      Forbids(v6, entries, text) <==> !Clear(v6, entries, a, a) || NamedByEntry(entries, text)
  {
    var t := TrimSpace(text);
    var a := ParseAddr(v6, t).value;
    assert text != "";
    if ParsePrefix(v6, t).Some? {
      CutLastHasSep(t, '/');
      SlashIsNotAddr(v6, t);
      assert false;
    }
    forall k | 0 <= k < |entries|
      ensures EntryForbids(v6, entries[k], t) <==>
        EntryMeets(v6, entries[k], a, a) || EqualFold(TrimSpace(entries[k]), t)
    {
      if EntryBlock(v6, entries[k]).Some? {
        MeetsPointIsContains(EntryBlock(v6, entries[k]).value, a);
      }
    }
  }

  lemma {:induction false} CutLastHasSep(s: string, sep: char)
    requires CutLast(s, sep).Some?
    ensures sep in s
  {
    if s[|s| - 1] != sep {
      CutLastHasSep(s[..|s| - 1], sep);
    }
  }

  /** A CIDR text passes `CheckProtectedSubnet` iff its block is disjoint from every protected block. */
  lemma CidrCheckIsExact(v6: Ipv6Text, entries: seq<string>, text: string)
    requires Lawful(v6)
    requires ParsePrefix(v6, TrimSpace(text)).Some?
    ensures Forbids(v6, entries, text) <==> !ClearBlock(v6, entries, ParsePrefix(v6, TrimSpace(text)).value)
  {
    var t := TrimSpace(text);
    var q := ParsePrefix(v6, t).value;
    assert text != "";
    CutLastHasSep(t, '/');
    SlashIsNotAddr(v6, t);
    BlockHoldsEnds(q);
    LowerUpper(First(q), Last(q));
    forall k | 0 <= k < |entries|
      ensures EntryForbids(v6, entries[k], t) <==> EntryMeets(v6, entries[k], First(q), Last(q))
    {
      var e := EntryBlock(v6, entries[k]);
      if EqualFold(TrimSpace(entries[k]), t) {
        FoldSymmetric(TrimSpace(entries[k]), t);
        FoldKeepsPrefix(v6, t, TrimSpace(entries[k]));
        assert e == Some(q) && Overlaps(q, q);
      }
      if e.Some? {
        MeetsBlockIsOverlap(e.value, q);
      }
    }
  }

  /** The two overlap algorithms agree on every CIDR: leading bits, and the interval of its first and last address. */
  lemma TwoAlgorithmsAgree(v6: Ipv6Text, entries: seq<string>, text: string)
    requires Lawful(v6)
    requires ParsePrefix(v6, TrimSpace(text)).Some?
    ensures
      var q := ParsePrefix(v6, TrimSpace(text)).value;
      Forbids(v6, entries, text) <==> ReportsOverlap(v6, entries, ShowAddr(v6, First(q)), ShowAddr(v6, Last(q)))
  {
    var q := ParsePrefix(v6, TrimSpace(text)).value;
    CidrCheckIsExact(v6, entries, text);
    AddrReadsBack(v6, First(q));
    AddrReadsBack(v6, Last(q));
  }

  /**
   The guard alone lets malformed input through; guard and validation together do not. If both
   accept, a canonical CIDR exists, reads back to the masked block, and that block is clear.
   */
  lemma GuardThenValidationIsClosed(v6: Ipv6Text, entries: seq<string>, address: string, prefix: string)
    requires Lawful(v6)
    requires ValidSubnetPrefix(v6, address, prefix)
    ensures CanonicalCIDR(v6, address, prefix).Some?
    ensures
      var block := CanonicalBlock(v6, address, prefix).value;
      && ParsePrefix(v6, CanonicalCIDR(v6, address, prefix).value) == Some(block)
      && (ForbidsCIDR(v6, entries, address, prefix) <==> !ClearBlock(v6, entries, block))
  {
    ValidIffCanonical(v6, address, prefix);
    CanonicalReadsBack(v6, address, prefix);
    PrefixReadsBack(v6, CanonicalBlock(v6, address, prefix).value);
    CidrCheckIsExact(v6, entries, CanonicalCIDR(v6, address, prefix).value);
  }

  /** The text check refuses exactly the texts that denote, or are spelled like, something protected. */
  lemma TextCheckIsExact(v6: Ipv6Text, entries: seq<string>, text: string)
    requires Lawful(v6)
    ensures Forbids(v6, entries, text) <==> Offends(v6, entries, text)
  {
    var t := TrimSpace(text);
    if ParseAddr(v6, t).Some? {
      AddressCheckIsExact(v6, entries, text);
    } else if ParsePrefix(v6, t).Some? {
      CidrCheckIsExact(v6, entries, text);
    }
  }

  /** However a pair is spelled, the pair check is about its block; only a pair without one is checked as an address. */
  lemma PairCheckIsExact(v6: Ipv6Text, entries: seq<string>, address: string, prefix: string)
    requires Lawful(v6)
    ensures ForbidsCIDR(v6, entries, address, prefix) <==> PairOffends(v6, entries, address, prefix)
  {
    ValidIffCanonical(v6, address, prefix);
    if ValidSubnetPrefix(v6, address, prefix) {
      GuardThenValidationIsClosed(v6, entries, address, prefix);
    } else {
      TextCheckIsExact(v6, entries, address);
    }
  }

  /** What is clear stays clear when the interval shrinks. */
  lemma ClearMono(v6: Ipv6Text, entries: seq<string>, a: Addr, b: Addr, c: Addr, d: Addr)
    requires Clear(v6, entries, a, b) && AtMost(a, b)
    requires Between(a, c, b) && Between(a, d, b)
    ensures Clear(v6, entries, c, d)
  {
    forall k | 0 <= k < |entries| && EntryBlock(v6, entries[k]).Some?
      ensures !EntryMeets(v6, entries[k], c, d)
    {
      assert !EntryMeets(v6, entries[k], a, b);
      MeetsMono(EntryBlock(v6, entries[k]).value, Lower(c, d), Upper(c, d), a, b);
    }
  }
}
