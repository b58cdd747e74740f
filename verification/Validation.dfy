/** The input validators that follow the guards, and the canonical CIDR text the guards are given. */
module Validation {
  import opened Wrappers
  import opened Text
  import opened Netip
  import opened NetipText

  const NUL: char := '\0'

  /** Some character of the text is not a space, and none is NUL. */
  predicate Visible(s: string) {
    (exists i | 0 <= i < |s| :: !IsSpace(s[i])) && '\0' !in s
  }

  predicate ValidRequiredString(s: string): (valid: bool)
    ensures valid <==> Visible(s)
  {
    BlankIffSpaces(s);
    TrimSpace(s) != "" && NUL !in s
  }

  predicate ValidOptionalString(s: string): (valid: bool)
    ensures valid <==> forall i | 0 <= i < |s| :: s[i] != '\0'
  {
    s == "" || NUL !in s
  }

  /** An address has a character that is no space, so the text need not be checked for one. */
  predicate ValidIP(v6: Ipv6Text, s: string): (valid: bool)
    ensures valid <==> '\0' !in s && ParseAddr(v6, TrimSpace(s)).Some?
  {
    TrimSpace(s) != "" && NUL !in s && ParseAddr(v6, TrimSpace(s)).Some?
  }

  predicate ValidIPv4(v6: Ipv6Text, s: string) {
    ValidIP(v6, s) && ParseAddr(v6, TrimSpace(s)).value.family.V4?
  }

  predicate IsHex(s: string) {
    forall i | 0 <= i < |s| :: IsDigit(s[i]) || 'a' <= s[i] <= 'f' || 'A' <= s[i] <= 'F'
  }

  /** Groups of hexadecimal digits of one width, as many as one of these counts. */
  predicate HexGroups(s: string, sep: char, width: nat, counts: set<nat>) {
    var groups := Split(s, sep);
    |groups| in counts && forall i | 0 <= i < |groups| :: |groups[i]| == width && IsHex(groups[i])
  }

  /** `net.ParseMAC`: 6, 8 or 20 octets in colons, hyphens or dotted pairs. */
  predicate ParsesAsMAC(s: string) {
    HexGroups(s, ':', 2, {6, 8, 20}) || HexGroups(s, '-', 2, {6, 8, 20}) || HexGroups(s, '.', 4, {3, 4, 10})
  }

  /** `ValidateDHCPMAC`: the appliance's seven octets, six octets, or anything else that parses. */
  predicate ValidDHCPMAC(s: string) {
    && TrimSpace(s) != "" && NUL !in s
    && var t := TrimSpace(s);
       HexGroups(t, ':', 2, {7}) || HexGroups(t, ':', 2, {6}) || ParsesAsMAC(t)
  }

  /** The text is so many groups of hexadecimal digits, each of this width, with the separator between them. */
  ghost predicate IsGrouped(s: string, sep: char, width: nat, count: nat) {
    exists groups: seq<string> |
      && |groups| == count && count > 0
      && forall i | 0 <= i < |groups| :: |groups[i]| == width && IsHex(groups[i]) ::
      s == Join(groups, sep)
  }

  lemma HexGroupsAreGrouped(s: string, sep: char, width: nat, counts: set<nat>)
    requires sep == ':' || sep == '-' || sep == '.'
    ensures HexGroups(s, sep, width, counts) <==> exists count | count in counts :: IsGrouped(s, sep, width, count)
  {
    SplitJoins(s, sep);
    if HexGroups(s, sep, width, counts) {
      assert IsGrouped(s, sep, width, |Split(s, sep)|);
    }
    if count :| count in counts && IsGrouped(s, sep, width, count) {
      var groups: seq<string> :|
        && |groups| == count && count > 0
        && (forall i | 0 <= i < |groups| :: |groups[i]| == width && IsHex(groups[i]))
        && s == Join(groups, sep);
      JoinSplits(groups, sep);
    }
  }

  /**
   Up to outer spaces, a valid MAC is 6, 7, 8 or 20 octets in colons, 6, 8 or 20 in hyphens, or 3, 4
   or 10 dotted pairs.
   */
  lemma MACsAreGroups(s: string)
    ensures
      var t := TrimSpace(s);
      ValidDHCPMAC(s) <==>
      '\0' !in s
      && ((exists n | n in {6, 7, 8, 20} :: IsGrouped(t, ':', 2, n))
          || (exists n | n in {6, 8, 20} :: IsGrouped(t, '-', 2, n))
          || (exists n | n in {3, 4, 10} :: IsGrouped(t, '.', 4, n)))
  {
    var t := TrimSpace(s);
    HexGroupsAreGrouped(t, ':', 2, {7});
    HexGroupsAreGrouped(t, ':', 2, {6});
    HexGroupsAreGrouped(t, ':', 2, {6, 8, 20});
    HexGroupsAreGrouped(t, '-', 2, {6, 8, 20});
    HexGroupsAreGrouped(t, '.', 4, {3, 4, 10});
    assert Split("", ':') == [""] && Split("", '-') == [""] && Split("", '.') == [""];
  }

  /** `ValidateSubnetPrefix`. */
  predicate ValidSubnetPrefix(v6: Ipv6Text, address: string, prefix: string) {
    if TrimSpace(address) == "" || TrimSpace(prefix) == "" then false
    else
      match (ParseAddr(v6, TrimSpace(address)), Atoi(TrimSpace(prefix)))
      case (Some(a), Some(n)) => if a.family.V4? then 0 <= n <= 32 else 0 <= n <= 128
      case _ => false
  }

  /** The block an address text and a length text denote, masked; none when they do not form one. */
  function CanonicalBlock(v6: Ipv6Text, address: string, prefix: string): Option<Prefix> {
    match (ParseAddr(v6, TrimSpace(address)), Atoi(TrimSpace(prefix)))
    case (Some(a), Some(n)) => if 0 <= n <= Width(a.family) then Some(Mask(a, n)) else None
    case _ => None
  }

  /** `canonicalCIDR`. */
  function CanonicalCIDR(v6: Ipv6Text, address: string, prefix: string): Option<string> {
    match CanonicalBlock(v6, address, prefix)
    case Some(p) => Some(ShowPrefix(v6, p))
    case None => None
  }

  /**
   The canonical text re-reads to the block it was printed from: the aligned block of the length
   given that the address given lies in.
   */
  lemma CanonicalReadsBack(v6: Ipv6Text, address: string, prefix: string)
    requires Lawful(v6)
    requires CanonicalCIDR(v6, address, prefix).Some?
    ensures
      var cidr := CanonicalCIDR(v6, address, prefix).value;
      && ParsePrefix(v6, TrimSpace(cidr)) == CanonicalBlock(v6, address, prefix)
      && ParseAddr(v6, TrimSpace(cidr)) == None
      && cidr != ""
    ensures
      var (a, block) := (ParseAddr(v6, TrimSpace(address)).value, CanonicalBlock(v6, address, prefix).value);
      IsAligned(block) && Contains(block, a) && Atoi(TrimSpace(prefix)) == Some(block.bits)
  {
    var p := CanonicalBlock(v6, address, prefix).value;
    PrefixReadsBack(v6, p);
    var a := ParseAddr(v6, TrimSpace(address)).value;
    MaskedIsAligned(a, p.bits);
    assert Contains(RawPrefix.Prefix(a, p.bits), a);
  }

  /** Validation accepts exactly the pairs for which a canonical CIDR exists. */
  lemma ValidIffCanonical(v6: Ipv6Text, address: string, prefix: string)
    ensures ValidSubnetPrefix(v6, address, prefix) <==> CanonicalCIDR(v6, address, prefix).Some?
  {
  }

  /** Why the guards go through canonical text: "08" passes for a length, but no prefix text may end in it. */
  lemma PaddedLengthIsNoPrefix(v6: Ipv6Text, address: string)
    ensures Atoi(TrimSpace("08")) == Some(8)
    ensures ParsePrefix(v6, address + "/08") == None
  {
    TrimKeepsTight("08");
    assert "08"[..1] == "0" && NumeralValue("0") == 0 && NumeralValue("08") == 8;
    CutLastAt(address, '/', "08");
    assert address + "/08" == address + "/" + "08";
  }
}
