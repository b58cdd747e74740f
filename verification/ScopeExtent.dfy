/**
 The extent of a DHCP scope: from its row's dotted network address and its size or mask, in
 the code's 64-bit unsigned arithmetic, to the first and last address.
 */
module ScopeExtent {
  import opened Wrappers
  import opened Text
  import opened Arithmetic
  import opened Netip
  import opened NetipText
  import opened Masks
  import opened Guards

  const MAX_UINT32 := 0xffff_ffff

  /** The fields of a scope row that the tools read or write. */
  datatype ScopeRow = ScopeRow(
    server: string,
    netAddr: Option<string>,
    size: Option<string>,
    mask: Option<string>,
    name: Option<string>,
    sharedNetwork: string)

  const NO_EXTENT := AddrExtent("", "")

  // ---------- extents ----------

  /** `scopeAddressCount`. */
  function ScopeAddressCount(v6: Ipv6Text, row: ScopeRow): (count: Option<nat>)
    ensures count.Some? ==> 0 < count.value <= MAX_UINT64
  {
    var size := if row.size.Some? then ParseUint64(TrimSpace(row.size.value)) else None;
    if size.Some? && size.value > 0 then size
    else if row.mask.Some? then MaskCount(v6, TrimSpace(row.mask.value))
    else None
  }

  /** How many addresses a dotted mask leaves. */
  function MaskCount(v6: Ipv6Text, mask: string): (count: Option<nat>)
    ensures count.Some? ==> 0 < count.value <= MAX_UINT64
  {
    match DottedMaskPrefixLen(v6, mask)
    case None => None
    case Some(ones) =>
      MaskLengthBound(v6, mask);
      HostCountBound(ones);
      Some(Pow2(32 - ones))
  }

  lemma HostCountBound(ones: nat)
    requires ones <= 32
    ensures 0 < Pow2(32 - ones) <= Pow2(32) <= MAX_UINT64
  {
    Pow2Values();
    if ones > 0 {
      Pow2Mono(32 - ones, 32);
    }
  }

  /** The row's own address count, when it has a positive one. */
  predicate HasSize(row: ScopeRow, n: nat) {
    row.size.Some? && ParseUint64(TrimSpace(row.size.value)) == Some(n) && n > 0
  }

  /** The mask reads as that of a prefix length which leaves n addresses. */
  ghost predicate HasMask(v6: Ipv6Text, row: ScopeRow, n: nat) {
    && row.mask.Some?
    && exists k: nat | k <= IPV4_MASK_BITS ::
         IsMaskText(v6, TrimSpace(row.mask.value), k) && n == Pow2(IPV4_MASK_BITS - k)
  }

  lemma MaskCountIsExact(v6: Ipv6Text, row: ScopeRow, n: nat)
    requires row.mask.Some?
    ensures MaskCount(v6, TrimSpace(row.mask.value)) == Some(n) <==> HasMask(v6, row, n)
  {
    var mask := TrimSpace(row.mask.value);
    match DottedMaskPrefixLen(v6, mask) {
      case Some(ones) =>
        MaskLengthBound(v6, mask);
        MaskCountFrom(v6, mask, ones);
        DottedMaskIsCanonical(v6, mask, ones);
      case None =>
    }
    forall k: nat | k <= IPV4_MASK_BITS && IsMaskText(v6, mask, k) ensures DottedMaskPrefixLen(v6, mask) == Some(k) {
      DottedMaskIsCanonical(v6, mask, k);
    }
  }

  /** A scope's count is its positive size; only without one, the 2^(32-k) addresses that its canonical mask leaves. */
  lemma ScopeCountIsExact(v6: Ipv6Text, row: ScopeRow, n: nat)
    ensures
      ScopeAddressCount(v6, row) == Some(n) <==>
      HasSize(row, n) || ((forall m: nat :: !HasSize(row, m)) && HasMask(v6, row, n))
  {
    if row.mask.Some? {
      MaskCountIsExact(v6, row, n);
    }
    var size := if row.size.Some? then ParseUint64(TrimSpace(row.size.value)) else None;
    if size.Some? && size.value > 0 {
      assert HasSize(row, size.value);
    }
  }

  lemma MaskCountFrom(v6: Ipv6Text, mask: string, ones: nat)
    requires ones <= 32 && DottedMaskPrefixLen(v6, mask) == Some(ones)
    ensures MaskCount(v6, mask) == Some(Pow2(32 - ones))
  {
  }

  lemma MaskLengthBound(v6: Ipv6Text, mask: string)
    requires DottedMaskPrefixLen(v6, mask).Some?
    ensures DottedMaskPrefixLen(v6, mask).value <= IPV4_MASK_BITS
  {
    var a := ParseAddr(v6, mask).value;
    MaskLengthIsCanonical(BytesOf(To4(a).value));
  }

  /** `ipv4AddrPlus`: the sum is taken in 64 bits, which wrap. */
  function Ipv4AddrPlus(base: Addr, offset: nat): Option<Addr>
    requires offset <= MAX_UINT64
  {
    if !base.family.V4? then None
    else if offset > MAX_UINT32 then None
    else
      var sum := (base.value + offset) % (MAX_UINT64 + 1);
      Pow2Values();
      if sum > MAX_UINT32 then None else Some(RawAddr.Addr(V4, sum))
  }

  /** The row's base address, when it reads as IPv4. */
  function RowBase(v6: Ipv6Text, row: ScopeRow): (base: Option<Addr>)
    ensures base.Some? ==> base.value.family.V4?
  {
    if row.netAddr == None then None
    else
      match ParseAddr(v6, TrimSpace(row.netAddr.value))
      case None => None
      case Some(base) => if base.family.V4? then Some(base) else None
  }

  /** `scopeRowExtent`, once the base and the size are known. */
  function ExtentFrom(v6: Ipv6Text, base: Addr, size: nat): AddrExtent
    requires 0 < size <= MAX_UINT64
  {
    match Ipv4AddrPlus(base, size - 1)
    case None => NO_EXTENT
    case Some(last) => AddrExtent(ShowAddr(v6, base), ShowAddr(v6, last))
  }

  /** `scopeRowExtent`. */
  function ScopeRowExtent(v6: Ipv6Text, row: ScopeRow): AddrExtent {
    match (RowBase(v6, row), ScopeAddressCount(v6, row))
    case (Some(base), Some(size)) => ExtentFrom(v6, base, size)
    case _ => NO_EXTENT
  }

  /** `count` addresses from a base, in unbounded arithmetic, if the IPv4 space has them. */
  function Span(base: Addr, count: nat): Option<(Addr, Addr)>
    requires base.family.V4? && count > 0
  {
    var last := base.value + count - 1;
    if last < Pow2(32) then Some((base, RawAddr.Addr(V4, last))) else None
  }

  /** The addresses a scope row spans. */
  function RowSpan(v6: Ipv6Text, row: ScopeRow): Option<(Addr, Addr)> {
    match (RowBase(v6, row), ScopeAddressCount(v6, row))
    case (Some(base), Some(count)) => Span(base, count)
    case _ => None
  }

  /** 64-bit sums never wrap back into the 32-bit space: the end is the exact sum, or there is none. */
  lemma PlusNeverWraps(base: Addr, size: nat)
    requires base.family.V4? && 0 < size <= MAX_UINT64
    ensures
      Ipv4AddrPlus(base, size - 1) ==
      if base.value + size - 1 <= MAX_UINT32 then Some(RawAddr.Addr(V4, base.value + size - 1)) else None
  {
    Pow2Values();
  }

  /** `parseable`: both ends of the extent read as addresses. */
  predicate Parseable(v6: Ipv6Text, e: AddrExtent) {
    && e.start != "" && e.end != ""
    && ParseAddr(v6, TrimSpace(e.start)).Some?
    && ParseAddr(v6, TrimSpace(e.end)).Some?
  }

  /** The extent's texts are those of the span's first and last address. */
  ghost predicate Denotes(v6: Ipv6Text, e: AddrExtent, span: Option<(Addr, Addr)>) {
    match span
    case None => e == NO_EXTENT
    case Some((first, last)) =>
      && e == AddrExtent(ShowAddr(v6, first), ShowAddr(v6, last))
      && Parseable(v6, e)
      && ParseAddr(v6, TrimSpace(e.start)) == Some(first)
      && ParseAddr(v6, TrimSpace(e.end)) == Some(last)
      && AtMost(first, last)
  }

  lemma ExtentFromIsSpan(v6: Ipv6Text, base: Addr, size: nat)
    requires base.family.V4? && 0 < size <= MAX_UINT64
    ensures Denotes(v6, ExtentFrom(v6, base, size), Span(base, size))
  {
    Pow2Values();
    PlusNeverWraps(base, size);
    if base.value + size - 1 <= MAX_UINT32 {
      var last: Addr := RawAddr.Addr(V4, base.value + size - 1);
      assert Span(base, size) == Some((base, last));
      ShownExtentReads(v6, base, last);
    }
  }

  lemma ShownExtentReads(v6: Ipv6Text, first: Addr, last: Addr)
    requires first.family.V4? && last.family.V4?
    ensures
      var e := AddrExtent(ShowAddr(v6, first), ShowAddr(v6, last));
      && Parseable(v6, e)
      && ParseAddr(v6, TrimSpace(e.start)) == Some(first)
      && ParseAddr(v6, TrimSpace(e.end)) == Some(last)
  {
    AddrReadsBack(v6, first);
    AddrReadsBack(v6, last);
  }

  /** An extent is produced exactly when the row spans addresses, and its texts read back to the first and the last. */
  lemma ExtentIsSpan(v6: Ipv6Text, row: ScopeRow)
    ensures Denotes(v6, ScopeRowExtent(v6, row), RowSpan(v6, row))
  {
    match (RowBase(v6, row), ScopeAddressCount(v6, row))
    case (Some(base), Some(count)) => ExtentFromIsSpan(v6, base, count);
    case _ =>
  }

  /** `scopeExtentsFromRows`. */
  method ScopeExtentsFromRows(v6: Ipv6Text, rows: seq<ScopeRow>) returns (extents: seq<AddrExtent>)
    ensures |extents| == |rows|
    ensures forall i | 0 <= i < |rows| :: extents[i] == ScopeRowExtent(v6, rows[i])
  {
    extents := [];
    ghost var extentOf := (row: ScopeRow) => ScopeRowExtent(v6, row);
    for i := 0 to |rows|
      invariant |extents| == i
      invariant forall j | 0 <= j < i :: extents[j] == extentOf(rows[j])
    {
      var e := ScopeRowExtent(v6, rows[i]);
      ResolvedSoFar(extentOf, rows, extents, e);
      extents := extents + [e];
    }
  }

  /** The step of the loop over rows: every extent so far, and the next. */
  lemma ResolvedSoFar(extentOf: ScopeRow -> AddrExtent, rows: seq<ScopeRow>, extents: seq<AddrExtent>, e: AddrExtent)
    requires |extents| < |rows| && e == extentOf(rows[|extents|])
    requires forall j | 0 <= j < |extents| :: extents[j] == extentOf(rows[j])
    ensures forall j | 0 <= j < |extents + [e]| :: (extents + [e])[j] == extentOf(rows[j])
  {
  }

  /** The row `dhcp_scope_create` sends: the address as given, the mask of the prefix, no size. */
  function CreatedRow(server: string, address: string, prefix: int, name: Option<string>): ScopeRow {
    ScopeRow(server, Some(address), None, Some(PrefixToDottedMask(prefix)), name, "")
  }

  /** A created row spans 2^(32-prefix) addresses from the address given, aligned or not. */
  lemma CreatedRowSpan(v6: Ipv6Text, server: string, address: string, prefix: nat, name: Option<string>, a: Addr)
    requires ParseAddr(v6, TrimSpace(address)) == Some(a) && a.family.V4? && prefix <= 32
    ensures
      var row := CreatedRow(server, address, prefix, name);
      && RowBase(v6, row) == Some(a)
      && ScopeAddressCount(v6, row) == Some(Pow2(32 - prefix))
      && RowSpan(v6, row) == Span(a, Pow2(32 - prefix))
  {
    DottedMaskReadsBack(v6, prefix);
    MaskCountFrom(v6, TrimSpace(PrefixToDottedMask(prefix)), prefix);
  }

  /**
   The create guard and the delete guard see the same block: for a network-aligned address, the
   extent read back from the created row is the first and last address of the CIDR that was guarded.
   */
  lemma CreateAndDeleteSeeTheSameBlock(
      v6: Ipv6Text, server: string, address: string, prefix: nat, name: Option<string>, a: Addr)
    requires ParseAddr(v6, TrimSpace(address)) == Some(a) && a.family.V4? && prefix <= 32
    requires IsAligned(RawPrefix.Prefix(a, prefix))
    ensures
      var block := Mask(a, prefix);
      var row := CreatedRow(server, address, prefix, name);
      && ScopeRowExtent(v6, row) == AddrExtent(ShowAddr(v6, First(block)), ShowAddr(v6, Last(block)))
      && RowSpan(v6, row) == Some((First(block), Last(block)))
  {
    AlignedSpan(a, prefix);
    MaskedIsAligned(a, prefix);
    CreatedRowSpan(v6, server, address, prefix, name, a);
    ExtentIsSpan(v6, CreatedRow(server, address, prefix, name));
  }

  lemma AlignedSpan(a: Addr, prefix: nat)
    requires a.family.V4? && prefix <= 32 && IsAligned(RawPrefix.Prefix(a, prefix))
    ensures
      var p: Prefix := RawPrefix.Prefix(a, prefix);
      Span(a, Pow2(32 - prefix)) == Some((First(p), Last(p)))
  {
    var p: Prefix := RawPrefix.Prefix(a, prefix);
    AlignedIsFirst(p);
    LastFits(p);
    var h := BlockSize(p);
    assert h == Pow2(32 - prefix) && First(p) == a && Last(p).value == a.value + h - 1;
  }
}
