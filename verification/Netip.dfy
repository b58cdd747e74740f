/**
 Addresses and CIDR blocks as `net/netip` has them (CIDR notation: section 3.1 of RFC 4632).
 An address is a family and a value; a prefix is an address and a number of leading bits.
 Go decides membership and overlap by comparing leading bits; what that means is stated
 here with first and last addresses, in the total order by family, then value.
 */
module Netip {
  import opened Arithmetic

  // ---------- addresses ----------

  datatype Family = V4 | V6

  function Width(f: Family): nat {
    if f.V4? then 32 else 128
  }

  datatype RawAddr = Addr(family: Family, value: nat)

  /** A valid, zone-less `netip.Addr`. */
  type Addr = a: RawAddr | a.value < Pow2(Width(a.family)) witness RawAddr.Addr(V4, 0)

  /** `Addr.Less`: by bit length, then by value. */
  predicate Less(a: Addr, b: Addr) {
    Width(a.family) < Width(b.family) || (a.family == b.family && a.value < b.value)
  }

  /** `a.Compare(b) <= 0`. */
  predicate AtMost(a: Addr, b: Addr) {
    !Less(b, a)
  }

  predicate Between(lo: Addr, a: Addr, hi: Addr) {
    AtMost(lo, a) && AtMost(a, hi)
  }

  // ---------- prefixes ----------

  datatype RawPrefix = Prefix(addr: Addr, bits: nat)

  /** A valid `netip.Prefix`; the address need not be the first of its block. */
  type Prefix = p: RawPrefix | p.bits <= Width(p.addr.family) witness RawPrefix.Prefix(RawAddr.Addr(V4, 0), 0)

  /** How many addresses the block holds. */
  function BlockSize(p: Prefix): (h: nat)
    ensures h > 0
  {
    Pow2(Width(p.addr.family) - p.bits)
  }

  /** `Addr.Prefix`: an error outside the family's range, else the address masked to its leading bits. */
  function Mask(a: Addr, bits: nat): Prefix
    requires bits <= Width(a.family)
  {
    var h := Pow2(Width(a.family) - bits);
    MaskFits(a, bits);
    RawPrefix.Prefix(RawAddr.Addr(a.family, a.value / h * h), bits)
  }

  lemma MaskFits(a: Addr, bits: nat)
    requires bits <= Width(a.family)
    ensures var h := Pow2(Width(a.family) - bits); 0 <= a.value / h * h <= a.value
  {
    DivBlock(a.value, a.value / Pow2(Width(a.family) - bits), Pow2(Width(a.family) - bits));
  }

  function Masked(p: Prefix): Prefix {
    Mask(p.addr, p.bits)
  }

  predicate IsAligned(p: Prefix) {
    p.addr.value % BlockSize(p) == 0
  }

  /** First and last address of the block. */
  function First(p: Prefix): Addr {
    Masked(p).addr
  }

  function Last(p: Prefix): Addr {
    LastFits(p);
    RawAddr.Addr(p.addr.family, First(p).value + BlockSize(p) - 1)
  }

  lemma LastFits(p: Prefix)
    ensures First(p).value + BlockSize(p) <= Pow2(Width(p.addr.family))
  {
    var m, h := Pow2(p.bits), BlockSize(p);
    Pow2Add(p.bits, Width(p.addr.family) - p.bits);
    BlockFits(p.addr.value, m, h);
  }

  lemma BlockFits(v: nat, m: nat, h: nat)
    requires h > 0 && v < m * h
    ensures v / h * h + h <= m * h
  {
    var q := v / h;
    DivBlock(v, q, h);
    if m <= q {
      MulMono(m, q, h);
    }
    MulMono(q + 1, m, h);
    assert (q + 1) * h == q * h + h;
  }

  /** `Prefix.Contains`: same family and the same leading bits. */
  predicate Contains(p: Prefix, a: Addr) {
    p.addr.family == a.family && a.value / BlockSize(p) == p.addr.value / BlockSize(p)
  }

  /** `Prefix.Overlaps`, in the order Go decides it. */
  predicate Overlaps(p: Prefix, o: Prefix) {
    if p == o then true
    else if p.addr.family != o.addr.family then false
    else
      var bits := if p.bits < o.bits then p.bits else o.bits;
      bits == 0 || Mask(p.addr, bits).addr == Mask(o.addr, bits).addr
  }

  /** Comparing leading bits is membership in [First, Last]. */
  lemma ContainsIsBlock(p: Prefix, a: Addr)
    ensures Contains(p, a) <==> Between(First(p), a, Last(p))
  {
    var h := BlockSize(p);
    SameQuotient(a.value, p.addr.value, h);
    assert First(p) == RawAddr.Addr(p.addr.family, p.addr.value / h * h);
    assert Last(p) == RawAddr.Addr(p.addr.family, p.addr.value / h * h + h - 1);
  }

  lemma SameQuotient(x: nat, v: nat, h: nat)
    requires h > 0
    ensures x / h == v / h <==> v / h * h <= x <= v / h * h + h - 1
  {
    DivBlock(x, v / h, h);
  }

  lemma BlockHoldsEnds(p: Prefix)
    ensures Contains(p, First(p)) && Contains(p, Last(p)) && AtMost(First(p), Last(p))
  {
    ContainsIsBlock(p, First(p));
    ContainsIsBlock(p, Last(p));
  }

  lemma AlignedIsFirst(p: Prefix)
    requires IsAligned(p)
    ensures First(p) == p.addr && Masked(p) == p
  {
    var v, h := p.addr.value, BlockSize(p);
    assert v == v / h * h + v % h;
  }

  lemma MaskedIsAligned(a: Addr, bits: nat)
    requires bits <= Width(a.family)
    ensures IsAligned(Mask(a, bits))
    ensures First(Mask(a, bits)) == First(RawPrefix.Prefix(a, bits))
    ensures Last(Mask(a, bits)) == Last(RawPrefix.Prefix(a, bits))
    ensures forall x: Addr :: Contains(Mask(a, bits), x) <==> Contains(RawPrefix.Prefix(a, bits), x)
  {
    var h := Pow2(Width(a.family) - bits);
    var q := a.value / h;
    MaskFits(a, bits);
    DivBlock(q * h, q, h);
    assert (q * h) / h == q;
    assert q * h == (q * h) / h * h + (q * h) % h;
  }

  /** Two blocks of which neither is finer: the coarser holds an address of the finer one iff it holds all of it. */
  lemma CoarserBlock(p: Prefix, o: Prefix, a: Addr)
    requires p.addr.family == o.addr.family && p.bits <= o.bits
    requires Contains(o, a)
    ensures Contains(p, a) <==> Contains(p, o.addr)
  {
    var m := Pow2(o.bits - p.bits);
    var h := BlockSize(o);
    Pow2Add(o.bits - p.bits, Width(o.addr.family) - o.bits);
    assert BlockSize(p) == m * h;
    DivDiv(a.value, m, h);
    DivDiv(o.addr.value, m, h);
  }

  /** CIDR blocks are nested or disjoint. */
  lemma NestedOrDisjoint(p: Prefix, o: Prefix)
    ensures
      || (forall a: Addr :: Contains(p, a) ==> Contains(o, a))
      || (forall a: Addr :: Contains(o, a) ==> Contains(p, a))
      || (forall a: Addr :: !(Contains(p, a) && Contains(o, a)))
  {
    if p.addr.family == o.addr.family {
      if p.bits <= o.bits {
        forall a: Addr | Contains(o, a) ensures Contains(p, a) <==> Contains(p, o.addr) {
          CoarserBlock(p, o, a);
        }
      } else {
        forall a: Addr | Contains(p, a) ensures Contains(o, a) <==> Contains(o, p.addr) {
          CoarserBlock(o, p, a);
        }
      }
    }
  }

  lemma SameMaskSameBlock(a: Addr, b: Addr, bits: nat)
    requires a.family == b.family && bits <= Width(a.family)
    ensures Mask(a, bits).addr == Mask(b, bits).addr <==> Contains(RawPrefix.Prefix(a, bits), b)
  {
    var h := Pow2(Width(a.family) - bits);
    SameMultiple(a.value / h, b.value / h, h);
  }

  lemma SameMultiple(x: int, y: int, h: nat)
    requires h > 0
    ensures x * h == y * h <==> x == y
  {
    if x < y {
      MulMono(x + 1, y, h);
    } else if y < x {
      MulMono(y + 1, x, h);
    }
  }

  lemma WholeSpace(p: Prefix, a: Addr)
    requires p.bits == 0 && p.addr.family == a.family
    ensures Contains(p, a)
  {
    DivBlock(a.value, 0, BlockSize(p));
    DivBlock(p.addr.value, 0, BlockSize(p));
  }

  /** Go's overlap test says exactly that some address is in both blocks. */
  lemma OverlapsIsSharing(p: Prefix, o: Prefix)
    ensures Overlaps(p, o) <==> exists a: Addr :: Contains(p, a) && Contains(o, a)
    ensures Overlaps(p, o) <==> Overlaps(o, p)
  {
    assert Contains(p, p.addr) && Contains(o, o.addr);
    if p.addr.family == o.addr.family {
      OverlapsIsCoarser(p, o);
      OverlapsIsCoarser(o, p);
      if p.bits <= o.bits {
        forall a: Addr | Contains(p, a) && Contains(o, a) ensures Overlaps(p, o) {
          CoarserBlock(p, o, a);
        }
      } else {
        forall a: Addr | Contains(p, a) && Contains(o, a) ensures Overlaps(p, o) {
          CoarserBlock(o, p, a);
        }
      }
    }
  }

  lemma OverlapsIsCoarser(p: Prefix, o: Prefix)
    requires p.addr.family == o.addr.family
    ensures p.bits <= o.bits ==> (Overlaps(p, o) <==> Contains(p, o.addr))
    ensures o.bits <= p.bits ==> (Overlaps(p, o) <==> Contains(o, p.addr))
  {
    var bits := if p.bits < o.bits then p.bits else o.bits;
    SameMaskSameBlock(p.addr, o.addr, bits);
    if p.bits == 0 { WholeSpace(p, o.addr); }
    if o.bits == 0 { WholeSpace(o, p.addr); }
  }

  // ---------- blocks against intervals ----------

  /** Some address of the closed interval lies in the block. */
  ghost predicate Meets(p: Prefix, lo: Addr, hi: Addr) {
    exists a: Addr :: Between(lo, a, hi) && Contains(p, a)
  }

  /** The three-way test of the interval guard: an endpoint inside, or the block's first address between them. */
  predicate ThreeWayTest(p: Prefix, lo: Addr, hi: Addr) {
    Contains(p, lo) || Contains(p, hi) || Between(lo, First(p), hi)
  }

  /** The three-way test is exact, for endpoints of one family or of two. */
  lemma ThreeWayIsExact(p: Prefix, lo: Addr, hi: Addr)
    requires AtMost(lo, hi)
    ensures ThreeWayTest(p, lo, hi) <==> Meets(p, lo, hi)
  {
    BlockHoldsEnds(p);
    if ThreeWayTest(p, lo, hi) {
      assert Between(lo, lo, hi) && Between(lo, hi, hi);
    }
    if a: Addr :| Between(lo, a, hi) && Contains(p, a) {
      ContainsIsBlock(p, a);
      ContainsIsBlock(p, lo);
      ContainsIsBlock(p, hi);
    }
  }

  /** An interval that is a whole block meets another block exactly when the blocks overlap. */
  lemma MeetsBlockIsOverlap(p: Prefix, o: Prefix)
    ensures Meets(p, First(o), Last(o)) <==> Overlaps(p, o)
  {
    OverlapsIsSharing(p, o);
    forall a: Addr ensures Between(First(o), a, Last(o)) <==> Contains(o, a) {
      ContainsIsBlock(o, a);
    }
  }

  lemma MeetsPointIsContains(p: Prefix, a: Addr)
    ensures Meets(p, a, a) <==> Contains(p, a)
  {
    assert Between(a, a, a);
    if x: Addr :| Between(a, x, a) && Contains(p, x) {
      assert x == a;
    }
  }

  /** What a smaller interval meets, a larger one meets. */
  lemma MeetsMono(p: Prefix, lo: Addr, hi: Addr, lo': Addr, hi': Addr)
    requires AtMost(lo', lo) && AtMost(hi, hi')
    ensures Meets(p, lo, hi) ==> Meets(p, lo', hi')
  {
    if a: Addr :| Between(lo, a, hi) && Contains(p, a) {
      assert Between(lo', a, hi');
    }
  }

  /** The addresses from a to b are one run of addresses of one family. */
  ghost predicate OneFamilyInterval(a: Addr, b: Addr) {
    && (exists x: Addr :: Between(a, x, b))
    && forall x: Addr, y: Addr | Between(a, x, b) && Between(a, y, b) :: x.family == y.family
  }

  /** Two ends make such a run exactly when they are of one family and not reversed. */
  lemma EndsOfInterval(a: Addr, b: Addr)
    ensures OneFamilyInterval(a, b) <==> a.family.V4? == b.family.V4? && !Less(b, a)
  {
    if a.family.V4? == b.family.V4? && !Less(b, a) {
      assert Between(a, a, b);
    }
    if x: Addr :| Between(a, x, b) {
      assert Between(a, a, b) && Between(a, b, b);
    }
  }
}
