/**
 IPv4 network masks, byte by byte as package net handles them: from a prefix length to its mask,
 from a mask to its length, and both as dotted text.
 */
module Masks {
  import opened Wrappers
  import opened Text
  import opened Arithmetic
  import opened Netip
  import opened NetipText

  const IPV4_MASK_BITS := 32

  type Octets = m: seq<nat> | forall i | 0 <= i < |m| :: m[i] < 256

  /** `^byte(0xff >> ones)`: the byte without its 8 - ones low bits. */
  function HighOnes(ones: nat): (b: nat)
    requires ones < 8
    ensures b < 256
  {
    assert Pow2(8) == 256 by { Pow2Values(); }
    if ones > 0 then Pow2Mono(8 - ones, 8); 0x100 - Pow2(8 - ones) else 0x100 - Pow2(8)
  }

  /** `net.CIDRMask` over l bytes. */
  function CidrMask(ones: nat, l: nat): (m: Octets)
    ensures |m| == l
  {
    if l == 0 then []
    else if ones >= 8 then [0xff] + CidrMask(ones - 8, l - 1)
    else [HighOnes(ones)] + CidrMask(0, l - 1)
  }

  /** The leading ones of a byte, shifting left while the top bit is set; none when other bits remain. */
  function ByteOnes(v: nat): Option<nat>
    requires v < 256
  {
    if v >= 0x80 then
      match ByteOnes(v * 2 % 256)
      case Some(n) => Some(n + 1)
      case None => None
    else if v == 0 then Some(0) else None
  }

  predicate AllZero(m: Octets) {
    forall i | 0 <= i < |m| :: m[i] == 0
  }

  /** `simpleMaskLength`: none for a mask that is not ones followed by zeros. */
  function MaskLength(m: Octets): Option<nat> {
    if m == [] then Some(0)
    else if m[0] == 0xff then
      match MaskLength(m[1..])
      case Some(n) => Some(n + 8)
      case None => None
    else if AllZero(m[1..]) then ByteOnes(m[0]) else None
  }

  lemma {:induction false} ByteOnesOfHighOnes(n: nat)
    requires n < 8
    ensures ByteOnes(HighOnes(n)) == Some(n)
  {
    if n > 0 {
      HighOnesShifts(n);
      ByteOnesOfHighOnes(n - 1);
    } else {
      assert HighOnes(0) == 0 by { Pow2Values(); }
    }
  }

  /** Shifted left by one, a byte of n leading ones has one less. */
  lemma HighOnesShifts(n: nat)
    requires 0 < n < 8
    ensures 0x80 <= HighOnes(n) < 0xff && HighOnes(n) * 2 % 0x100 == HighOnes(n - 1)
  {
    assert Pow2(8) == 256 && Pow2(7) == 128 by { Pow2Values(); assert Pow2(8) == 2 * Pow2(7); }
    assert Pow2(9 - n) == 2 * Pow2(8 - n);
    if n > 1 {
      Pow2Mono(8 - n, 7);
    }
    assert Pow2(1) == 2;
    if n < 7 {
      Pow2Mono(1, 8 - n);
    }
    ShiftOut(Pow2(8 - n));
  }

  lemma ShiftOut(x: nat)
    requires 1 <= x <= 0x80
    ensures (0x100 - x) * 2 % 0x100 == 0x100 - 2 * x
  {
    assert (0x100 - x) * 2 == 0x100 + (0x100 - 2 * x);
    if x == 0x80 {
      assert (0x100 - x) * 2 == 0x100;
    }
  }

  lemma {:induction false} ByteOnesOnly(v: nat)
    requires v < 0xff && ByteOnes(v).Some?
    ensures ByteOnes(v).value < 8 && v == HighOnes(ByteOnes(v).value)
  {
    assert Pow2(8) == 256 by { Pow2Values(); }
    if v >= 0x80 {
      var w := v * 2 % 256;
      assert Pow2(1) == 2;
      ByteOnesOnly(w);
      assert Pow2(8 - ByteOnes(w).value) == 2 * Pow2(7 - ByteOnes(w).value);
    }
  }

  lemma {:induction false} ZeroMask(l: nat)
    ensures AllZero(CidrMask(0, l))
  {
    if l > 0 {
      ZeroMask(l - 1);
      assert HighOnes(0) == 0 by { Pow2Values(); }
    }
  }

  /** Printing a prefix length as a mask and measuring the mask is the identity. */
  lemma {:induction false} MaskLengthOfCidrMask(ones: nat, l: nat)
    requires ones <= 8 * l
    ensures MaskLength(CidrMask(ones, l)) == Some(ones)
  {
    if l > 0 {
      if ones >= 8 {
        MaskLengthOfCidrMask(ones - 8, l - 1);
        MaskLengthOfCons(0xff, CidrMask(ones - 8, l - 1));
      } else {
        ZeroMask(l - 1);
        ByteOnesOfHighOnes(ones);
        if ones > 0 {
          HighOnesShifts(ones);
        } else {
          assert HighOnes(0) == 0 by { Pow2Values(); }
        }
        MaskLengthOfCons(HighOnes(ones), CidrMask(0, l - 1));
      }
    }
  }

  lemma MaskLengthOfCons(b: nat, rest: Octets)
    requires b < 256
    ensures b == 0xff && MaskLength(rest).Some? ==> MaskLength([b] + rest) == Some(MaskLength(rest).value + 8)
    ensures b != 0xff && AllZero(rest) ==> MaskLength([b] + rest) == ByteOnes(b)
  {
    assert ([b] + rest)[1..] == rest;
  }

  lemma {:induction false} ZeroMaskOnly(m: Octets)
    requires AllZero(m)
    ensures m == CidrMask(0, |m|)
  {
    if m != [] {
      ZeroMaskOnly(m[1..]);
      assert m == [m[0]] + m[1..];
      assert HighOnes(0) == 0 by { Pow2Values(); }
    }
  }

  /** Only canonical masks have a length. */
  lemma {:induction false} MaskLengthIsCanonical(m: Octets)
    requires MaskLength(m).Some?
    ensures MaskLength(m).value <= 8 * |m| && m == CidrMask(MaskLength(m).value, |m|)
  {
    if m != [] {
      assert m == [m[0]] + m[1..];
      if m[0] == 0xff {
        MaskLengthIsCanonical(m[1..]);
      } else {
        ByteOnesOnly(m[0]);
        ZeroMaskOnly(m[1..]);
      }
    }
  }

  function BytesOf(v: nat): (m: Octets)
    ensures |m| == 4
  {
    [Byte(v, 0), Byte(v, 1), Byte(v, 2), Byte(v, 3)]
  }

  function ValueOf(m: Octets): nat
    requires |m| == 4
  {
    Join4(m[0], m[1], m[2], m[3])
  }

  lemma BytesOfValue(m: Octets)
    requires |m| == 4
    ensures BytesOf(ValueOf(m)) == m && ValueOf(m) < 0x1_0000_0000
  {
    BytesOfJoin(m[0], m[1], m[2], m[3]);
  }

  /** A byte of a mask: all ones, some, or none. */
  function MaskByte(ones: nat, i: nat): nat {
    if ones >= 8 * i + 8 then 0xff else if ones <= 8 * i then 0 else HighOnes(ones - 8 * i)
  }

  lemma {:induction false} CidrMaskAt(ones: nat, l: nat, i: nat)
    requires i < l
    ensures CidrMask(ones, l)[i] == MaskByte(ones, i)
  {
    if i > 0 {
      CidrMaskAt(if ones >= 8 then ones - 8 else 0, l - 1, i - 1);
    } else if ones == 0 {
      assert HighOnes(0) == 0 by { Pow2Values(); }
    }
  }

  /** What the byte that ends the ones is worth at its place in the 32 bits. */
  lemma PlacedByte(ones: nat, i: nat, weight: nat)
    requires i < 4 && 8 * i <= ones < 8 * i + 8 && weight == Pow2(24 - 8 * i)
    ensures MaskByte(ones, i) * weight == 0x100 * weight - Pow2(32 - ones)
  {
    var low := Pow2(8 * i + 8 - ones);
    Pow2Add(8 * i + 8 - ones, 24 - 8 * i);
    assert Pow2(8) == 0x100 by { Pow2Values(); }
    assert MaskByte(ones, i) == 0x100 - low;
    Distribute(MaskByte(ones, i), low, weight);
  }

  lemma Distribute(x: int, y: int, z: int)
    requires x + y == 0x100
    ensures x * z + y * z == 0x100 * z
  {
    assert (x + y) * z == x * z + y * z;
  }

  /** The 32-bit mask of a prefix length, as a number. */
  function NetMask(prefix: nat): nat
    requires prefix <= IPV4_MASK_BITS
  {
    Pow2AtMost(IPV4_MASK_BITS - prefix, IPV4_MASK_BITS);
    Pow2(IPV4_MASK_BITS) - Pow2(IPV4_MASK_BITS - prefix)
  }

  /** The four bytes of a prefix length's mask spell 2^32 less the size of the block it leaves. */
  lemma CidrMaskValue(prefix: nat)
    requires prefix <= IPV4_MASK_BITS
    ensures ValueOf(CidrMask(prefix, 4)) == NetMask(prefix)
  {
    CidrMaskAt(prefix, 4, 0);
    CidrMaskAt(prefix, 4, 1);
    CidrMaskAt(prefix, 4, 2);
    CidrMaskAt(prefix, 4, 3);
    MaskBytesJoin(prefix);
  }

  lemma MaskBytesJoin(prefix: nat)
    requires prefix <= IPV4_MASK_BITS
    ensures Join4(MaskByte(prefix, 0), MaskByte(prefix, 1), MaskByte(prefix, 2), MaskByte(prefix, 3)) == NetMask(prefix)
  {
    if prefix < 16 {
      UpperBytesJoin(prefix);
    } else {
      LowerBytesJoin(prefix);
    }
  }

  lemma UpperBytesJoin(prefix: nat)
    requires prefix < 16
    ensures Join4(MaskByte(prefix, 0), MaskByte(prefix, 1), 0, 0) == NetMask(prefix)
  {
    if prefix < 8 {
      EndingByte(prefix, 0, 0x100_0000);
    } else {
      EndingByte(prefix, 1, 0x1_0000);
    }
  }

  lemma LowerBytesJoin(prefix: nat)
    requires 16 <= prefix <= IPV4_MASK_BITS
    ensures Join4(0xff, 0xff, MaskByte(prefix, 2), MaskByte(prefix, 3)) == NetMask(prefix)
  {
    if prefix < 24 {
      EndingByte(prefix, 2, 0x100);
    } else if prefix < 32 {
      EndingByte(prefix, 3, 1);
    } else {
      assert NetMask(32) == 0xffff_ffff by { Pow2Values(); }
    }
  }

  /** Ones before byte i, and zeros after it. */
  lemma EndingByte(prefix: nat, i: nat, weight: nat)
    requires i < 4 && 8 * i <= prefix < 8 * i + 8
    requires weight == match i case 0 => 0x100_0000 case 1 => 0x1_0000 case 2 => 0x100 case _ => 1
    ensures 0x1_0000_0000 - 0x100 * weight + MaskByte(prefix, i) * weight == NetMask(prefix)
  {
    Pow2Values();
    PlacedByte(prefix, i, weight);
  }

  lemma MaskBytesOf(v: nat, prefix: nat)
    requires v < 0x1_0000_0000 && prefix <= IPV4_MASK_BITS
    ensures MaskLength(BytesOf(v)) == Some(prefix) <==> v == NetMask(prefix)
  {
    var m := CidrMask(prefix, 4);
    BytesJoin(v);
    CidrMaskValue(prefix);
    BytesOfValue(m);
    MaskLengthOfCidrMask(prefix, 4);
    if MaskLength(BytesOf(v)) == Some(prefix) {
      MaskLengthIsCanonical(BytesOf(v));
      assert ValueOf(BytesOf(v)) == v;
    }
  }

  /** The text reads as the mask of this prefix length, in IPv4 or as an IPv4-mapped IPv6 address. */
  predicate IsMaskText(v6: Ipv6Text, mask: string, prefix: nat) {
    && prefix <= IPV4_MASK_BITS
    && match ParseAddr(v6, mask)
       case None => false
       case Some(a) => a.value == (if a.family.V4? then 0 else 0xffff * 0x1_0000_0000) + NetMask(prefix)
  }

  /** A mask text has the length k exactly when it reads as 2^32 - 2^(32-k): other bit patterns have none. */
  lemma DottedMaskIsCanonical(v6: Ipv6Text, mask: string, prefix: nat)
    ensures DottedMaskPrefixLen(v6, mask) == Some(prefix) <==> IsMaskText(v6, mask, prefix)
  {
    if ParseAddr(v6, mask).Some? {
      var a := ParseAddr(v6, mask).value;
      if prefix <= IPV4_MASK_BITS {
        NetMaskFits(prefix);
        if To4(a).Some? {
          MaskBytesOf(To4(a).value, prefix);
        }
      } else if DottedMaskPrefixLen(v6, mask).Some? {
        MaskLengthIsCanonical(BytesOf(To4(a).value));
      }
    }
  }

  lemma NetMaskFits(prefix: nat)
    requires prefix <= IPV4_MASK_BITS
    ensures NetMask(prefix) < 0x1_0000_0000
  {
    Pow2Values();
  }

  /** `prefixToDottedMask`. */
  function PrefixToDottedMask(prefix: int): string {
    if 0 <= prefix <= IPV4_MASK_BITS then Dotted(ValueOf(CidrMask(prefix, 4))) else "<nil>"
  }

  /** `dottedMaskPrefixLen`: IPv4 text, or the IPv4-mapped IPv6 text of a mask. */
  function DottedMaskPrefixLen(v6: Ipv6Text, mask: string): Option<nat> {
    match ParseAddr(v6, mask)
    case None => None
    case Some(a) =>
      match To4(a)
      case None => None
      case Some(v) => MaskLength(BytesOf(v))
  }

  /** `net.IP.To4`: an IPv4 address, or an IPv4-mapped IPv6 one, as 32 bits. */
  function To4(a: Addr): (v: Option<nat>)
    ensures forall n: nat | n < 0x1_0000_0000 ::
      v == Some(n) <==> a.value == (if a.family.V4? then 0 else 0xffff * 0x1_0000_0000) + n
    ensures v.Some? ==> v.value < 0x1_0000_0000
  {
    Pow2Values();
    if a.family.V4? then Some(a.value)
    else if a.value / 0x1_0000_0000 == 0xffff then Some(a.value % 0x1_0000_0000)
    else None
  }

  /** Every prefix length survives being written as a dotted mask. */
  lemma DottedMaskReadsBack(v6: Ipv6Text, prefix: nat)
    requires prefix <= IPV4_MASK_BITS
    ensures DottedMaskPrefixLen(v6, TrimSpace(PrefixToDottedMask(prefix))) == Some(prefix)
  {
    var v := ValueOf(CidrMask(prefix, 4));
    BytesOfValue(CidrMask(prefix, 4));
    Pow2Values();
    AddrReadsBack(v6, RawAddr.Addr(V4, v));
    MaskLengthOfCidrMask(prefix, 4);
  }
}
