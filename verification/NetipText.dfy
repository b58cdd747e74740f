/**
 Addresses and prefixes as text (`netip.ParseAddr`, `netip.ParsePrefix`, their `String`
 methods), and the validators built on them. IPv4 text is written out; IPv6 text syntax is a
 parameter, a reader and a printer of 128-bit values, about which only `Lawful` is assumed.
 */
module NetipText {
  import opened Wrappers
  import opened Text
  import opened Arithmetic
  import opened Netip

  /** IPv6 text: what a text with a colon denotes, and how a value is printed. */
  datatype Ipv6Text = Ipv6Text(read: string -> Option<nat>, show: nat -> string)

  /** The character that decides how `ParseAddr` reads a text: the first of '.', ':' and '%'. */
  function Mark(s: string): Option<char> {
    if s == "" then None
    else if s[0] == '.' || s[0] == ':' || s[0] == '%' then Some(s[0])
    else Mark(s[1..])
  }

  /** The printer writes IPv6 text that reads back; the reader ignores letter case. */
  ghost predicate Lawful(v6: Ipv6Text) {
    && (forall n: nat | n < Pow2(128) ::
          && v6.read(v6.show(n)) == Some(n)
          && Mark(v6.show(n)) == Some(':')
          && '/' !in v6.show(n)
          && Tight(v6.show(n)))
    && (forall s | v6.read(s).Some? :: '/' !in s)
    && (forall s, t | EqualFold(s, t) :: v6.read(s) == v6.read(t))
  }

  // ---------- IPv4 ----------

  /** One field of dotted text: digits, no leading zero, at most 255. */
  function Octet(s: string): (r: Option<nat>)
    ensures r.Some? ==> r.value < 256
  {
    if IsNumeral(s) && (|s| == 1 || s[0] != '0') && NumeralValue(s) < 256 then Some(NumeralValue(s)) else None
  }

  function Join4(a: nat, b: nat, c: nat, d: nat): nat {
    a * 0x100_0000 + b * 0x1_0000 + c * 0x100 + d
  }

  function ParseIPv4(s: string): (r: Option<nat>)
    ensures r.Some? ==> r.value < Pow2(32)
  {
    Pow2Values();
    var f := Split(s, '.');
    if |f| != 4 then None
    else
      match (Octet(f[0]), Octet(f[1]), Octet(f[2]), Octet(f[3]))
      case (Some(a), Some(b), Some(c), Some(d)) => Some(Join4(a, b, c, d))
      case _ => None
  }

  function Byte(v: nat, i: nat): nat
    requires i < 4
  {
    match i
    case 0 => v / 0x100 / 0x100 / 0x100 % 0x100
    case 1 => v / 0x100 / 0x100 % 0x100
    case 2 => v / 0x100 % 0x100
    case _ => v % 0x100
  }

  function Dotted(v: nat): string {
    Decimal(Byte(v, 0)) + "." + (Decimal(Byte(v, 1)) + "." + (Decimal(Byte(v, 2)) + "." + Decimal(Byte(v, 3))))
  }

  lemma OctetReadsDecimal(n: nat)
    requires n < 256
    ensures Octet(Decimal(n)) == Some(n)
    ensures forall c | !IsDigit(c) :: c !in Decimal(n)
  {
    DecimalReadsBack(n);
  }

  lemma {:induction false} MarkAfterDigits(s: string, rest: string)
    requires forall i | 0 <= i < |s| :: IsDigit(s[i])
    ensures Mark(s + rest) == Mark(rest)
  {
    if s == "" {
      assert s + rest == rest;
    } else {
      assert (s + rest)[1..] == s[1..] + rest;
      MarkAfterDigits(s[1..], rest);
    }
  }

  lemma BytesJoin(v: nat)
    requires v < 0x1_0000_0000
    ensures Join4(Byte(v, 0), Byte(v, 1), Byte(v, 2), Byte(v, 3)) == v
  {
    var x := v / 0x100;
    var y := x / 0x100;
    var z := y / 0x100;
    assert v == x * 0x100 + v % 0x100 && x == y * 0x100 + x % 0x100 && y == z * 0x100 + y % 0x100;
  }

  lemma BytesOfJoin(a: nat, b: nat, c: nat, d: nat)
    requires a < 256 && b < 256 && c < 256 && d < 256
    ensures
      var v := Join4(a, b, c, d);
      Byte(v, 0) == a && Byte(v, 1) == b && Byte(v, 2) == c && Byte(v, 3) == d
  {
    var v := Join4(a, b, c, d);
    assert v / 0x100 == a * 0x1_0000 + b * 0x100 + c;
    assert v / 0x100 / 0x100 == a * 0x100 + b;
    assert v / 0x100 / 0x100 / 0x100 == a;
  }

  /** An octet's text is how its number is printed: no sign, no space, no leading zero. */
  lemma OctetIsDecimal(s: string)
    requires Octet(s).Some?
    ensures s == Decimal(Octet(s).value)
  {
    NumeralIsDecimal(s);
  }

  /** IPv4 text is canonical: the only text that reads as a value is the one that prints it. */
  lemma Ipv4TextIsCanonical(s: string)
    requires ParseIPv4(s).Some?
    ensures s == Dotted(ParseIPv4(s).value)
  {
    var f := Split(s, '.');
    SplitJoins(s, '.');
    OctetIsDecimal(f[0]);
    OctetIsDecimal(f[1]);
    OctetIsDecimal(f[2]);
    OctetIsDecimal(f[3]);
    BytesOfJoin(Octet(f[0]).value, Octet(f[1]).value, Octet(f[2]).value, Octet(f[3]).value);
    JoinedFour(f[0], f[1], f[2], f[3]);
    assert f == [f[0], f[1], f[2], f[3]];
  }

  lemma JoinedFour(a: string, b: string, c: string, d: string)
    ensures Join([a, b, c, d], '.') == a + "." + (b + "." + (c + "." + d))
  {
    assert [a, b, c, d][1..] == [b, c, d] && [b, c, d][1..] == [c, d] && [c, d][1..] == [d];
    assert Join([d], '.') == d;
    assert Join([c, d], '.') == c + ['.'] + d;
    assert Join([b, c, d], '.') == b + ['.'] + (c + ['.'] + d);
  }

  lemma FourFields(a: string, b: string, c: string, d: string)
    requires '.' !in a && '.' !in b && '.' !in c && '.' !in d
    ensures Split(a + "." + (b + "." + (c + "." + d)), '.') == [a, b, c, d]
  {
    SplitAt(a, '.', b + "." + (c + "." + d));
    SplitAt(b, '.', c + "." + d);
    SplitAt(c, '.', d);
    SplitWithout(d, '.');
  }

  /** A text that starts with one numeral and ends with another has no spaces to trim. */
  lemma NumeralEnds(a: string, middle: string, b: string)
    requires IsNumeral(a) && IsNumeral(b)
    ensures Tight(a + middle + b)
  {
    var s := a + middle + b;
    assert s[0] == a[0] && s[|s| - 1] == b[|b| - 1];
  }

  /** Printing a 32-bit value and reading it back. */
  lemma DottedReadsBack(v: nat)
    requires v < Pow2(32)
    ensures ParseIPv4(Dotted(v)) == Some(v)
  {
    Pow2Values();
    forall i: nat | i < 4 ensures Octet(Decimal(Byte(v, i))) == Some(Byte(v, i)) && '.' !in Decimal(Byte(v, i)) {
      OctetReadsDecimal(Byte(v, i));
    }
    FourFields(Decimal(Byte(v, 0)), Decimal(Byte(v, 1)), Decimal(Byte(v, 2)), Decimal(Byte(v, 3)));
    BytesJoin(v);
  }

  lemma DottedShape(v: nat)
    ensures Mark(Dotted(v)) == Some('.')
    ensures '/' !in Dotted(v) && Tight(Dotted(v))
  {
    var a, b, c, d := Decimal(Byte(v, 0)), Decimal(Byte(v, 1)), Decimal(Byte(v, 2)), Decimal(Byte(v, 3));
    forall i: nat | i < 4 ensures IsNumeral(Decimal(Byte(v, i))) {
      DecimalReadsBack(Byte(v, i));
    }
    DottedTextShape(a, b, c, d);
  }

  lemma DottedTextShape(a: string, b: string, c: string, d: string)
    requires IsNumeral(a) && IsNumeral(b) && IsNumeral(c) && IsNumeral(d)
    ensures
      var s := a + "." + (b + "." + (c + "." + d));
      Mark(s) == Some('.') && '/' !in s && Tight(s)
  {
    var rest := "." + (b + "." + (c + "." + d));
    MarkAfterDigits(a, rest);
    assert a + "." + (b + "." + (c + "." + d)) == a + rest;
    NumeralEnds(a, "." + b + "." + c + ".", d);
    assert a + rest == a + ("." + b + "." + c + ".") + d;
  }

  // ---------- addresses and prefixes ----------

  function ParseAddr(v6: Ipv6Text, s: string): Option<Addr> {
    match Mark(s)
    case Some('.') =>
      (match ParseIPv4(s)
       case Some(v) => Some(RawAddr.Addr(V4, v))
       case None => None)
    case Some(':') =>
      (match v6.read(s)
       case Some(v) => if v < Pow2(128) then Some(RawAddr.Addr(V6, v)) else None
       case None => None)
    case _ => None
  }

  function ShowAddr(v6: Ipv6Text, a: Addr): string {
    if a.family.V4? then Dotted(a.value) else v6.show(a.value)
  }

  lemma AddrReadsBack(v6: Ipv6Text, a: Addr)
    requires Lawful(v6) || a.family.V4?
    ensures ParseAddr(v6, ShowAddr(v6, a)) == Some(a)
    ensures '/' !in ShowAddr(v6, a) && Tight(ShowAddr(v6, a))
    ensures ParseAddr(v6, TrimSpace(ShowAddr(v6, a))) == Some(a)
  {
    if a.family.V4? {
      DottedReadsBack(a.value);
      DottedShape(a.value);
    }
    TrimKeepsTight(ShowAddr(v6, a));
  }

  /** The length text of a prefix: one character, or no leading zero or sign. */
  function ParseBits(s: string): Option<int> {
    if |s| > 1 && !('1' <= s[0] <= '9') then None else Atoi(s)
  }

  function ParsePrefix(v6: Ipv6Text, s: string): Option<Prefix> {
    match CutLast(s, '/')
    case None => None
    case Some((addrText, bitsText)) =>
      match (ParseAddr(v6, addrText), ParseBits(bitsText))
      case (Some(a), Some(n)) => if 0 <= n <= Width(a.family) then Some(RawPrefix.Prefix(a, n)) else None
      case _ => None
  }

  function ShowPrefix(v6: Ipv6Text, p: Prefix): string {
    ShowAddr(v6, p.addr) + "/" + Decimal(p.bits)
  }

  lemma PrefixReadsBack(v6: Ipv6Text, p: Prefix)
    requires Lawful(v6)
    ensures ParsePrefix(v6, ShowPrefix(v6, p)) == Some(p)
    ensures ParseAddr(v6, ShowPrefix(v6, p)) == None
    ensures TrimSpace(ShowPrefix(v6, p)) == ShowPrefix(v6, p) != ""
  {
    var a, b := ShowAddr(v6, p.addr), Decimal(p.bits);
    AddrReadsBack(v6, p.addr);
    BitsReadBack(p.bits);
    CutLastAt(a, '/', b);
    JoinedPrefixReads(v6, a, b, p);
    SlashIsNotAddr(v6, a + "/" + b);
    PrefixTextTight(a, b);
  }

  lemma BitsReadBack(bits: nat)
    requires bits <= 128
    ensures ParseBits(Decimal(bits)) == Some(bits)
    ensures '/' !in Decimal(bits) && IsNumeral(Decimal(bits))
  {
    DecimalReadsBack(bits);
    DecimalAvoids(bits, '/');
    AtoiReadsDecimal(bits);
  }

  lemma JoinedPrefixReads(v6: Ipv6Text, a: string, b: string, p: Prefix)
    requires CutLast(a + "/" + b, '/') == Some((a, b))
    requires ParseAddr(v6, a) == Some(p.addr) && ParseBits(b) == Some(p.bits)
    ensures ParsePrefix(v6, a + "/" + b) == Some(p)
  {
  }

  lemma PrefixTextTight(a: string, b: string)
    requires Tight(a) && IsNumeral(b)
    ensures TrimSpace(a + "/" + b) == a + "/" + b
  {
    var s := a + "/" + b;
    assert s[0] == a[0] && s[|s| - 1] == b[|b| - 1];
    TrimKeepsTight(s);
  }

  lemma {:induction false} SplitKeeps(s: string, sep: char, c: char)
    requires c in s && c != sep
    ensures exists i | 0 <= i < |Split(s, sep)| :: c in Split(s, sep)[i]
  {
    var rest := Split(s[1..], sep);
    if s[0] != c {
      SplitKeeps(s[1..], sep, c);
      var i :| 0 <= i < |rest| && c in rest[i];
      if s[0] == sep {
        assert Split(s, sep)[i + 1] == rest[i];
      } else {
        assert c in Split(s, sep)[i];
      }
    } else {
      assert c in Split(s, sep)[0];
    }
  }

  lemma SlashIsNotIPv4(s: string)
    requires '/' in s
    ensures ParseIPv4(s) == None
  {
    SplitKeeps(s, '.', '/');
    var f := Split(s, '.');
    var i :| 0 <= i < |f| && '/' in f[i];
    assert Octet(f[i]) == None;
  }

  /** A text with a slash is not an address. */
  lemma SlashIsNotAddr(v6: Ipv6Text, s: string)
    requires Lawful(v6) && '/' in s
    ensures ParseAddr(v6, s) == None
  {
    SlashIsNotIPv4(s);
  }

  /** The length of a prefix text is how its number is printed; signs and leading zeros do not read. */
  lemma BitsAreDecimal(s: string)
    requires ParseBits(s).Some?
    ensures ParseBits(s).value >= 0 && s == Decimal(ParseBits(s).value)
  {
    NumeralIsDecimal(s);
  }

  lemma {:induction false} CutLastJoins(s: string, sep: char)
    requires CutLast(s, sep).Some?
    ensures
      var (before, after) := CutLast(s, sep).value;
      s == before + [sep] + after && sep !in after
  {
    var init, last := s[..|s| - 1], s[|s| - 1];
    assert s == init + [last];
    if last != sep {
      CutLastJoins(init, sep);
    }
  }

  /** An IPv4 prefix's text is canonical as well. */
  lemma Ipv4PrefixTextIsCanonical(v6: Ipv6Text, s: string)
    requires ParsePrefix(v6, s).Some? && ParsePrefix(v6, s).value.addr.family.V4?
    ensures s == ShowPrefix(v6, ParsePrefix(v6, s).value)
  {
    var (addrText, bitsText) := CutLast(s, '/').value;
    CutLastJoins(s, '/');
    Ipv4TextIsCanonical(addrText);
    BitsAreDecimal(bitsText);
  }
}
