/**
 The string helpers of the Go standard library that the guards rely on: trimming,
 case folding, splitting, and decimal numerals read and written.
 */
module Text {
  import opened Wrappers

  const MAX_INT32 := 0x7fff_ffff
  const MAX_INT64 := 0x7fff_ffff_ffff_ffff
  const MAX_UINT64 := 0xffff_ffff_ffff_ffff

  /** Unicode White_Space, as `unicode.IsSpace` has it. */
  predicate IsSpace(c: char) {
    var n := c as int;
    || 9 <= n <= 13 || n == 0x20 || n == 0x85 || n == 0xA0 || n == 0x1680
    || 0x2000 <= n <= 0x200a || n == 0x2028 || n == 0x2029 || n == 0x202f || n == 0x205f || n == 0x3000
  }

  function TrimLeft(s: string): string {
    if s != "" && IsSpace(s[0]) then TrimLeft(s[1..]) else s
  }

  function TrimRight(s: string): string {
    if s != "" && IsSpace(s[|s| - 1]) then TrimRight(s[..|s| - 1]) else s
  }

  function TrimSpace(s: string): string {
    TrimRight(TrimLeft(s))
  }

  /** Neither end is a space (and there are ends). */
  predicate Tight(s: string) {
    s != "" && !IsSpace(s[0]) && !IsSpace(s[|s| - 1])
  }

  lemma TrimKeepsTight(s: string)
    requires Tight(s)
    ensures TrimSpace(s) == s
  {
  }

  lemma {:induction false} TrimLeftShape(s: string)
    ensures TrimLeft(s) == "" || !IsSpace(TrimLeft(s)[0])
  {
    if s != "" && IsSpace(s[0]) {
      TrimLeftShape(s[1..]);
    }
  }

  lemma {:induction false} TrimRightShape(s: string)
    ensures TrimRight(s) == "" || (!IsSpace(TrimRight(s)[|TrimRight(s)| - 1]) && s != "" && TrimRight(s)[0] == s[0])
  {
    if s != "" && IsSpace(s[|s| - 1]) {
      TrimRightShape(s[..|s| - 1]);
    }
  }

  /** Trimming leaves nothing more to trim. */
  lemma TrimIsTight(s: string)
    ensures TrimSpace(s) == "" || Tight(TrimSpace(s))
    ensures TrimSpace(TrimSpace(s)) == TrimSpace(s)
  {
    TrimLeftShape(s);
    TrimRightShape(TrimLeft(s));
    if TrimSpace(s) != "" {
      TrimKeepsTight(TrimSpace(s));
    }
  }

  const WHITE_SPACE := "\t\n\U{0B}\U{0C}\r \U{85}\U{A0}\U{1680}\U{2028}\U{2029}\U{202F}\U{205F}\U{3000}"

  /** The white space of Unicode: the listed characters, and the run from en quad to hair space. */
  lemma SpacesAreWhiteSpace(c: char)
    ensures IsSpace(c) <==> c in WHITE_SPACE || '\U{2000}' <= c <= '\U{200A}'
  {
    assert WHITE_SPACE == ['\t', '\n', '\U{0B}', '\U{0C}', '\r', ' ', '\U{85}', '\U{A0}', '\U{1680}',
                           '\U{2028}', '\U{2029}', '\U{202F}', '\U{205F}', '\U{3000}'];
  }

  predicate AllSpaces(s: string) {
    forall i | 0 <= i < |s| :: IsSpace(s[i])
  }

  lemma {:induction false} TrimLeftDrops(pre: string, t: string)
    requires AllSpaces(pre) && (t == "" || !IsSpace(t[0]))
    ensures TrimLeft(pre + t) == t
  {
    if pre == "" {
      assert pre + t == t;
    } else {
      assert (pre + t)[1..] == pre[1..] + t;
      TrimLeftDrops(pre[1..], t);
    }
  }

  lemma {:induction false} TrimRightDrops(t: string, post: string)
    requires AllSpaces(post) && (t == "" || !IsSpace(t[|t| - 1]))
    ensures TrimRight(t + post) == t
  {
    if post == "" {
      assert t + post == t;
    } else {
      assert (t + post)[..|t + post| - 1] == t + post[..|post| - 1];
      TrimRightDrops(t, post[..|post| - 1]);
    }
  }

  /** Trimming takes the spaces at both ends and nothing else. */
  lemma TrimsOuterSpaces(pre: string, t: string, post: string)
    requires AllSpaces(pre) && AllSpaces(post) && Tight(t)
    ensures TrimSpace(pre + t + post) == t
  {
    assert pre + t + post == pre + (t + post);
    TrimLeftDrops(pre, t + post);
    TrimRightDrops(t, post);
  }

  lemma {:induction false} TrimLeftOfVisible(s: string)
    requires !AllSpaces(s)
    ensures TrimLeft(s) != ""
  {
    if IsSpace(s[0]) {
      TrimLeftOfVisible(s[1..]);
    }
  }

  /** Only a text of nothing but spaces trims to nothing. */
  lemma BlankIffSpaces(s: string)
    ensures TrimSpace(s) == "" <==> AllSpaces(s)
  {
    if AllSpaces(s) {
      TrimLeftDrops(s, "");
      assert s + "" == s;
    } else {
      TrimLeftOfVisible(s);
      TrimLeftShape(s);
      TrimRightShape(TrimLeft(s));
      TrimRightKeepsStart(TrimLeft(s));
    }
  }

  lemma {:induction false} TrimRightKeepsStart(s: string)
    requires s != "" && !IsSpace(s[0])
    ensures TrimRight(s) != ""
  {
    if IsSpace(s[|s| - 1]) {
      TrimRightKeepsStart(s[..|s| - 1]);
    }
  }

  function FoldChar(c: char): char {
    if 'A' <= c <= 'Z' then (c as int + 32) as char else c
  }

  /** `strings.EqualFold` over ASCII letters. */
  predicate EqualFold(s: string, t: string) {
    |s| == |t| && forall i | 0 <= i < |s| :: FoldChar(s[i]) == FoldChar(t[i])
  }

  /** The same character, or one letter in its two cases. */
  predicate SameLetter(c: char, d: char) {
    || c == d
    || ('A' <= c <= 'Z' && 'a' <= d <= 'z' && c as int - 'A' as int == d as int - 'a' as int)
    || ('a' <= c <= 'z' && 'A' <= d <= 'Z' && c as int - 'a' as int == d as int - 'A' as int)
  }

  /** Texts fold together exactly when they differ in the case of letters only. */
  lemma FoldIsCase(s: string, t: string)
    ensures EqualFold(s, t) <==> |s| == |t| && forall i | 0 <= i < |s| :: SameLetter(s[i], t[i])
  {
    if |s| == |t| {
      forall i | 0 <= i < |s| ensures FoldChar(s[i]) == FoldChar(t[i]) <==> SameLetter(s[i], t[i]) {
        CharFoldIsCase(s[i], t[i]);
      }
    }
  }

  lemma CharFoldIsCase(c: char, d: char)
    ensures FoldChar(c) == FoldChar(d) <==> SameLetter(c, d)
  {
  }

  /** `strings.ToLower` over ASCII letters. */
  function ToLower(s: string): (t: string) {
    seq(|s|, i requires 0 <= i < |s| => FoldChar(s[i]))
  }

  predicate OccursAt(s: string, part: string, i: nat) {
    i + |part| <= |s| && s[i..i + |part|] == part
  }

  /** `strings.Contains`. */
  predicate Includes(s: string, part: string) {
    exists i | 0 <= i <= |s| :: OccursAt(s, part, i)
  }

  /** The part occurs in the text, in whatever case. */
  ghost predicate Says(s: string, part: string) {
    exists i, j | 0 <= i <= j <= |s| :: EqualFold(s[i..j], part)
  }

  lemma LowerSays(s: string, part: string)
    requires forall k | 0 <= k < |part| :: FoldChar(part[k]) == part[k]
    ensures Includes(ToLower(s), part) <==> Says(s, part)
  {
    if i :| 0 <= i <= |ToLower(s)| && OccursAt(ToLower(s), part, i) {
      forall k | 0 <= k < |part| ensures FoldChar(s[i..i + |part|][k]) == FoldChar(part[k]) {
        assert ToLower(s)[i..i + |part|][k] == part[k];
      }
      assert EqualFold(s[i..i + |part|], part);
    }
    if i, j :| 0 <= i <= j <= |s| && EqualFold(s[i..j], part) {
      forall k | 0 <= k < |part| ensures ToLower(s)[i..i + |part|][k] == part[k] {
        assert FoldChar(s[i..j][k]) == FoldChar(part[k]);
      }
      assert OccursAt(ToLower(s), part, i);
    }
  }

  function Split(s: string, sep: char): (fields: seq<string>)
    ensures |fields| >= 1
  {
    if s == "" then [""]
    else
      var rest := Split(s[1..], sep);
      if s[0] == sep then [""] + rest else [[s[0]] + rest[0]] + rest[1..]
  }

  lemma {:induction false} SplitWithout(s: string, sep: char)
    requires sep !in s
    ensures Split(s, sep) == [s]
  {
    if s != "" {
      SplitWithout(s[1..], sep);
      assert s == [s[0]] + s[1..];
    }
  }

  lemma {:induction false} SplitAt(s: string, sep: char, rest: string)
    requires sep !in s
    ensures Split(s + [sep] + rest, sep) == [s] + Split(rest, sep)
  {
    var whole := s + [sep] + rest;
    if s == "" {
      assert whole[1..] == rest;
    } else {
      assert whole[1..] == s[1..] + [sep] + rest;
      SplitAt(s[1..], sep, rest);
      assert whole[0] == s[0] && s == [s[0]] + s[1..];
    }
  }

  function Join(fields: seq<string>, sep: char): string
    requires |fields| >= 1
  {
    if |fields| == 1 then fields[0] else fields[0] + [sep] + Join(fields[1..], sep)
  }

  /** Joining the fields a text was split into gives the text. */
  lemma {:induction false} SplitJoins(s: string, sep: char)
    ensures Join(Split(s, sep), sep) == s
    ensures forall i | 0 <= i < |Split(s, sep)| :: sep !in Split(s, sep)[i]
  {
    if s != "" {
      SplitJoins(s[1..], sep);
      var rest := Split(s[1..], sep);
      if s[0] == sep {
        assert Split(s, sep)[1..] == rest;
        assert s == "" + [sep] + s[1..];
      } else {
        assert Split(s, sep)[1..] == rest[1..];
        if |rest| == 1 {
          assert s == [s[0]] + s[1..];
        } else {
          assert s == ([s[0]] + rest[0]) + [sep] + Join(rest[1..], sep);
        }
      }
    }
  }

  /** Splitting joined fields gives the fields. */
  lemma {:induction false} JoinSplits(fields: seq<string>, sep: char)
    requires |fields| >= 1 && forall i | 0 <= i < |fields| :: sep !in fields[i]
    ensures Split(Join(fields, sep), sep) == fields
  {
    if |fields| == 1 {
      SplitWithout(fields[0], sep);
    } else {
      JoinSplits(fields[1..], sep);
      SplitAt(fields[0], sep, Join(fields[1..], sep));
    }
  }

  /** Cuts at the last occurrence of `sep`. */
  function CutLast(s: string, sep: char): Option<(string, string)> {
    if s == "" then None
    else
      var init, last := s[..|s| - 1], s[|s| - 1];
      if last == sep then Some((init, ""))
      else
        match CutLast(init, sep)
        case None => None
        case Some((before, after)) => Some((before, after + [last]))
  }

  lemma {:induction false} CutLastAt(before: string, sep: char, after: string)
    requires sep !in after
    ensures CutLast(before + [sep] + after, sep) == Some((before, after))
  {
    var s := before + [sep] + after;
    if after == "" {
      assert s[..|s| - 1] == before;
    } else {
      assert s[..|s| - 1] == before + [sep] + after[..|after| - 1];
      CutLastAt(before, sep, after[..|after| - 1]);
      assert after == after[..|after| - 1] + [after[|after| - 1]];
    }
  }

  predicate IsDigit(c: char) {
    '0' <= c <= '9'
  }

  function DigitChar(d: nat): (c: char)
    requires d < 10
    ensures IsDigit(c)
  {
    ('0' as int + d) as char
  }

  predicate IsNumeral(s: string) {
    s != "" && forall i | 0 <= i < |s| :: IsDigit(s[i])
  }

  function DigitValue(c: char): nat
    requires IsDigit(c)
  {
    c as int - '0' as int
  }

  function NumeralValue(s: string): nat
    requires forall i | 0 <= i < |s| :: IsDigit(s[i])
  {
    if s == "" then 0
    else 10 * NumeralValue(s[..|s| - 1]) + DigitValue(s[|s| - 1])
  }

  /** `strconv.FormatUint(n, 10)`, and `strconv.Itoa` on naturals. */
  function Decimal(n: nat): string {
    if n < 10 then [DigitChar(n)] else Decimal(n / 10) + [DigitChar(n % 10)]
  }

  /** A printed number reads back, and starts with a zero only when it is zero. */
  lemma {:induction false} DecimalReadsBack(n: nat)
    ensures IsNumeral(Decimal(n))
    ensures NumeralValue(Decimal(n)) == n
    ensures |Decimal(n)| > 1 ==> Decimal(n)[0] != '0'
    ensures n > 0 ==> Decimal(n)[0] != '0'
  {
    if n >= 10 {
      DecimalReadsBack(n / 10);
      var s := Decimal(n);
      assert s[..|s| - 1] == Decimal(n / 10);
    }
  }

  /** A numeral without leading zeros is how its number is printed. */
  lemma {:induction false} NumeralIsDecimal(s: string)
    requires IsNumeral(s) && (|s| == 1 || s[0] != '0')
    ensures Decimal(NumeralValue(s)) == s
  {
    var init, last := s[..|s| - 1], s[|s| - 1];
    if |s| > 1 {
      NumeralIsDecimal(init);
      PositiveNumeral(init);
      DecimalStep(NumeralValue(init), DigitValue(last));
      assert s == init + [last];
    } else {
      assert NumeralValue(init) == 0;
      assert s == [last];
    }
  }

  lemma DecimalStep(n: nat, d: nat)
    requires n > 0 && d < 10
    ensures Decimal(10 * n + d) == Decimal(n) + [DigitChar(d)]
  {
    assert (10 * n + d) / 10 == n && (10 * n + d) % 10 == d;
  }

  lemma {:induction false} PositiveNumeral(s: string)
    requires IsNumeral(s) && s[0] != '0'
    ensures NumeralValue(s) > 0
  {
    if |s| > 1 {
      PositiveNumeral(s[..|s| - 1]);
    }
  }

  lemma DecimalInjective(m: nat, n: nat)
    requires Decimal(m) == Decimal(n)
    ensures m == n
  {
    DecimalReadsBack(m);
    DecimalReadsBack(n);
  }

  lemma DecimalAvoids(n: nat, c: char)
    requires !IsDigit(c)
    ensures c !in Decimal(n)
  {
    DecimalReadsBack(n);
  }

  /** `strconv.ParseUint(s, 10, 64)`. */
  function ParseUint64(s: string): Option<nat> {
    if IsNumeral(s) && NumeralValue(s) <= MAX_UINT64 then Some(NumeralValue(s)) else None
  }

  /** A signed numeral in [-bound-1, bound]: `strconv.ParseInt` at the width that `bound` gives. */
  function ParseSigned(s: string, bound: int): Option<int> {
    var signed := s != "" && (s[0] == '+' || s[0] == '-');
    var digits := if signed then s[1..] else s;
    if !IsNumeral(digits) then None
    else
      var n: int := NumeralValue(digits);
      var v: int := if signed && s[0] == '-' then -n else n;
      if -bound - 1 <= v <= bound then Some(v) else None
  }

  /** `strconv.Atoi` where `int` has 64 bits. */
  function Atoi(s: string): Option<int> {
    ParseSigned(s, MAX_INT64)
  }

  lemma AtoiReadsDecimal(n: nat)
    ensures Atoi(Decimal(n)) == if n <= MAX_INT64 then Some(n) else None
  {
    DecimalReadsBack(n);
  }

  /** The text is these digits, with a minus, a plus or no sign, and denotes n. */
  predicate Spells(s: string, digits: string, n: int) {
    && IsNumeral(digits)
    && (((s == digits || s == "+" + digits) && n == NumeralValue(digits))
        || (s == "-" + digits && n + NumeralValue(digits) == 0))
  }

  /** The text is a number's digits, perhaps after leading zeros and a sign. */
  ghost predicate SpellsInt(s: string, n: int) {
    exists digits :: Spells(s, digits, n)
  }

  /** Reading a signed numeral gives n exactly when the text spells n and n fits the width. */
  lemma SignedIsSpelled(s: string, bound: int, n: int)
    ensures ParseSigned(s, bound) == Some(n) <==> SpellsInt(s, n) && -bound - 1 <= n <= bound
  {
    if ParseSigned(s, bound) == Some(n) {
      if s[0] == '+' || s[0] == '-' {
        assert s == [s[0]] + s[1..];
        assert Spells(s, s[1..], n);
      } else {
        assert Spells(s, s, n);
      }
    }
    if digits :| Spells(s, digits, n) {
      assert s != digits ==> s[1..] == digits;
      assert IsDigit(digits[0]);
    }
  }

  lemma UnsignedReadsDecimal(n: nat)
    ensures ParseUint64(Decimal(n)) == if n < 0x1_0000_0000_0000_0000 then Some(n) else None
  {
    DecimalReadsBack(n);
  }

  // ---------- optional fields ----------

  /** An optional field of a request: absent when the input is empty. */
  function Given(s: string): Option<string> {
    if s == "" then None else Some(s)
  }
}
