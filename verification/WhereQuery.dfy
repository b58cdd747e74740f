/**
 Building clauses: escaping values into literals, splicing a fixed filter with a user's
 clause, and the equality filters of the guards and lookups with the appliance's reading of them.
 */
module WhereQuery {
  import opened Wrappers
  import opened Validation
  import opened WhereClause

  // ---------- escaping ----------

  /** `strings.ReplaceAll` of a one-byte pattern. */
  function ReplaceAll(s: string, c: char, with: string): string {
    if s == "" then "" else (if s[0] == c then with else [s[0]]) + ReplaceAll(s[1..], c, with)
  }

  function EscapeWhereValue(s: string): string {
    ReplaceAll(ReplaceAll(s, BACKSLASH, [BACKSLASH, BACKSLASH]), QUOTE, [BACKSLASH, QUOTE])
  }

  function EscapeChar(c: char): string {
    if c == BACKSLASH || c == QUOTE then [BACKSLASH, c] else [c]
  }

  /** One pass, character by character. */
  function EscapeEach(s: string): string {
    if s == "" then "" else EscapeChar(s[0]) + EscapeEach(s[1..])
  }

  function Unescape(s: string): string {
    if s == "" then ""
    else if s[0] == BACKSLASH && |s| > 1 then [s[1]] + Unescape(s[2..])
    else [s[0]] + Unescape(s[1..])
  }

  lemma {:induction false} ReplaceConcat(s: string, t: string, c: char, with: string)
    ensures ReplaceAll(s + t, c, with) == ReplaceAll(s, c, with) + ReplaceAll(t, c, with)
  {
    if s == "" {
      assert s + t == t;
    } else {
      assert (s + t)[1..] == s[1..] + t;
      ReplaceConcat(s[1..], t, c, with);
    }
  }

  /** Two passes over the whole value are one pass per character: the second never meets what the first wrote. */
  lemma {:induction false} TwoPassesAreOne(s: string)
    ensures EscapeWhereValue(s) == EscapeEach(s)
  {
    if s != "" {
      var head := if s[0] == BACKSLASH then [BACKSLASH, BACKSLASH] else [s[0]];
      var tail := ReplaceAll(s[1..], BACKSLASH, [BACKSLASH, BACKSLASH]);
      ReplaceConcat(head, tail, QUOTE, [BACKSLASH, QUOTE]);
      TwoPassesAreOne(s[1..]);
      assert head[1..] == if s[0] == BACKSLASH then [BACKSLASH] else [];
      assert ReplaceAll(head, QUOTE, [BACKSLASH, QUOTE]) == EscapeChar(s[0]);
    }
  }

  lemma {:induction false} UnescapeEscapeEach(s: string)
    ensures Unescape(EscapeEach(s)) == s
  {
    if s != "" {
      var e := EscapeEach(s);
      UnescapeEscapeEach(s[1..]);
      if |EscapeChar(s[0])| == 2 {
        assert e[2..] == EscapeEach(s[1..]);
      } else {
        assert e[1..] == EscapeEach(s[1..]);
      }
    }
  }

  /** Escaping is undone by unescaping, on every value. */
  lemma UnescapeUndoesEscape(s: string)
    ensures Unescape(EscapeWhereValue(s)) == s
  {
    TwoPassesAreOne(s);
    UnescapeEscapeEach(s);
  }

  lemma EscapeIsInjective(s: string, t: string)
    requires EscapeWhereValue(s) == EscapeWhereValue(t)
    ensures s == t
  {
    UnescapeUndoesEscape(s);
    UnescapeUndoesEscape(t);
  }

  // ---------- literals ----------

  /** The value a literal denotes. */
  function LiteralValue(l: Literal): string {
    match l
    case Close => ""
    case Char(c, rest) => [c] + LiteralValue(rest)
    case Escaped(c, rest) => [c] + LiteralValue(rest)
  }

  /** The literal that escaping writes for a value. */
  function LiteralOf(v: string): Literal {
    if v == "" then Close
    else if v[0] == BACKSLASH || v[0] == QUOTE then Escaped(v[0], LiteralOf(v[1..]))
    else Char(v[0], LiteralOf(v[1..]))
  }

  lemma {:induction false} LiteralOfPrints(v: string)
    ensures ProperLiteral(LiteralOf(v))
    ensures PrintLiteral(LiteralOf(v)) == EscapeWhereValue(v) + [QUOTE]
    ensures LiteralValue(LiteralOf(v)) == v
  {
    TwoPassesAreOne(v);
    if v != "" {
      LiteralOfPrints(v[1..]);
      TwoPassesAreOne(v[1..]);
      assert EscapeEach(v) == EscapeChar(v[0]) + EscapeEach(v[1..]);
      assert PrintLiteral(LiteralOf(v)) == EscapeChar(v[0]) + (EscapeEach(v[1..]) + [QUOTE]);
    }
  }

  // ---------- the equality filters ----------

  /** One `column='value'` of a filter. */
  datatype Equality = Equality(column: string, value: string)

  /** Equalities that must all hold. */
  type Filter = seq<Equality>

  function EqualityText(e: Equality): string {
    e.column + "='" + EscapeWhereValue(e.value) + "'"
  }

  function AndText(f: Filter): string {
    if f == [] then "" else " AND " + EqualityText(f[0]) + AndText(f[1..])
  }

  /** A filter as the guards and lookups write it, with every value escaped. */
  function FilterText(f: Filter): string
    requires f != []
  {
    EqualityText(f[0]) + AndText(f[1..])
  }

  /** The guards' member query, `c1='...' AND c2='...'`. */
  function MemberQuery(c1: string, v: string, c2: string, w: string): string {
    c1 + "='" + EscapeWhereValue(v) + "' AND " + c2 + "='" + EscapeWhereValue(w) + "'"
  }

  predicate PlainText(s: string) {
    forall i | 0 <= i < |s| :: !IsSpecial(s[i])
  }

  predicate PlainColumns(f: Filter) {
    forall i | 0 <= i < |f| :: PlainText(f[i].column)
  }

  function PlainThen(s: string, rest: Clause): Clause {
    if s == "" then rest else Plain(s[0], PlainThen(s[1..], rest))
  }

  lemma {:induction false} PlainThenPrints(s: string, rest: Clause)
    requires PlainText(s) && Proper(rest)
    ensures Proper(PlainThen(s, rest))
    ensures Print(PlainThen(s, rest)) == s + Print(rest)
  {
    if s != "" {
      PlainThenPrints(s[1..], rest);
    }
  }

  /** The plain bytes at the front of a clause. */
  function LeadingText(t: Clause): (r: (string, Clause))
    ensures r.1 == t || r.1 < t
  {
    match t
    case Plain(c, rest) =>
      var (text, after) := LeadingText(rest);
      ([c] + text, after)
    case _ => ("", t)
  }

  lemma {:induction false} LeadingPlainThen(s: string, rest: Clause)
    requires !rest.Plain?
    ensures LeadingText(PlainThen(s, rest)) == (s, rest)
  {
    if s != "" {
      LeadingPlainThen(s[1..], rest);
      assert s == [s[0]] + s[1..];
    }
  }

  /** Reads `text='literal'`: the text before the equals sign, the literal's value, and what follows. */
  function ReadEquality(t: Clause): (r: Option<(string, string, Clause)>)
    ensures r.Some? ==> r.value.2 < t
  {
    var (text, after) := LeadingText(t);
    if after.Quoted? && text != "" && text[|text| - 1] == '='
    then Some((text[..|text| - 1], LiteralValue(after.body), after.rest))
    else None
  }

  function ReadAnds(t: Clause): Option<Filter>
    decreases t
  {
    if t == Empty then Some([])
    else
      match ReadEquality(t)
      case None => None
      case Some((text, v, after)) =>
        if |text| < 5 || text[..5] != " AND " then None
        else
          match ReadAnds(after)
          case None => None
          case Some(rest) => Some([Equality(text[5..], v)] + rest)
  }

  /** How the appliance reads a conjunction of equalities; none when the clause is not one. */
  function ReadConjunction(where: string): Option<Filter> {
    var (t, stuck) := Parse(where);
    if stuck != "" then None
    else
      match ReadEquality(t)
      case None => None
      case Some((c, v, after)) =>
        match ReadAnds(after)
        case None => None
        case Some(rest) => Some([Equality(c, v)] + rest)
  }

  function EqualityTree(text: string, v: string, rest: Clause): Clause {
    PlainThen(text + "=", Quoted(LiteralOf(v), rest))
  }

  lemma EqualityTreeReads(text: string, v: string, rest: Clause)
    ensures ReadEquality(EqualityTree(text, v, rest)) == Some((text, v, rest))
    ensures EqualityTree(text, v, rest) != Empty
  {
    LiteralOfPrints(v);
    LeadingPlainThen(text + "=", Quoted(LiteralOf(v), rest));
    assert (text + "=")[..|text + "="| - 1] == text;
  }

  lemma EqualityTreePrints(text: string, v: string, rest: Clause)
    requires PlainText(text) && Proper(rest)
    ensures Proper(EqualityTree(text, v, rest))
    ensures Print(EqualityTree(text, v, rest)) == text + "='" + EscapeWhereValue(v) + "'" + Print(rest)
  {
    var quoted := Quoted(LiteralOf(v), rest);
    LiteralOfPrints(v);
    PlainThenPrints(text + "=", quoted);
    assert Print(quoted) == [QUOTE] + ((EscapeWhereValue(v) + [QUOTE]) + Print(rest));
    EqualityParts(text, EscapeWhereValue(v), Print(rest));
  }

  lemma EqualityParts(text: string, e: string, p: string)
    ensures (text + "=") + ([QUOTE] + ((e + [QUOTE]) + p)) == text + "='" + e + "'" + p
  {
  }

  function AndTree(f: Filter): Clause {
    if f == [] then Empty else EqualityTree(" AND " + f[0].column, f[0].value, AndTree(f[1..]))
  }

  /** The derivation of a filter: one literal for each equality, and nothing else quoted. */
  function FilterTree(f: Filter): Clause
    requires f != []
  {
    EqualityTree(f[0].column, f[0].value, AndTree(f[1..]))
  }

  lemma {:induction false} AndTreeReads(f: Filter)
    ensures ReadAnds(AndTree(f)) == Some(f)
  {
    if f != [] {
      var text := " AND " + f[0].column;
      AndTreeReads(f[1..]);
      EqualityTreeReads(text, f[0].value, AndTree(f[1..]));
      assert text[..5] == " AND " && text[5..] == f[0].column;
      assert f == [f[0]] + f[1..];
    }
  }

  lemma {:induction false} AndTreePrints(f: Filter)
    requires PlainColumns(f)
    ensures Proper(AndTree(f)) && Print(AndTree(f)) == AndText(f)
  {
    if f != [] {
      AndTreePrints(f[1..]);
      EqualityTreePrints(" AND " + f[0].column, f[0].value, AndTree(f[1..]));
      AndParts(f[0], AndText(f[1..]));
    }
  }

  lemma AndParts(e: Equality, p: string)
    ensures (" AND " + e.column) + "='" + EscapeWhereValue(e.value) + "'" + p == " AND " + EqualityText(e) + p
  {
  }

  /**
   Building a filter and reading it back is the identity, whatever the values hold: it is as many
   literals as there are equalities, denoting the values given, nothing of a value leaves its
   literal, and no escape is pending.
   */
  lemma FilterReadsBack(f: Filter)
    requires f != [] && PlainColumns(f)
    ensures Parse(FilterText(f)) == (FilterTree(f), "")
    ensures ReadConjunction(FilterText(f)) == Some(f)
    ensures Scan(START, FilterText(f)) == START
  {
    var rest := AndTree(f[1..]);
    AndTreePrints(f[1..]);
    EqualityTreePrints(f[0].column, f[0].value, rest);
    PrintedParses(FilterTree(f), "");
    assert FilterText(f) + "" == FilterText(f);
    AndTreeReads(f[1..]);
    EqualityTreeReads(f[0].column, f[0].value, rest);
    assert f == [f[0]] + f[1..];
    ClauseScans(FilterTree(f), 0);
  }

  predicate NoNuls(f: Filter) {
    forall i | 0 <= i < |f| :: NUL !in f[i].column && NUL !in f[i].value
  }

  /** A filter of NUL-free texts always passes the validator. */
  lemma FilterIsAccepted(f: Filter)
    requires f != [] && PlainColumns(f) && NoNuls(f)
    ensures Accepted(FilterText(f)) && !Dangling(FilterText(f))
  {
    FilterReadsBack(f);
    NoNulEquality(f[0]);
    NoNulAnds(f[1..]);
  }

  lemma NoNulEquality(e: Equality)
    requires NUL !in e.column && NUL !in e.value
    ensures NUL !in EqualityText(e)
  {
    NoNulEscaped(e.value);
  }

  lemma {:induction false} NoNulAnds(f: Filter)
    requires NoNuls(f)
    ensures NUL !in AndText(f)
  {
    if f != [] {
      NoNulEquality(f[0]);
      NoNulAnds(f[1..]);
    }
  }

  lemma {:induction false} NoNulEscaped(v: string)
    requires NUL !in v
    ensures NUL !in EscapeWhereValue(v)
  {
    TwoPassesAreOne(v);
    if v != "" {
      NoNulEscaped(v[1..]);
      TwoPassesAreOne(v[1..]);
    }
  }

  /** Appending one more equality to a filter's text. */
  lemma FilterGrows(f: Filter, e: Equality)
    requires f != []
    ensures FilterText(f + [e]) == FilterText(f) + " AND " + EqualityText(e)
  {
    AndGrows(f[1..], e);
    assert (f + [e])[1..] == f[1..] + [e];
  }

  lemma {:induction false} AndGrows(f: Filter, e: Equality)
    ensures AndText(f + [e]) == AndText(f) + " AND " + EqualityText(e)
  {
    if f == [] {
      assert (f + [e])[1..] == [];
      assert AndText(f + [e]) == " AND " + EqualityText(e) + "";
    } else {
      AndGrows(f[1..], e);
      assert (f + [e])[1..] == f[1..] + [e];
    }
  }

  lemma MemberQueryIsFilter(c1: string, v: string, c2: string, w: string)
    ensures MemberQuery(c1, v, c2, w) == FilterText([Equality(c1, v), Equality(c2, w)])
  {
    var f := [Equality(c1, v), Equality(c2, w)];
    assert f[1..] == [f[1]] && f[1..][1..] == [];
    assert AndText(f[1..]) == " AND " + EqualityText(f[1]) + "";
    MemberParts(EqualityText(f[0]), c1, EscapeWhereValue(v), c2, EscapeWhereValue(w));
  }

  lemma MemberParts(first: string, c1: string, e: string, c2: string, h: string)
    requires first == c1 + "='" + e + "'"
    ensures c1 + "='" + e + "' AND " + c2 + "='" + h + "'" == first + (" AND " + (c2 + "='" + h + "'") + "")
  {
  }

  /** Both columns and both values of a member query read back, and it passes the validator. */
  lemma QueryReadsBack(c1: string, v: string, c2: string, w: string)
    requires PlainText(c1) && PlainText(c2)
    ensures Parse(MemberQuery(c1, v, c2, w)) == (FilterTree([Equality(c1, v), Equality(c2, w)]), "")
    ensures ReadConjunction(MemberQuery(c1, v, c2, w)) == Some([Equality(c1, v), Equality(c2, w)])
    ensures !Dangling(MemberQuery(c1, v, c2, w))
    ensures NUL !in c1 + v + c2 + w ==> Accepted(MemberQuery(c1, v, c2, w))
  {
    var f := [Equality(c1, v), Equality(c2, w)];
    MemberQueryIsFilter(c1, v, c2, w);
    FilterReadsBack(f);
    if NUL !in c1 + v + c2 + w {
      assert NUL !in c1 && NUL !in c2 && NUL !in v && NUL !in w;
      FilterIsAccepted(f);
    }
  }

  // ---------- splicing ----------

  function CombineWhereClause(fixed: string, user: string): string {
    if fixed == "" then user
    else if user == "" then fixed
    else "(" + fixed + ") AND (" + user + ")"
  }

  function Deeper(st: ScanState): ScanState {
    match st
    case Unbalanced => Unbalanced
    case Scanning(e, q, d) => Scanning(e, q, d + 1)
  }

  /** One level down, a clause that never closes more than it opens scans the same. */
  lemma {:induction false} ScanDeeper(st: ScanState, s: string)
    requires Scan(st, s).Scanning?
    ensures Scan(Deeper(st), s) == Deeper(Scan(st, s))
    decreases s
  {
    if s != "" {
      if ScanByte(st, s[0]).Unbalanced? {
        UnbalancedStays(s[1..]);
        assert false;
      }
      ScanDeeper(ScanByte(st, s[0]), s[1..]);
    } else if st.Unbalanced? {
      assert false;
    }
  }

  lemma PrefixScans(s: string, k: nat)
    requires k <= |s| && Scan(START, s).Scanning?
    ensures Scan(START, s[..k]).Scanning?
  {
    ScanConcat(START, s[..k], s[k..]);
    assert s[..k] + s[k..] == s;
    UnbalancedStays(s[k..]);
  }

  /** After the fixed part and the opening of the user part. */
  lemma ScanOpened(fixed: string)
    requires Accepted(fixed)
    ensures Scan(START, "(" + fixed + ") AND (") == Scanning(false, false, if Dangling(fixed) then 2 else 1)
  {
    ScanOpen(fixed + ") AND (");
    assert "(" + (fixed + ") AND (") == "(" + fixed + ") AND (";
    ScanConcat(Scanning(false, false, 1), fixed, ") AND (");
    ScanDeeper(START, fixed);
    ScanJoint(Dangling(fixed));
  }

  lemma ScanOpen(s: string)
    ensures Scan(START, "(" + s) == Scan(Scanning(false, false, 1), s)
  {
    assert ("(" + s)[1..] == s;
  }

  lemma ScanJoint(escaped: bool)
    ensures Scan(Scanning(escaped, false, 1), ") AND (") == Scanning(false, false, if escaped then 2 else 1)
  {
    var d := if escaped then 1 else 0;
    var st := Scanning(false, false, d);
    assert ") AND ("[1..] == " AND (";
    assert " AND ("[1..] == "AND (";
    assert "AND ("[1..] == "ND (";
    assert "ND ("[1..] == "D (";
    assert "D ("[1..] == " (";
    assert " ("[1..] == "(";
    assert "("[1..] == "";
    assert ScanByte(Scanning(escaped, false, 1), ')') == st;
    assert Scan(st, "(") == Scanning(false, false, d + 1);
    assert Scan(st, " (") == Scan(st, "(");
    assert Scan(st, "D (") == Scan(st, " (");
    assert Scan(st, "ND (") == Scan(st, "D (");
    assert Scan(st, "AND (") == Scan(st, "ND (");
    assert Scan(st, " AND (") == Scan(st, "AND (");
  }

  /** Every position of the user part is inside the parenthesis opened for it. */
  lemma UserPartStaysInside(fixed: string, user: string, k: nat)
    requires Accepted(fixed) && Accepted(user) && k <= |user|
    ensures
      var st := Scan(START, "(" + fixed + ") AND (" + user[..k]);
      st.Scanning? && st.depth >= 1
  {
    var front := "(" + fixed + ") AND (";
    var d := if Dangling(fixed) then 2 else 1;
    ScanOpened(fixed);
    ScanConcat(START, front, user[..k]);
    PrefixScans(user, k);
    ScanDeeper(START, user[..k]);
    if d == 2 {
      ScanDeeper(Scanning(false, false, 1), user[..k]);
    }
  }

  /**
   The spliced clause is accepted exactly when neither part ends in the middle of an escape, that is,
   in an odd run of backslashes.
   */
  lemma SpliceIsAccepted(fixed: string, user: string)
    requires fixed != "" && user != ""
    requires Accepted(fixed) && Accepted(user)
    ensures Accepted(CombineWhereClause(fixed, user)) <==> !Dangling(fixed) && !Dangling(user)
    ensures Accepted(CombineWhereClause(fixed, user)) <==>
      TrailingBackslashes(fixed) % 2 == 0 && TrailingBackslashes(user) % 2 == 0
  {
    DanglingIffOddRun(fixed);
    DanglingIffOddRun(user);
    var front := "(" + fixed + ") AND (";
    var all := front + user + ")";
    var d := if Dangling(fixed) then 2 else 1;
    ScanOpened(fixed);
    ScanConcat(START, front, user);
    ScanConcat(START, front + user, ")");
    ScanDeeper(START, user);
    if d == 2 {
      ScanDeeper(Scanning(false, false, 1), user);
    }
    assert Scan(START, front + user) == Scanning(Dangling(user), false, d);
    assert ")"[1..] == "";
    assert Scan(START, all) == ScanByte(Scanning(Dangling(user), false, d), ')');
    assert NUL !in all;
  }

  /** A lone backslash is accepted, ends in the middle of an escape, and cannot be spliced on either side. */
  lemma LoneBackslash()
    ensures Accepted([BACKSLASH]) && Dangling([BACKSLASH]) && Accepted("x")
    ensures !Accepted(CombineWhereClause("x", [BACKSLASH])) && !Accepted(CombineWhereClause([BACKSLASH], "x"))
  {
    assert [BACKSLASH][1..] == "" && "x"[1..] == "";
    SpliceIsAccepted("x", [BACKSLASH]);
    SpliceIsAccepted([BACKSLASH], "x");
  }

  lemma BothParse(fixed: string, user: string)
    requires fixed != "" && user != ""
    requires Accepted(fixed) && Accepted(user) && !Dangling(fixed) && !Dangling(user)
    ensures
      Parse(CombineWhereClause(fixed, user)) ==
      (Group(Parse(fixed).0, PlainThen(" AND ", Group(Parse(user).0, Empty))), "")
  {
    var tree := Group(Parse(fixed).0, PlainThen(" AND ", Group(Parse(user).0, Empty)));
    ScannerDecidesGrammar(fixed);
    ScannerDecidesGrammar(user);
    assert fixed == Print(Parse(fixed).0) && user == Print(Parse(user).0);
    SplicePrints(Parse(fixed).0, Parse(user).0);
    PrintedParses(tree, "");
    assert Print(tree) + "" == Print(tree);
  }

  /** No part, the part itself, or both parts in parentheses around an AND. */
  function Conjunction(parts: seq<Clause>): Clause
    requires |parts| <= 2
  {
    if |parts| == 0 then Empty
    else if |parts| == 1 then parts[0]
    else Group(parts[0], PlainThen(" AND ", Group(parts[1], Empty)))
  }

  /**
   With no pending escapes, the spliced clause is accepted and derives as the conjunction of the trees
   of exactly those parts that are not empty.
   */
  lemma SpliceParses(fixed: string, user: string)
    requires Accepted(fixed) && Accepted(user) && !Dangling(fixed) && !Dangling(user)
    ensures
      var parts :=
        (if fixed != "" then [Parse(fixed).0] else []) + (if user != "" then [Parse(user).0] else []);
      Parse(CombineWhereClause(fixed, user)) == (Conjunction(parts), "")
    ensures Accepted(CombineWhereClause(fixed, user)) && !Dangling(CombineWhereClause(fixed, user))
  {
    if fixed != "" && user != "" {
      BothParse(fixed, user);
      SpliceIsAccepted(fixed, user);
      LastByteCloses(fixed, user);
    } else {
      WholeClauseParses(fixed);
      WholeClauseParses(user);
    }
  }

  /** A clause that is accepted and ends outside escapes is derived to its end. */
  lemma WholeClauseParses(s: string)
    requires Accepted(s) && !Dangling(s)
    ensures Parse(s).1 == ""
  {
    ScannerDecidesGrammar(s);
    ParsePrintsBack(s);
  }

  /** A reading of clauses by rows in which no condition selects the row and AND selects as both its sides do. */
  ghost predicate ReadsAnd<Row>(selects: (Clause, Row) -> bool, row: Row) {
    && selects(Empty, row)
    && forall t: Clause, u: Clause ::
         selects(Group(t, PlainThen(" AND ", Group(u, Empty))), row) <==> selects(t, row) && selects(u, row)
  }

  /** However clauses select rows, the spliced clause selects a row exactly when each of its parts does. */
  lemma SpliceSelectsBoth<Row>(fixed: string, user: string, selects: (Clause, Row) -> bool, row: Row)
    requires Accepted(fixed) && Accepted(user) && !Dangling(fixed) && !Dangling(user)
    requires ReadsAnd(selects, row)
    ensures
      selects(Parse(CombineWhereClause(fixed, user)).0, row) <==>
      selects(Parse(fixed).0, row) && selects(Parse(user).0, row)
  {
    SpliceParses(fixed, user);
    assert Parse("").0 == Empty;
  }

  lemma SplicePrints(t: Clause, u: Clause)
    requires Proper(t) && Proper(u)
    ensures
      var tree := Group(t, PlainThen(" AND ", Group(u, Empty)));
      Proper(tree) && Print(tree) == "(" + Print(t) + ") AND (" + Print(u) + ")"
  {
    var rest := PlainThen(" AND ", Group(u, Empty));
    PlainThenPrints(" AND ", Group(u, Empty));
    assert Print(Empty) == "";
    assert Print(Group(u, Empty)) == "(" + (Print(u) + (")" + ""));
    assert Print(Group(t, rest)) == "(" + (Print(t) + (")" + Print(rest)));
    SpliceText(Print(t), Print(u));
  }

  lemma SpliceText(a: string, b: string)
    ensures "(" + (a + (")" + (" AND " + ("(" + (b + (")" + "")))))) == "(" + a + ") AND (" + b + ")"
  {
    var tail := b + ")";
    assert b + (")" + "") == tail;
    assert ")" + (" AND " + ("(" + tail)) == ") AND (" + tail;
    assert "(" + (a + (") AND (" + tail)) == "(" + a + ") AND (" + b + ")";
  }

  /** With no pending escapes, the user part's opening parenthesis is closed by the last byte and by no earlier one. */
  lemma LastByteCloses(fixed: string, user: string)
    requires fixed != "" && user != ""
    requires Accepted(fixed) && Accepted(user) && !Dangling(fixed) && !Dangling(user)
    ensures
      var all := CombineWhereClause(fixed, user);
      && Scan(START, all) == START
      && forall k | |fixed| + 8 <= k < |all| :: Scan(START, all[..k]).Scanning? && Scan(START, all[..k]).depth >= 1
  {
    var front := "(" + fixed + ") AND (";
    var all := CombineWhereClause(fixed, user);
    assert all == front + user + ")" && |front| == |fixed| + 8;
    forall k | |front| <= k < |all|
      ensures Scan(START, all[..k]).Scanning? && Scan(START, all[..k]).depth >= 1
    {
      UserPartStaysInside(fixed, user, k - |front|);
      assert all[..k] == front + user[..k - |front|];
    }
    ScanOpened(fixed);
    ScanConcat(START, front, user);
    ScanConcat(START, front + user, ")");
    ScanDeeper(START, user);
    assert ")"[1..] == "";
  }
}
