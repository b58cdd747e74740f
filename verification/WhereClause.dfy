/**
 The WHERE-clause dialect: the scanner behind `ValidateWhereClause`, and the grammar it decides.
 The code scans bytes; a character here stands for one byte.
 */
module WhereClause {
  import opened Wrappers
  import opened Validation

  const BACKSLASH: char := '\\'
  const QUOTE: char := '\''

  // ---------- the scanner ----------

  datatype ScanState = Scanning(escaped: bool, inQuote: bool, depth: nat) | Unbalanced

  const START := Scanning(false, false, 0)

  function ScanByte(st: ScanState, ch: char): ScanState {
    match st
    case Unbalanced => Unbalanced
    case Scanning(true, q, d) => Scanning(false, q, d)
    case Scanning(false, q, d) =>
      if ch == BACKSLASH then Scanning(true, q, d)
      else if ch == QUOTE then Scanning(false, !q, d)
      else if ch == '(' && !q then Scanning(false, q, d + 1)
      else if ch == ')' && !q then (if d == 0 then Unbalanced else Scanning(false, q, d - 1))
      else st
  }

  function Scan(st: ScanState, s: string): ScanState
    decreases s
  {
    if s == "" then st else Scan(ScanByte(st, s[0]), s[1..])
  }

  lemma {:induction false} ScanConcat(st: ScanState, s: string, t: string)
    ensures Scan(st, s + t) == Scan(Scan(st, s), t)
    decreases s
  {
    if s == "" {
      assert s + t == t;
    } else {
      assert (s + t)[1..] == s[1..] + t;
      ScanConcat(ScanByte(st, s[0]), s[1..], t);
    }
  }

  lemma {:induction false} UnbalancedStays(s: string)
    ensures Scan(Unbalanced, s) == Unbalanced
  {
    if s != "" {
      UnbalancedStays(s[1..]);
    }
  }

  /** `scanWhereClauseTokens`; `unbalanced` is its error. */
  method ScanWhereClauseTokens(where: string) returns (inSingleQuote: bool, parens: int, unbalanced: bool)
    ensures unbalanced <==> Scan(START, where).Unbalanced?
    ensures !unbalanced ==>
      parens >= 0 && Scan(START, where) == Scanning(Scan(START, where).escaped, inSingleQuote, parens)
  {
    inSingleQuote, parens, unbalanced := false, 0, false;
    var escaped := false;
    for i := 0 to |where|
      invariant parens >= 0
      invariant Scan(Scanning(escaped, inSingleQuote, parens), where[i..]) == Scan(START, where)
    {
      var ch := where[i];
      assert where[i..][1..] == where[i + 1..];
      if escaped {
        escaped := false;
        continue;
      }
      if ch == BACKSLASH {
        escaped := true;
      } else if ch == QUOTE {
        inSingleQuote := !inSingleQuote;
      } else if ch == '(' {
        if !inSingleQuote {
          parens := parens + 1;
        }
      } else if ch == ')' {
        if !inSingleQuote {
          parens := parens - 1;
          if parens < 0 {
            UnbalancedStays(where[i + 1..]);
            unbalanced := true;
            return;
          }
        }
      }
    }
  }

  /** What the validator accepts. */
  ghost predicate Accepted(s: string) {
    && NUL !in s
    && Scan(START, s).Scanning?
    && !Scan(START, s).inQuote
    && Scan(START, s).depth == 0
  }

  /** An accepted clause may still end in the middle of an escape. */
  ghost predicate Dangling(s: string) {
    Scan(START, s).Scanning? && Scan(START, s).escaped
  }

  /** How many backslashes a text ends in. */
  function TrailingBackslashes(s: string): nat {
    if s != "" && s[|s| - 1] == BACKSLASH then 1 + TrailingBackslashes(s[..|s| - 1]) else 0
  }

  /** A text that scans ends in the middle of an escape exactly when it ends in an odd run of backslashes. */
  lemma {:induction false} DanglingIffOddRun(s: string)
    requires Scan(START, s).Scanning?
    ensures Dangling(s) <==> TrailingBackslashes(s) % 2 == 1
  {
    if s != "" {
      var init, last := s[..|s| - 1], s[|s| - 1];
      ScanConcat(START, init, [last]);
      assert init + [last] == s && [last][1..] == "";
      DanglingIffOddRun(init);
    }
  }

  method ValidateWhereClause(where: string) returns (ok: bool)
    ensures ok <==> Accepted(where)
  {
    if where == "" {
      return true;
    }
    if NUL in where {
      return false;
    }
    var inSingleQuote, parens, unbalanced := ScanWhereClauseTokens(where);
    if unbalanced {
      return false;
    }
    if inSingleQuote {
      return false;
    }
    if parens != 0 {
      return false;
    }
    return true;
  }

  // ---------- the grammar ----------

  /** The rest of a quoted literal, up to its closing quote. */
  datatype Literal = Close | Char(c: char, rest: Literal) | Escaped(c: char, rest: Literal)

  /** A clause: plain bytes, backslash pairs, quoted literals, clauses in parentheses. */
  datatype Clause =
    | Empty
    | Plain(c: char, rest: Clause)
    | Pair(c: char, rest: Clause)
    | Quoted(body: Literal, rest: Clause)
    | Group(inner: Clause, rest: Clause)

  predicate IsSpecial(c: char) {
    c == BACKSLASH || c == QUOTE || c == '(' || c == ')'
  }

  predicate ProperLiteral(l: Literal) {
    match l
    case Close => true
    case Char(c, rest) => c != BACKSLASH && c != QUOTE && ProperLiteral(rest)
    case Escaped(_, rest) => ProperLiteral(rest)
  }

  predicate Proper(t: Clause) {
    match t
    case Empty => true
    case Plain(c, rest) => !IsSpecial(c) && Proper(rest)
    case Pair(_, rest) => Proper(rest)
    case Quoted(body, rest) => ProperLiteral(body) && Proper(rest)
    case Group(inner, rest) => Proper(inner) && Proper(rest)
  }

  function PrintLiteral(l: Literal): string {
    match l
    case Close => [QUOTE]
    case Char(c, rest) => [c] + PrintLiteral(rest)
    case Escaped(c, rest) => [BACKSLASH, c] + PrintLiteral(rest)
  }

  function Print(t: Clause): string {
    match t
    case Empty => ""
    case Plain(c, rest) => [c] + Print(rest)
    case Pair(c, rest) => [BACKSLASH, c] + Print(rest)
    case Quoted(body, rest) => [QUOTE] + (PrintLiteral(body) + Print(rest))
    case Group(inner, rest) => ['('] + (Print(inner) + ([')'] + Print(rest)))
  }

  /** Derivable: a clause of the grammar, perhaps followed by one dangling backslash. */
  ghost predicate Derivable(s: string) {
    exists t: Clause :: Proper(t) && (s == Print(t) || s == Print(t) + [BACKSLASH])
  }

  // ---------- the parser ----------

  function ParseLiteral(s: string): (r: Option<(Literal, string)>)
    ensures r.Some? ==> |r.value.1| < |s|
  {
    if s == "" then None
    else if s[0] == QUOTE then Some((Close, s[1..]))
    else if s[0] == BACKSLASH then
      if |s| == 1 then None
      else
        match ParseLiteral(s[2..])
        case None => None
        case Some((l, after)) => Some((Escaped(s[1], l), after))
    else
      match ParseLiteral(s[1..])
      case None => None
      case Some((l, after)) => Some((Char(s[0], l), after))
  }

  /** The longest clause at the front, and what could not be read after it. */
  function Parse(s: string): (r: (Clause, string))
    ensures |r.1| <= |s|
    decreases |s|
  {
    if s == "" then (Empty, "")
    else if s[0] == BACKSLASH then
      if |s| == 1 then (Empty, s)
      else
        var (t, stuck) := Parse(s[2..]);
        (Pair(s[1], t), stuck)
    else if s[0] == QUOTE then
      match ParseLiteral(s[1..])
      case None => (Empty, s)
      case Some((l, after)) =>
        var (t, stuck) := Parse(after);
        (Quoted(l, t), stuck)
    else if s[0] == '(' then
      var (inner, after) := Parse(s[1..]);
      if after != "" && after[0] == ')' then
        var (t, stuck) := Parse(after[1..]);
        (Group(inner, t), stuck)
      else (Empty, s)
    else if s[0] == ')' then (Empty, s)
    else
      var (t, stuck) := Parse(s[1..]);
      (Plain(s[0], t), stuck)
  }

  /** Where the parser can stop. */
  predicate IsStuck(s: string) {
    || s == ""
    || s == [BACKSLASH]
    || s[0] == ')'
    || (s[0] == QUOTE && ParseLiteral(s[1..]) == None)
    || (s[0] == '(' && (Parse(s[1..]).1 == "" || Parse(s[1..]).1[0] != ')'))
  }

  lemma {:induction false} LiteralPrintsBack(s: string)
    requires ParseLiteral(s).Some?
    ensures
      var (l, after) := ParseLiteral(s).value;
      ProperLiteral(l) && PrintLiteral(l) + after == s
  {
    if s[0] == BACKSLASH {
      LiteralPrintsBack(s[2..]);
    } else if s[0] != QUOTE {
      LiteralPrintsBack(s[1..]);
    }
  }

  /** The parse tree prints back to the text it was read from. */
  lemma {:induction false} ParsePrintsBack(s: string)
    ensures Proper(Parse(s).0)
    ensures Print(Parse(s).0) + Parse(s).1 == s
    ensures IsStuck(Parse(s).1)
    decreases |s|, 1
  {
    if s == "" {
    } else if s[0] == BACKSLASH {
      if |s| > 1 {
        ParsePrintsBack(s[2..]);
        PrintAppend([BACKSLASH, s[1]], Print(Parse(s[2..]).0), Parse(s[2..]).1, s);
      }
    } else if s[0] == QUOTE {
      if ParseLiteral(s[1..]).Some? {
        QuotedPrintsBack(s);
      }
    } else if s[0] == '(' {
      var after := Parse(s[1..]).1;
      ParsePrintsBack(s[1..]);
      if after != "" && after[0] == ')' {
        GroupPrintsBack(s);
      }
    } else if s[0] != ')' {
      ParsePrintsBack(s[1..]);
      PrintAppend([s[0]], Print(Parse(s[1..]).0), Parse(s[1..]).1, s);
    }
  }

  lemma PrintAppend(head: string, printed: string, stuck: string, s: string)
    requires |head| <= |s| && head == s[..|head|] && printed + stuck == s[|head|..]
    ensures (head + printed) + stuck == s
  {
  }

  lemma {:induction false} QuotedPrintsBack(s: string)
    requires s != "" && s[0] == QUOTE && ParseLiteral(s[1..]).Some?
    ensures Proper(Parse(s).0) && Print(Parse(s).0) + Parse(s).1 == s && IsStuck(Parse(s).1)
    decreases |s|, 0
  {
    var (l, after) := ParseLiteral(s[1..]).value;
    LiteralPrintsBack(s[1..]);
    ParsePrintsBack(after);
    var p, stuck := Print(Parse(after).0), Parse(after).1;
    PrintAppend(PrintLiteral(l), p, stuck, s[1..]);
    PrintAppend([QUOTE], PrintLiteral(l) + p, stuck, s);
  }

  lemma {:induction false} GroupPrintsBack(s: string)
    requires s != "" && s[0] == '('
    requires Parse(s[1..]).1 != "" && Parse(s[1..]).1[0] == ')'
    requires Proper(Parse(s[1..]).0) && Print(Parse(s[1..]).0) + Parse(s[1..]).1 == s[1..]
    ensures Proper(Parse(s).0) && Print(Parse(s).0) + Parse(s).1 == s && IsStuck(Parse(s).1)
    decreases |s|, 0
  {
    var inner, after := Print(Parse(s[1..]).0), Parse(s[1..]).1;
    ParsePrintsBack(after[1..]);
    var p, stuck := Print(Parse(after[1..]).0), Parse(after[1..]).1;
    PrintAppend([')'], p, stuck, after);
    PrintAppend(inner, [')'] + p, stuck, s[1..]);
    PrintAppend(['('], inner + ([')'] + p), stuck, s);
  }

  lemma {:induction false} PrintedLiteralParses(l: Literal, after: string)
    requires ProperLiteral(l)
    ensures ParseLiteral(PrintLiteral(l) + after) == Some((l, after))
  {
    var s := PrintLiteral(l) + after;
    match l
    case Close =>
      assert s[1..] == after;
    case Char(c, rest) =>
      assert s[1..] == PrintLiteral(rest) + after;
      PrintedLiteralParses(rest, after);
    case Escaped(c, rest) =>
      assert s[2..] == PrintLiteral(rest) + after;
      PrintedLiteralParses(rest, after);
  }

  /** Printing and parsing back is the identity: the grammar is unambiguous. */
  lemma {:induction false} PrintedParses(t: Clause, after: string)
    requires Proper(t)
    requires after == "" || after == [BACKSLASH] || after[0] == ')'
    ensures Parse(Print(t) + after) == (t, after)
    decreases t
  {
    var s := Print(t) + after;
    match t
    case Empty =>
      assert s == after;
    case Plain(c, rest) =>
      assert s[1..] == Print(rest) + after;
      PrintedParses(rest, after);
    case Pair(c, rest) =>
      assert s[2..] == Print(rest) + after;
      PrintedParses(rest, after);
    case Quoted(body, rest) =>
      PrintedParses(rest, after);
      PrintedQuotedParses(body, rest, after);
    case Group(inner, rest) =>
      PrintedGroupParses(inner, rest, after);
  }

  lemma {:induction false} PrintedQuotedParses(body: Literal, rest: Clause, after: string)
    requires ProperLiteral(body)
    requires Parse(Print(rest) + after) == (rest, after)
    ensures Parse(Print(Quoted(body, rest)) + after) == (Quoted(body, rest), after)
  {
    PrintedLiteralParses(body, Print(rest) + after);
    QuotedText(PrintLiteral(body), Print(rest), after);
  }

  lemma QuotedText(b: string, p: string, after: string)
    ensures
      var s := [QUOTE] + (b + p) + after;
      s[0] == QUOTE && s[1..] == b + (p + after)
  {
  }

  lemma {:induction false} PrintedGroupParses(inner: Clause, rest: Clause, after: string)
    requires Proper(inner) && Proper(rest)
    requires after == "" || after == [BACKSLASH] || after[0] == ')'
    ensures Parse(Print(Group(inner, rest)) + after) == (Group(inner, rest), after)
    decreases Group(inner, rest), 0
  {
    var s := Print(Group(inner, rest)) + after;
    var tail := [')'] + (Print(rest) + after);
    assert s[0] == '(' && s[1..] == Print(inner) + tail;
    PrintedParses(inner, tail);
    assert tail[1..] == Print(rest) + after;
    PrintedParses(rest, after);
  }

  // ---------- scanner and grammar agree ----------

  lemma {:induction false} LiteralScans(l: Literal, d: nat)
    requires ProperLiteral(l)
    ensures Scan(Scanning(false, true, d), PrintLiteral(l)) == Scanning(false, false, d)
  {
    match l
    case Close =>
    case Char(c, rest) =>
      assert PrintLiteral(l)[1..] == PrintLiteral(rest);
      LiteralScans(rest, d);
    case Escaped(c, rest) =>
      assert PrintLiteral(l)[1..][1..] == PrintLiteral(rest);
      LiteralScans(rest, d);
  }

  /** Scanning a printed clause ends where it began, at any depth. */
  lemma {:induction false} ClauseScans(t: Clause, d: nat)
    requires Proper(t)
    ensures Scan(Scanning(false, false, d), Print(t)) == Scanning(false, false, d)
  {
    var s := Print(t);
    match t
    case Empty =>
    case Plain(c, rest) =>
      assert s[1..] == Print(rest);
      ClauseScans(rest, d);
    case Pair(c, rest) =>
      assert s[1..][1..] == Print(rest);
      ClauseScans(rest, d);
    case Quoted(body, rest) =>
      assert s[1..] == PrintLiteral(body) + Print(rest);
      ScanConcat(Scanning(false, true, d), PrintLiteral(body), Print(rest));
      LiteralScans(body, d);
      ClauseScans(rest, d);
    case Group(inner, rest) =>
      var tail := [')'] + Print(rest);
      assert s[1..] == Print(inner) + tail;
      ScanConcat(Scanning(false, false, d + 1), Print(inner), tail);
      ClauseScans(inner, d + 1);
      assert tail[1..] == Print(rest);
      ClauseScans(rest, d);
  }

  lemma {:induction false} UnclosedLiteralScans(s: string, d: nat)
    requires ParseLiteral(s) == None
    ensures Scan(Scanning(false, true, d), s).Scanning?
    ensures Scan(Scanning(false, true, d), s).inQuote
  {
    if s == "" {
    } else if s[0] == BACKSLASH {
      if |s| == 1 {
        assert s[1..] == "";
      } else {
        assert s[1..][1..] == s[2..];
        UnclosedLiteralScans(s[2..], d);
      }
    } else {
      UnclosedLiteralScans(s[1..], d);
    }
  }

  /** What the parser could not read, the scanner does not accept at that depth, except a dangling backslash. */
  lemma {:induction false} StuckScans(s: string, d: nat)
    requires IsStuck(s) && s != "" && s != [BACKSLASH]
    requires s[0] == ')' ==> d == 0
    ensures var st := Scan(Scanning(false, false, d), s);
      st.Unbalanced? || st.inQuote || st.depth > d
    decreases |s|
  {
    if s[0] == ')' {
      UnbalancedStays(s[1..]);
    } else if s[0] == QUOTE {
      UnclosedLiteralScans(s[1..], d);
    } else {
      var t, stuck := Parse(s[1..]).0, Parse(s[1..]).1;
      ParsePrintsBack(s[1..]);
      ScanConcat(Scanning(false, false, d + 1), Print(t), stuck);
      ClauseScans(t, d + 1);
      if stuck != "" && stuck != [BACKSLASH] {
        StuckScans(stuck, d + 1);
      }
    }
  }

  /**
   The validator accepts a clause exactly when it is NUL-free and derivable; and then the
   parser's tree is the derivation.
   */
  lemma ScannerDecidesGrammar(s: string)
    ensures Accepted(s) <==> NUL !in s && Derivable(s)
    ensures Accepted(s) ==>
      && Proper(Parse(s).0)
      && s == Print(Parse(s).0) + (if Dangling(s) then [BACKSLASH] else "")
  {
    var t, stuck := Parse(s).0, Parse(s).1;
    ParsePrintsBack(s);
    ScanConcat(START, Print(t), stuck);
    ClauseScans(t, 0);
    if stuck != "" && stuck != [BACKSLASH] {
      StuckScans(stuck, 0);
    } else {
      assert stuck == "" ==> s == Print(t);
      assert Derivable(s);
    }
    if u: Clause :| Proper(u) && (s == Print(u) || s == Print(u) + [BACKSLASH]) {
      ClauseScans(u, 0);
      ScanConcat(START, Print(u), [BACKSLASH]);
    }
  }

  /** A derivable clause has one derivation. */
  lemma DerivationIsUnique(t: Clause, u: Clause, s: string)
    requires Proper(t) && (s == Print(t) || s == Print(t) + [BACKSLASH])
    requires Proper(u) && (s == Print(u) || s == Print(u) + [BACKSLASH])
    ensures t == u
  {
    PrintedParses(t, "");
    PrintedParses(t, [BACKSLASH]);
    PrintedParses(u, "");
    PrintedParses(u, [BACKSLASH]);
    assert Print(t) + "" == Print(t) && Print(u) + "" == Print(u);
  }
}
