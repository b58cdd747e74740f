/**
 List tools: the page size, the offset of the next page, following the pages of a listing to its
 end; and the envelope that appliance text is returned in.
 */
module Listing {
  import opened Wrappers
  import opened Text
  import opened WhereClause
  import opened Pages

  const DEFAULT_LIST_LIMIT := 50

  /** Conversion of a length to `int32`, which keeps the low 32 bits. */
  function Wrap32(x: int): int {
    var m := x % 0x1_0000_0000;
    if m > MAX_INT32 then m - 0x1_0000_0000 else m
  }

  /** `clampLimit`. */
  function ClampLimit(limit: int): (r: int)
    ensures 1 <= r <= MAX_LIST_LIMIT
    ensures 1 <= limit <= MAX_LIST_LIMIT ==> r == limit
    ensures limit <= 0 ==> r == 50
    ensures limit > MAX_LIST_LIMIT ==> r == 1000
  {
    if limit <= 0 then DEFAULT_LIST_LIMIT
    else if limit > MAX_LIST_LIMIT then MAX_LIST_LIMIT
    else limit
  }

  datatype ListOptions = ListOptions(where: string, limit: int, offset: int)

  /** `nextOffset` is 0 when there is none to report. */
  datatype ListOutput<T> = ListOutput(data: seq<T>, count: nat, limit: int, offset: int, hasMore: bool, nextOffset: int)

  datatype ListReply = Listed | InvalidWhere | InvalidOffset | ListFailed

  /** The output for a page of items. */
  function PageOutput<T>(items: seq<T>, limit: int, offset: int): ListOutput<T> {
    var hasMore := Wrap32(|items|) >= limit;
    var next := offset + |items|;
    ListOutput(items, |items|, limit, offset, hasMore, if hasMore && next <= MAX_INT32 then next else 0)
  }

  /**
   What the output says of its page: the rows and how many there are; that there may be more when
   they reach the limit, and not when they fall short of it or their number turns negative in 32
   bits; and the offset behind them, where 32 bits hold it.
   */
  lemma PageOutputReports<T>(items: seq<T>, limit: int, offset: int)
    requires 1 <= limit
    ensures
      var out := PageOutput(items, limit, offset);
      && out.data == items && out.count == |items| && out.limit == limit && out.offset == offset
      && (|items| < limit ==> !out.hasMore && out.nextOffset == 0)
      && (limit <= |items| < 0x8000_0000 ==> out.hasMore)
      && (0x8000_0000 <= |items| < 0x1_0000_0000 ==> !out.hasMore)
      && (out.hasMore ==> out.nextOffset == if offset + |items| <= 0x7fff_ffff then offset + |items| else 0)
  {
  }

  function EmptyOutput<T>(limit: int, offset: int): ListOutput<T> {
    ListOutput([], 0, limit, offset, false, 0)
  }

  datatype ListRequest = ListRequest(where: string, limit: int, offset: int)

  /** What the appliance answers: items, or none on an error, and either way perhaps a response with a body. */
  datatype ListAnswer<T> = ListAnswer(items: Option<seq<T>>, hasBody: bool)

  /** The appliance's list call, the requests it got, and the response bodies not closed yet. */
  class ListApi<T> {
    const answer: ListRequest -> ListAnswer<T>
    var requests: seq<ListRequest>
    var unclosed: nat

    constructor (answer: ListRequest -> ListAnswer<T>)
      ensures this.answer == answer && requests == [] && unclosed == 0
    {
      this.answer, requests, unclosed := answer, [], 0;
    }

    method Execute(request: ListRequest) returns (a: ListAnswer<T>)
      modifies this
      ensures a == answer(request) && requests == old(requests) + [request]
      ensures unclosed == old(unclosed) + if a.hasBody then 1 else 0
    {
      a := answer(request);
      requests := requests + [request];
      unclosed := unclosed + if a.hasBody then 1 else 0;
    }

    /** `closeBody`, on the response just received. */
    method CloseBody(hasBody: bool)
      requires hasBody ==> unclosed > 0
      modifies this`unclosed
      ensures unclosed == old(unclosed) - if hasBody then 1 else 0
    {
      if hasBody {
        unclosed := unclosed - 1;
      }
    }
  }

  /**
   `commonListHandler`. A filter that does not scan, or a negative offset, never reaches the
   appliance; otherwise it gets one request, with the effective limit, and its response is closed.
   */
  method CommonListHandler<T>(opts: ListOptions, api: ListApi<T>) returns (reply: ListReply, out: ListOutput<T>)
    modifies api
    ensures reply.InvalidWhere? <==> !Accepted(opts.where)
    ensures reply.InvalidOffset? <==> Accepted(opts.where) && opts.offset < 0
    ensures
      var sent := ListRequest(opts.where, ClampLimit(opts.limit), opts.offset);
      && api.requests == old(api.requests) + (if reply.InvalidWhere? || reply.InvalidOffset? then [] else [sent])
      && (reply.Listed? ==>
            && api.answer(sent).items.Some?
            && var items := api.answer(sent).items.value;
               && out == PageOutput(items, sent.limit, sent.offset)
               && out.data == items && out.count == |items|
               && out.limit == ClampLimit(opts.limit) && out.offset == opts.offset
               && (|items| < ClampLimit(opts.limit) ==> !out.hasMore && out.nextOffset == 0)
               && (ClampLimit(opts.limit) <= |items| < 0x8000_0000 ==> out.hasMore)
               && (out.hasMore ==>
                     out.nextOffset == if opts.offset + |items| <= 0x7fff_ffff then opts.offset + |items| else 0))
      && (reply.ListFailed? ==> api.answer(sent).items == None)
    ensures !reply.Listed? ==> out == EmptyOutput(ClampLimit(opts.limit), opts.offset)
    ensures api.unclosed == old(api.unclosed)
  {
    var limit := ClampLimit(opts.limit);
    out := ListOutput([], 0, limit, opts.offset, false, 0);
    var valid := ValidateWhereClause(opts.where);
    if !valid {
      return InvalidWhere, out;
    }
    if opts.offset < 0 {
      return InvalidOffset, out;
    }
    var answer := api.Execute(ListRequest(opts.where, limit, opts.offset));
    api.CloseBody(answer.hasBody);
    if answer.items == None {
      return ListFailed, out;
    }
    var items := answer.items.value;
    var hasMore := Wrap32(|items|) >= limit;
    out := ListOutput(items, |items|, limit, opts.offset, hasMore, 0);
    if hasMore {
      var next := opts.offset + |items|;
      if next <= MAX_INT32 {
        out := out.(nextOffset := next);
      }
    }
    return Listed, out;
  }

  // ---------- following the pages ----------

  /** A server of a fixed row list that may return more than asked for, but never a short page while rows remain. */
  datatype Rows<T> = Rows(rows: seq<T>, extra: nat -> nat)

  function PageOf<T>(server: Rows<T>, limit: nat, offset: nat): seq<T>
    requires offset <= |server.rows|
  {
    var left := |server.rows| - offset;
    var n := limit + server.extra(offset);
    server.rows[offset..offset + if n < left then n else left]
  }

  /** The next offset is past this one and fits 32 bits, or it is not set. */
  lemma NextOffsetAdvances<T>(items: seq<T>, limit: int, offset: int)
    requires 1 <= limit && 0 <= offset <= MAX_INT32
    ensures
      var out := PageOutput(items, limit, offset);
      out.nextOffset == 0 || (out.hasMore && offset < out.nextOffset <= MAX_INT32 && out.nextOffset == offset + |items|)
  {
  }

  /** Lists from an offset, and again from each next offset reported. */
  function Follow<T>(server: Rows<T>, limit: int, offset: nat): seq<T>
    requires offset <= |server.rows| && offset <= MAX_INT32
    decreases |server.rows| - offset
  {
    var out := PageOutput(PageOf(server, ClampLimit(limit), offset), ClampLimit(limit), offset);
    NextOffsetAdvances(PageOf(server, ClampLimit(limit), offset), ClampLimit(limit), offset);
    if out.nextOffset == 0 then out.data else out.data + Follow(server, limit, out.nextOffset)
  }

  /** How many pages that takes. */
  function FollowPages<T>(server: Rows<T>, limit: int, offset: nat): nat
    requires offset <= |server.rows| && offset <= MAX_INT32
    decreases |server.rows| - offset
  {
    var out := PageOutput(PageOf(server, ClampLimit(limit), offset), ClampLimit(limit), offset);
    NextOffsetAdvances(PageOf(server, ClampLimit(limit), offset), ClampLimit(limit), offset);
    1 + if out.nextOffset == 0 then 0 else FollowPages(server, limit, out.nextOffset)
  }

  /** Every page but the last is full: as many limits as there are other pages fit in the rows left. */
  lemma {:induction false} FollowIsShort<T>(server: Rows<T>, limit: int, offset: nat)
    requires offset <= |server.rows| && offset <= MAX_INT32
    ensures (FollowPages(server, limit, offset) - 1) * ClampLimit(limit) <= |server.rows| - offset
    decreases |server.rows| - offset
  {
    var page := PageOf(server, ClampLimit(limit), offset);
    var out := PageOutput(page, ClampLimit(limit), offset);
    NextOffsetAdvances(page, ClampLimit(limit), offset);
    PageOutputReports(page, ClampLimit(limit), offset);
    if out.nextOffset != 0 {
      FollowIsShort(server, limit, out.nextOffset);
      OneMoreLimit(FollowPages(server, limit, out.nextOffset), ClampLimit(limit));
    }
  }

  lemma OneMoreLimit(n: int, limit: int)
    ensures n * limit == (n - 1) * limit + limit
  {
  }

  /** From any offset, following collects the rows from there on. */
  lemma {:induction false} FollowCollects<T>(server: Rows<T>, limit: int, offset: nat)
    requires offset <= |server.rows| && offset <= MAX_INT32
    ensures IsCollection(server.rows, offset, Follow(server, limit, offset))
    decreases |server.rows| - offset
  {
    var page := PageOf(server, ClampLimit(limit), offset);
    var out := PageOutput(page, ClampLimit(limit), offset);
    NextOffsetAdvances(page, ClampLimit(limit), offset);
    if out.nextOffset != 0 {
      FollowCollects(server, limit, out.nextOffset);
      JoinCollection(server.rows, offset, page, Follow(server, limit, out.nextOffset));
    } else {
      LastPage(server, ClampLimit(limit), offset);
    }
  }

  /** The rows from an offset on, in order: all of them, or more than 32 bits can number. */
  predicate IsCollection<T(==)>(rows: seq<T>, offset: nat, got: seq<T>) {
    && offset + |got| <= |rows|
    && got == rows[offset..offset + |got|]
    && (offset + |got| == |rows| || offset + |got| > MAX_INT32)
  }

  lemma JoinCollection<T>(rows: seq<T>, offset: nat, page: seq<T>, rest: seq<T>)
    requires offset + |page| <= |rows| && page == rows[offset..offset + |page|]
    requires IsCollection(rows, offset + |page|, rest)
    ensures IsCollection(rows, offset, page + rest)
  {
    JoinSlices(rows, offset, offset + |page|, |rest|);
  }

  /** A page with no next offset reaches the end, or more than 32 bits can number. */
  lemma LastPage<T>(server: Rows<T>, limit: nat, offset: nat)
    requires 1 <= limit <= MAX_LIST_LIMIT && offset <= |server.rows| && offset <= MAX_INT32
    requires PageOutput(PageOf(server, limit, offset), limit, offset).nextOffset == 0
    ensures var end := offset + |PageOf(server, limit, offset)|; end == |server.rows| || end > MAX_INT32
  {
  }

  lemma JoinSlices<T>(rows: seq<T>, lo: nat, mid: nat, n: nat)
    requires lo <= mid && mid + n <= |rows|
    ensures rows[lo..mid] + rows[mid..mid + n] == rows[lo..lo + (mid - lo) + n]
  {
  }

  /** For any total that 32 bits can number, following from 0 gives exactly the row list: no gap, no repeat. */
  lemma FollowIsComplete<T>(server: Rows<T>, limit: int)
    requires |server.rows| <= MAX_INT32
    ensures Follow(server, limit, 0) == server.rows
  {
    FollowCollects(server, limit, 0);
    assert server.rows[0..|server.rows|] == server.rows;
  }

  // ---------- the untrusted-data envelope ----------

  const UNTRUSTED_OPEN := "<untrusted-data source=\"solidserver\">"
  const UNTRUSTED_CLOSE := "</untrusted-data>"

  /** `strings.ReplaceAll(body, "<", "&lt;")`. */
  function Neutralize(body: string): string {
    if body == "" then "" else (if body[0] == '<' then "&lt;" else [body[0]]) + Neutralize(body[1..])
  }

  /** `fenceUntrusted`; the note before the markers is fixed text without a bracket. */
  function FenceUntrusted(note: string, body: string): string {
    note + UNTRUSTED_OPEN + ("\n" + Neutralize(body) + "\n") + UNTRUSTED_CLOSE
  }

  lemma {:induction false} NeutralizedHasNoBracket(body: string)
    ensures '<' !in Neutralize(body)
  {
    if body != "" {
      NeutralizedHasNoBracket(body[1..]);
    }
  }

  /** What has no bracket stays as it is, and each bracket becomes its entity, in order. */
  lemma {:induction false} NeutralizesEachBracket(plain: string, rest: string)
    requires '<' !in plain
    ensures Neutralize(plain) == plain
    ensures Neutralize(plain + "<" + rest) == plain + "&lt;" + Neutralize(rest)
  {
    var body := plain + "<" + rest;
    if plain == "" {
      assert body[1..] == rest;
      assert body[0] == '<';
    } else {
      NeutralizesEachBracket(plain[1..], rest);
      assert body[1..] == plain[1..] + "<" + rest;
      assert [plain[0]] + plain[1..] == plain;
    }
  }

  /**
   Whatever the body, the opening marker occurs in the envelope right after the note, the closing
   marker at its end, and neither anywhere else.
   */
  lemma EnvelopeClosesOnlyAtItsEnd(note: string, body: string, i: nat)
    requires '<' !in note
    ensures
      var text := FenceUntrusted(note, body);
      && (OccursAt(text, UNTRUSTED_CLOSE, i) <==> i == |text| - |UNTRUSTED_CLOSE|)
      && (OccursAt(text, UNTRUSTED_OPEN, i) <==> i == |note|)
  {
    NeutralizedHasNoBracket(body);
    OnlyTwoBrackets(note, UNTRUSTED_OPEN, "\n" + Neutralize(body) + "\n", UNTRUSTED_CLOSE, i);
  }

  /** One bracket, at its start. */
  ghost predicate IsMarker(mark: string) {
    |mark| > 1 && mark[0] == '<' && forall i | 0 < i < |mark| :: mark[i] != '<'
  }

  lemma OnlyTwoBrackets(note: string, first: string, inner: string, last: string, i: nat)
    requires '<' !in note && '<' !in inner
    requires IsMarker(first) && IsMarker(last) && first[1] != last[1]
    ensures
      var text := note + first + inner + last;
      && (OccursAt(text, last, i) <==> i == |text| - |last|)
      && (OccursAt(text, first, i) <==> i == |note|)
  {
    var text := note + first + inner + last;
    var n, m := |note|, |note + first + inner|;
    assert forall k | 0 <= k < n :: text[k] == note[k];
    assert forall k | n <= k < n + |first| :: text[k] == first[k - n];
    assert forall k | n + |first| <= k < m :: text[k] == inner[k - n - |first|];
    assert forall k | m <= k < |text| :: text[k] == last[k - m];
    if mark :| mark in [first, last] && OccursAt(text, mark, i) {
      var here := text[i..i + |mark|];
      assert text[i] == here[0] == '<' && text[i + 1] == here[1];
      assert i == n || i == m;
    }
  }
}
