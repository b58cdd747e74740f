/**
 The retry transport: a bounded loop of attempts over a rate limiter, a base transport, a request
 body that reading uses up, and response bodies. The outside world is an object that answers each
 step from a fixed script and logs what happens; the loop is proved against a function of that
 script.
 */
module RetryTransport {
  import opened Wrappers
  import opened Text
  import opened Backoff

  type Bytes = seq<bv8>

  const MAX_REQUEST_BODY_BYTES := 10 * 1024 * 1024

  // ---------- classification ----------

  datatype Cause = Eof | UnexpectedEof | ConnReset | ConnRefused | BrokenPipe

  /** A transport error: whether it is a timeout, the known errors it wraps, and its text. */
  datatype NetError = NetError(timeout: bool, causes: set<Cause>, text: string)

  predicate IsRetryableStatusCode(code: int) {
    code == 429 || code == 502 || code == 503 || code == 504
  }

  predicate IsRetryableNetworkError(e: NetError) {
    || e.timeout
    || Eof in e.causes || UnexpectedEof in e.causes
    || ConnReset in e.causes || ConnRefused in e.causes || BrokenPipe in e.causes
    || var errStr := ToLower(e.text);
       || Includes(errStr, "connection reset") || Includes(errStr, "connection refused")
       || Includes(errStr, "broken pipe") || Includes(errStr, "temporary failure")
  }

  /** A timeout, any of the known errors, or a text that says one of the four things in any case. */
  lemma RetryableErrorsAre(e: NetError)
    ensures
      IsRetryableNetworkError(e) <==>
      || e.timeout
      || e.causes != {}
      || exists said | said in {"connection reset", "connection refused", "broken pipe", "temporary failure"} ::
           Says(e.text, said)
  {
    LowerSays(e.text, "connection reset");
    LowerSays(e.text, "connection refused");
    LowerSays(e.text, "broken pipe");
    LowerSays(e.text, "temporary failure");
    if c :| c in e.causes {
      assert c == Eof || c == UnexpectedEof || c == ConnReset || c == ConnRefused || c == BrokenPipe;
    }
  }

  // ---------- the world ----------

  /** What the base transport gives: a response whose body must be closed, or an error and no response. */
  datatype Outcome = Responded(resp: Response) | Broke(err: NetError)

  /** What an attempt hands over: the bytes its body still holds, and the content length it declares. */
  datatype Payload = Payload(body: Option<Bytes>, contentLength: int)

  /** `Closed(k)`: the body of attempt k's response. `Slept` is the length the timer was set to. */
  datatype Event = Token | Sent(attempt: nat, payload: Payload) | Closed(attempt: nat) | Slept(wait: int)

  /** A request body: a reader that reading uses up. A broken one ends in an error instead of an end of file. */
  class Body {
    const content: Bytes
    const broken: bool
    var pos: nat
    var closes: nat

    ghost predicate Valid()
      reads this
    {
      pos <= |content|
    }

    /** What is still to be read. */
    function Rest(): Bytes
      requires Valid()
      reads this
    {
      content[pos..]
    }

    constructor (content: Bytes, broken: bool)
      ensures Valid() && Rest() == content && pos == 0 && closes == 0
      ensures this.content == content && this.broken == broken
    {
      this.content, this.broken, pos, closes := content, broken, 0, 0;
    }

    /** `io.Copy` from a reader limited to this many bytes; fails when it comes to the error first. */
    method Read(limit: nat) returns (data: Bytes, ok: bool)
      requires Valid()
      modifies this`pos
      ensures Valid() && old(Rest()) == data + Rest()
      ensures |data| == Min(limit, |old(Rest())|)
      ensures ok <==> !(broken && |old(Rest())| < limit)
    {
      ghost var rest := Rest();
      var n := Min(limit, |content| - pos);
      data := content[pos..pos + n];
      ok := !(broken && n < limit);
      pos := pos + n;
      assert rest == data + content[pos..];
    }

    method Close()
      modifies this`closes
      ensures closes == old(closes) + 1
    {
      closes := closes + 1;
    }
  }

  /** An HTTP request, as far as retrying goes; no body and `http.NoBody` are one. */
  datatype Request = Request(body: Option<Body>, contentLength: int)

  function Bodies(q: Request): set<Body> {
    if q.body.Some? then {q.body.value} else {}
  }

  ghost predicate ValidRequest(q: Request)
    reads Bodies(q)
  {
    q.body.Some? ==> q.body.value.Valid()
  }

  /** What the request would hand over now. */
  function PayloadOf(q: Request): Payload
    requires ValidRequest(q)
    reads Bodies(q)
  {
    Payload(if q.body.Some? then Some(q.body.value.Rest()) else None, q.contentLength)
  }

  /** What attempt k meets: the context's end in its backoff, its limiter's error, the outcome, the jitter drawn. */
  datatype Step = Step(cancelled: bool, throttled: bool, outcome: Outcome, draw: nat)

  /** The steps of a request, one for each attempt it may come to. */
  type Script = nat -> Step

  class World {
    const script: Script
    var log: seq<Event>

    constructor (script: Script)
      ensures this.script == script && log == []
    {
      this.script := script;
      log := [];
    }

    /** Hands the request over; the base transport reads as much of its body as it likes. */
    method Send(attempt: nat, request: Request) returns (o: Outcome)
      requires ValidRequest(request)
      modifies this`log, Bodies(request)
      ensures ValidRequest(request)
      ensures o == script(attempt).outcome && log == old(log) + [Sent(attempt, old(PayloadOf(request)))]
    {
      log := log + [Sent(attempt, PayloadOf(request))];
      if request.body.Some? {
        var some: nat := *;
        var data, ok := request.body.value.Read(some);
      }
      return script(attempt).outcome;
    }

    method CloseBody(attempt: nat)
      modifies this`log
      ensures log == old(log) + [Closed(attempt)]
    {
      log := log + [Closed(attempt)];
    }

    /** Waits on a timer; false when the context ends first. */
    method Sleep(attempt: nat, wait: int) returns (ok: bool)
      modifies this`log
      ensures ok == !script(attempt).cancelled && log == old(log) + [Slept(wait)]
    {
      log := log + [Slept(wait)];
      return !script(attempt).cancelled;
    }

    /** Waits for a limiter token; false when the limiter gives an error. */
    method AwaitToken(attempt: nat) returns (ok: bool)
      modifies this`log
      ensures ok == !script(attempt).throttled && log == old(log) + [Token]
    {
      log := log + [Token];
      return !script(attempt).throttled;
    }
  }

  // ---------- the specification ----------

  /** `retryOptions` with the presence of a limiter. */
  datatype Options = Options(initialBackoff: int, maxBackoff: int, maxAttempts: int, limited: bool)

  /** How a request ends. */
  datatype Result =
    | Answer(attempt: nat, resp: Response)
    | TransportError(err: NetError)
    | ContextEnded
    | LimiterError
    | BodyError

  predicate Retryable(o: Outcome) {
    match o
    case Responded(resp) => IsRetryableStatusCode(resp.status)
    case Broke(err) => IsRetryableNetworkError(err)
  }

  /** Attempt k does not get to send: the wait before it, or its limiter token, failed. */
  predicate Interrupted(s: Script, o: Options, k: nat) {
    (k > 0 && s(k).cancelled) || (o.limited && s(k).throttled)
  }

  /** Nothing follows attempt k. */
  predicate Ends(s: Script, o: Options, k: nat) {
    Interrupted(s, o, k) || !Retryable(s(k).outcome) || k == o.maxAttempts - 1
  }

  /** The first attempt from k on that nothing follows. */
  function LastAttempt(s: Script, o: Options, k: nat): (n: nat)
    requires k < o.maxAttempts
    ensures k <= n < o.maxAttempts
    decreases o.maxAttempts - k
  {
    if Ends(s, o, k) then k else LastAttempt(s, o, k + 1)
  }

  lemma {:induction false} LastAttemptIsFirstEnd(s: Script, o: Options, k: nat)
    requires k < o.maxAttempts
    ensures Ends(s, o, LastAttempt(s, o, k))
    ensures forall i | k <= i < LastAttempt(s, o, k) :: !Ends(s, o, i)
    decreases o.maxAttempts - k
  {
    if !Ends(s, o, k) {
      LastAttemptIsFirstEnd(s, o, k + 1);
    }
  }

  function ResultAt(s: Script, o: Options, n: nat): Result {
    if n > 0 && s(n).cancelled then ContextEnded
    else if o.limited && s(n).throttled then LimiterError
    else
      match s(n).outcome
      case Responded(resp) => Answer(n, resp)
      case Broke(err) => TransportError(err)
  }

  /** The response of attempt k, if it gave one. */
  function ResponseOf(s: Script, k: nat): Option<Response> {
    match s(k).outcome
    case Responded(resp) => Some(resp)
    case Broke(_) => None
  }

  function WaitBefore(s: Script, o: Options, k: nat): int
    requires k > 0
  {
    var jitter := s(k).draw % JitterBound(BaseWait(k, o.initialBackoff, o.maxBackoff));
    WaitFor(k, ResponseOf(s, k - 1), o.initialBackoff, o.maxBackoff, jitter)
  }

  /** A request's course: the script, the options, what is sent, and the wait before each attempt. */
  datatype Course = Course(s: Script, o: Options, q: Payload, waits: nat -> int)

  function CourseOf(s: Script, o: Options, q: Payload): Course {
    Course(s, o, q, k => if k > 0 then WaitBefore(s, o, k) else 0)
  }

  /** Before attempt k: the previous response's body closed, then the backoff. */
  function BackoffEvents(c: Course, k: nat): seq<Event> {
    if k == 0 then []
    else (if ResponseOf(c.s, k - 1).Some? then [Closed(k - 1)] else []) + [Slept(c.waits(k))]
  }

  /** Then the limiter's token, unless the context ended during the backoff. */
  function TokenEvents(c: Course, k: nat): seq<Event> {
    if c.o.limited && !(k > 0 && c.s(k).cancelled) then [Token] else []
  }

  /** Then the request, if nothing stood in its way. */
  function SendEvents(c: Course, k: nat): seq<Event> {
    if Interrupted(c.s, c.o, k) then [] else [Sent(k, c.q)]
  }

  function AttemptEvents(c: Course, k: nat): seq<Event> {
    BackoffEvents(c, k) + TokenEvents(c, k) + SendEvents(c, k)
  }

  function Flatten(groups: seq<seq<Event>>): seq<Event> {
    if groups == [] then [] else Flatten(groups[..|groups| - 1]) + groups[|groups| - 1]
  }

  function Attempts(c: Course, n: nat): seq<seq<Event>> {
    seq(n, k requires 0 <= k < n => AttemptEvents(c, k))
  }

  /** The events of attempts 0 to n-1. */
  function EventsBefore(c: Course, n: nat): seq<Event> {
    Flatten(Attempts(c, n))
  }

  lemma OneMoreAttempt(c: Course, k: nat)
    ensures EventsBefore(c, k + 1) == EventsBefore(c, k) + AttemptEvents(c, k)
  {
    assert Attempts(c, k + 1)[..k] == Attempts(c, k);
  }

  /** The log when attempt k starts, and no attempt before it ended the request. */
  ghost predicate Reached(c: Course, start: seq<Event>, log: seq<Event>, k: nat) {
    && k < c.o.maxAttempts
    && LastAttempt(c.s, c.o, k) == LastAttempt(c.s, c.o, 0)
    && log == start + EventsBefore(c, k)
  }

  lemma LogGrows(start: seq<Event>, before: seq<Event>, more: seq<Event>, after: seq<Event>)
    requires after == before + more
    ensures (start + before) + more == start + after
  {
  }

  lemma LogAfterAttempt(c: Course, start: seq<Event>, k: nat)
    ensures (start + EventsBefore(c, k)) + AttemptEvents(c, k) == start + EventsBefore(c, k + 1)
  {
    OneMoreAttempt(c, k);
    LogGrows(start, EventsBefore(c, k), AttemptEvents(c, k), EventsBefore(c, k + 1));
  }

  lemma AttemptEnds(c: Course, start: seq<Event>, log: seq<Event>, k: nat)
    requires Reached(c, start, log, k) && Ends(c.s, c.o, k)
    ensures LastAttempt(c.s, c.o, 0) == k && log + AttemptEvents(c, k) == start + EventsBefore(c, k + 1)
  {
    LogAfterAttempt(c, start, k);
  }

  lemma AttemptGoesOn(c: Course, start: seq<Event>, log: seq<Event>, k: nat)
    requires Reached(c, start, log, k) && !Ends(c.s, c.o, k)
    ensures Reached(c, start, log + AttemptEvents(c, k), k + 1)
  {
    LogAfterAttempt(c, start, k);
  }

  /** An attempt's events by where it ends: at its backoff, at the limiter, or after sending. */
  lemma AttemptLogs(c: Course, start: seq<Event>, k: nat)
    ensures
      var woken := start + BackoffEvents(c, k);
      var tokened := woken + if c.o.limited then [Token] else [];
      && (k > 0 && c.s(k).cancelled ==> woken == start + AttemptEvents(c, k))
      && (!(k > 0 && c.s(k).cancelled) && Interrupted(c.s, c.o, k) ==> tokened == start + AttemptEvents(c, k))
      && (!Interrupted(c.s, c.o, k) ==> tokened + [Sent(k, c.q)] == start + AttemptEvents(c, k))
  {
  }

  /** What every attempt must hand over: the whole original body, declared in full length, or none. */
  function WholePayload(q: Request): Payload
    requires ValidRequest(q)
    reads Bodies(q)
  {
    if q.body == None then Payload(None, q.contentLength)
    else Payload(Some(q.body.value.Rest()), |q.body.value.Rest()|)
  }

  /** The body can be read to its end within the limit. */
  predicate BodyReadable(q: Request)
    requires ValidRequest(q)
    reads Bodies(q)
  {
    q.body.Some? ==> !q.body.value.broken && |q.body.value.Rest()| <= 10 * 1024 * 1024
  }

  // ---------- the transport ----------

  class Transport {
    const world: World
    const maxRetries: Int64
    const initialBackoff: int
    const maxBackoff: int
    const limited: bool

    constructor (world: World, maxRetries: Int64, initialBackoff: int, maxBackoff: int, limited: bool)
      ensures this.world == world && this.maxRetries == maxRetries && this.initialBackoff == initialBackoff
      ensures this.maxBackoff == maxBackoff && this.limited == limited
    {
      this.world, this.maxRetries, this.initialBackoff, this.maxBackoff, this.limited :=
        world, maxRetries, initialBackoff, maxBackoff, limited;
    }

    /** `resolveOptions`; the 64-bit attempt count wraps at the very largest setting, which then allows one attempt. */
    function ResolveOptions(): (o: Options)
      ensures o.limited == limited
      ensures o.initialBackoff == if initialBackoff > 0 then initialBackoff else 200_000_000
      ensures o.maxBackoff == if maxBackoff > 0 then maxBackoff else 10_000_000_000
      ensures o.maxAttempts == if 0 <= maxRetries < MAX_INT64 then maxRetries + 1 else 1
    {
      Options(
        if initialBackoff <= 0 then DEFAULT_INITIAL_BACKOFF else initialBackoff,
        if maxBackoff <= 0 then DEFAULT_MAX_BACKOFF else maxBackoff,
        Max(1, Wrap64(maxRetries + 1)),
        limited)
    }

    /** `readBody`: the whole body within the limit, no body, or an error; the body is closed in any case. */
    method ReadBody(req: Request) returns (ok: bool, body: Option<Bytes>)
      requires ValidRequest(req)
      modifies Bodies(req)
      ensures ok <==> old(BodyReadable(req))
      ensures ok ==> body == if req.body == None then None else Some(old(req.body.value.Rest()))
      ensures req.body.Some? ==> req.body.value.closes == old(req.body.value.closes) + 1
    {
      if req.body == None {
        return true, None;
      }
      var buf, read := req.body.value.Read(MAX_REQUEST_BODY_BYTES + 1);
      req.body.value.Close();
      if !read {
        return false, None;
      }
      if |buf| > MAX_REQUEST_BODY_BYTES {
        return false, None;
      }
      assert buf + req.body.value.Rest() == buf;
      return true, Some(buf);
    }

    /** `cloneRequest`: a copy with a reader of its own over the bytes, at their start. */
    method CloneRequest(req: Request, bodyBytes: Option<Bytes>) returns (q: Request)
      ensures bodyBytes == None ==> q == req
      ensures bodyBytes.Some? ==>
        && q.body.Some? && fresh(q.body.value) && ValidRequest(q)
        && q.body.value.pos == 0 && PayloadOf(q) == Payload(bodyBytes, |bodyBytes.value|)
    {
      q := req;
      if bodyBytes.Some? {
        var reader := new Body(bodyBytes.value, false);
        q := Request(Some(reader), |bodyBytes.value|);
      }
    }

    /** `waitRetry`: closes the previous body, whatever happens next, and sleeps. */
    method WaitRetry(attempt: nat, resp: Option<Response>, o: Options, ghost q: Payload)
      returns (ok: bool)
      requires attempt > 0 ==> resp == ResponseOf(world.script, attempt - 1)
      modifies world`log
      ensures ok <==> !(attempt > 0 && world.script(attempt).cancelled)
      ensures world.log == old(world.log) + BackoffEvents(CourseOf(world.script, o, q), attempt)
    {
      if attempt == 0 {
        return true;
      }
      var backoff := CalculateBackoff(attempt, resp, o.initialBackoff, o.maxBackoff, world.script(attempt).draw);
      if resp.Some? {
        world.CloseBody(attempt - 1);
      }
      ok := world.Sleep(attempt, backoff);
    }

    /** The limiter, when there is one. */
    method TakeToken(attempt: nat, o: Options) returns (ok: bool)
      modifies world`log
      ensures ok <==> !(o.limited && world.script(attempt).throttled)
      ensures world.log == old(world.log) + if o.limited then [Token] else []
    {
      if o.limited {
        ok := world.AwaitToken(attempt);
      } else {
        ok := true;
      }
    }

    /** One pass of the loop: the result when the request ends here, else the response to retry on. */
    method Attempt(
        attempt: nat, prev: Option<Response>, o: Options, req: Request, bodyBytes: Option<Bytes>, ghost q: Payload)
      returns (ended: Option<Result>, resp: Option<Response>)
      requires attempt > 0 ==> prev == ResponseOf(world.script, attempt - 1)
      requires req.body == None <==> bodyBytes == None
      requires q == Payload(bodyBytes, if bodyBytes == None then req.contentLength else |bodyBytes.value|)
      modifies world`log
      ensures world.log == old(world.log) + AttemptEvents(CourseOf(world.script, o, q), attempt)
      ensures ended.Some? <==> Ends(world.script, o, attempt)
      ensures ended.Some? ==> ended.value == ResultAt(world.script, o, attempt)
      ensures ended == None ==> resp == ResponseOf(world.script, attempt)
    {
      resp := prev;
      AttemptLogs(CourseOf(world.script, o, q), world.log, attempt);
      var awake := WaitRetry(attempt, prev, o, q);
      if !awake {
        return Some(ContextEnded), resp;
      }
      var token := TakeToken(attempt, o);
      if !token {
        return Some(LimiterError), resp;
      }
      var request := CloneRequest(req, bodyBytes);
      var outcome := world.Send(attempt, request);
      match outcome {
        case Broke(lastErr) =>
          resp := None;
          if !IsRetryableNetworkError(lastErr) || attempt == o.maxAttempts - 1 {
            return Some(TransportError(lastErr)), resp;
          }
        case Responded(got) =>
          resp := Some(got);
          if !IsRetryableStatusCode(got.status) || attempt == o.maxAttempts - 1 {
            return Some(Answer(attempt, got)), resp;
          }
      }
      return None, resp;
    }

    /**
     The loop ends as the script's first ending attempt does, having done exactly the events up to
     it; the statements after the loop are not reached.
     */
    method RoundTrip(req: Request) returns (r: Result)
      requires ValidRequest(req)
      modifies world`log, Bodies(req)
      ensures !old(BodyReadable(req)) ==> r == BodyError && world.log == old(world.log)
      ensures old(BodyReadable(req)) ==>
        var o := ResolveOptions();
        var n := LastAttempt(world.script, o, 0);
        && r == ResultAt(world.script, o, n)
        && world.log == old(world.log) + EventsBefore(CourseOf(world.script, o, old(WholePayload(req))), n + 1)
      ensures req.body.Some? ==> req.body.value.closes == old(req.body.value.closes) + 1
    {
      var o := ResolveOptions();
      ghost var q := WholePayload(req);
      ghost var c := CourseOf(world.script, o, q);
      var read, bodyBytes := ReadBody(req);
      if !read {
        return BodyError;
      }
      r := BodyError;
      var resp: Option<Response> := None;
      for attempt := 0 to o.maxAttempts
        invariant Reached(c, old(world.log), world.log, attempt)
        invariant attempt > 0 ==> resp == ResponseOf(world.script, attempt - 1)
        modifies world`log
      {
        ghost var log := world.log;
        var ended;
        ended, resp := Attempt(attempt, resp, o, req, bodyBytes, q);
        if ended.Some? {
          AttemptEnds(c, old(world.log), log, attempt);
          return ended.value;
        }
        AttemptGoesOn(c, old(world.log), log, attempt);
      }
      assert false;
    }
  }
}
