/**
 What every request through the retry transport keeps, for every script of outcomes,
 cancellations, limiter answers and jitter: which attempt decides, what is sent, who owns each
 response body, and how long the request can sleep.
 */
module RetryRuns {
  import opened Backoff
  import opened Text
  import opened RetryTransport
  import opened RetryWaits

  ghost predicate ValidOptions(o: Options) {
    o.maxAttempts >= 1 && o.initialBackoff > 0 && o.maxBackoff > 0
  }

  /** The log of a request whose deciding attempt is n. */
  function Log(c: Course): seq<Event>
    requires c.o.maxAttempts >= 1
  {
    EventsBefore(c, LastAttempt(c.s, c.o, 0) + 1)
  }

  /** How a request ends. */
  function Ending(s: Script, o: Options): Result
    requires o.maxAttempts >= 1
  {
    ResultAt(s, o, LastAttempt(s, o, 0))
  }

  // ---------- which attempt decides ----------

  /** Nothing interrupts attempts 0 to n. */
  ghost predicate Undisturbed(s: Script, o: Options, n: nat) {
    forall k | 0 <= k <= n :: !Interrupted(s, o, k)
  }

  ghost predicate AllRetryable(s: Script, n: nat) {
    forall k | 0 <= k < n :: Retryable(s(k).outcome)
  }

  function OutcomeResult(s: Script, n: nat): Result {
    match s(n).outcome
    case Responded(resp) => Answer(n, resp)
    case Broke(err) => TransportError(err)
  }

  /**
   If nothing interrupts it, a request ends with outcome n exactly when all before n are retryable
   and n is not, or n is the last one permitted.
   */
  lemma ResultIsFirstFinalOutcome(s: Script, o: Options, n: nat)
    requires n < o.maxAttempts && Undisturbed(s, o, n)
    ensures
      LastAttempt(s, o, 0) == n <==>
      AllRetryable(s, n) && (!Retryable(s(n).outcome) || n == o.maxAttempts - 1)
    ensures LastAttempt(s, o, 0) == n ==> Ending(s, o) == OutcomeResult(s, n)
  {
    var last := LastAttempt(s, o, 0);
    LastAttemptIsFirstEnd(s, o, 0);
    assert !Interrupted(s, o, n);
    if AllRetryable(s, n) && (!Retryable(s(n).outcome) || n == o.maxAttempts - 1) {
      assert Ends(s, o, n);
      if last < n {
        assert false;
      }
    }
    if last == n {
      forall k | 0 <= k < n ensures Retryable(s(k).outcome) {
        assert !Ends(s, o, k);
      }
    }
  }

  /**
   A request that comes to send attempt n, with attempts left, stops there exactly when the answer is
   none of 429, 502, 503 and 504, or the error no timeout, no known error and without a known phrase.
   */
  lemma OnlyTheseAreRetried(s: Script, o: Options, n: nat)
    requires n < o.maxAttempts - 1 && Undisturbed(s, o, n) && AllRetryable(s, n)
    ensures
      LastAttempt(s, o, 0) == n <==>
      match s(n).outcome
      case Responded(resp) => resp.status !in {429, 502, 503, 504}
      case Broke(err) =>
        && !err.timeout && err.causes == {}
        && !Says(err.text, "connection reset") && !Says(err.text, "connection refused")
        && !Says(err.text, "broken pipe") && !Says(err.text, "temporary failure")
  {
    ResultIsFirstFinalOutcome(s, o, n);
    if s(n).outcome.Broke? {
      RetryableErrorsAre(s(n).outcome.err);
    }
  }

  // ---------- what is sent ----------

  function Requests(log: seq<Event>): seq<Event> {
    if log == [] then []
    else
      var init, e := log[..|log| - 1], log[|log| - 1];
      if e.Sent? then Requests(init) + [e] else Requests(init)
  }

  lemma {:induction false} RequestsConcat(a: seq<Event>, b: seq<Event>)
    ensures Requests(a + b) == Requests(a) + Requests(b)
  {
    if b == [] {
      assert a + b == a;
    } else {
      var init := b[..|b| - 1];
      assert (a + b)[..|a + b| - 1] == a + init;
      RequestsConcat(a, init);
    }
  }

  /** Attempts 0 to n-1, all with one request. */
  function Replays(q: Payload, n: nat): seq<Event> {
    seq(n, k requires 0 <= k < n => Sent(k, q))
  }

  lemma RequestsOfAttempt(c: Course, k: nat)
    ensures Requests(AttemptEvents(c, k)) == SendEvents(c, k)
  {
    RequestsConcat(BackoffEvents(c, k) + TokenEvents(c, k), SendEvents(c, k));
    RequestsConcat(BackoffEvents(c, k), TokenEvents(c, k));
    NoRequestInBackoff(c, k);
  }

  lemma NoRequestInBackoff(c: Course, k: nat)
    ensures Requests(BackoffEvents(c, k)) == [] && Requests(TokenEvents(c, k)) == []
    ensures Requests(SendEvents(c, k)) == SendEvents(c, k)
  {
    if k > 0 {
      RequestsConcat(if ResponseOf(c.s, k - 1).Some? then [Closed(k - 1)] else [], [Slept(c.waits(k))]);
    }
  }

  lemma RequestStep(a: seq<Event>, b: seq<Event>, q: Payload, n: nat)
    requires Requests(a) == Replays(q, n)
    ensures Requests(b) == [] ==> Requests(a + b) == Replays(q, n)
    ensures Requests(b) == [Sent(n, q)] ==> Requests(a + b) == Replays(q, n + 1)
  {
    RequestsConcat(a, b);
    assert Replays(q, n + 1) == Replays(q, n) + [Sent(n, q)];
    assert Replays(q, n) + [] == Replays(q, n);
  }

  lemma {:induction false} RequestsFlatten(groups: seq<seq<Event>>, q: Payload)
    requires forall k | 0 <= k < |groups| :: Requests(groups[k]) == [Sent(k, q)]
    ensures Requests(Flatten(groups)) == Replays(q, |groups|)
  {
    if groups != [] {
      var n := |groups| - 1;
      RequestsFlatten(groups[..n], q);
      RequestStep(Flatten(groups[..n]), groups[n], q, n);
    }
  }

  lemma RequestsBefore(c: Course, n: nat)
    requires forall k | 0 <= k < n :: !Interrupted(c.s, c.o, k)
    ensures Requests(EventsBefore(c, n)) == Replays(c.q, n)
  {
    var groups := Attempts(c, n);
    forall k | 0 <= k < n ensures Requests(groups[k]) == [Sent(k, c.q)] {
      RequestsOfAttempt(c, k);
    }
    RequestsFlatten(groups, c.q);
  }

  lemma RequestsThrough(c: Course, n: nat)
    requires Requests(EventsBefore(c, n)) == Replays(c.q, n)
    ensures Requests(EventsBefore(c, n + 1)) == Replays(c.q, if Interrupted(c.s, c.o, n) then n else n + 1)
  {
    RequestsOfAttempt(c, n);
    OneMoreAttempt(c, n);
    RequestStep(EventsBefore(c, n), AttemptEvents(c, n), c.q, n);
  }

  /** Every attempt, in order and up to the permitted number, carries the same request. */
  lemma EveryAttemptReplaysTheRequest(c: Course)
    requires c.o.maxAttempts >= 1
    ensures
      var n := LastAttempt(c.s, c.o, 0);
      Requests(Log(c)) == Replays(c.q, if Interrupted(c.s, c.o, n) then n else n + 1)
    ensures |Requests(Log(c))| <= c.o.maxAttempts
  {
    var n := LastAttempt(c.s, c.o, 0);
    LastAttemptIsFirstEnd(c.s, c.o, 0);
    forall k | 0 <= k < n ensures !Interrupted(c.s, c.o, k) {
      assert !Ends(c.s, c.o, k);
    }
    RequestsBefore(c, n);
    RequestsThrough(c, n);
  }

  // ---------- the limiter ----------

  /** Right before each request there is a token. */
  ghost predicate TokenFirst(log: seq<Event>) {
    forall i | 0 <= i < |log| && log[i].Sent? :: i > 0 && log[i - 1] == Token
  }

  lemma TokenStep(a: seq<Event>, b: seq<Event>)
    requires TokenFirst(a) && TokenFirst(b)
    ensures TokenFirst(a + b) && multiset(a + b)[Token] == multiset(a)[Token] + multiset(b)[Token]
  {
    var l := a + b;
    forall i | 0 <= i < |l| && l[i].Sent? ensures i > 0 && l[i - 1] == Token {
      if i >= |a| {
        assert b[i - |a|].Sent? && b[i - |a| - 1] == l[i - 1];
      } else {
        assert a[i].Sent?;
      }
    }
  }

  lemma TokenOfAttempt(c: Course, k: nat)
    requires c.o.limited
    ensures TokenFirst(AttemptEvents(c, k))
    ensures multiset(AttemptEvents(c, k))[Token] == if k > 0 && c.s(k).cancelled then 0 else 1
  {
    NoTokenInBackoff(c, k);
    TokenStep(BackoffEvents(c, k), TokenEvents(c, k) + SendEvents(c, k));
    assert AttemptEvents(c, k) == BackoffEvents(c, k) + (TokenEvents(c, k) + SendEvents(c, k));
  }

  lemma NoTokenInBackoff(c: Course, k: nat)
    requires c.o.limited
    ensures TokenFirst(BackoffEvents(c, k)) && multiset(BackoffEvents(c, k))[Token] == 0
    ensures TokenFirst(TokenEvents(c, k) + SendEvents(c, k))
    ensures multiset(TokenEvents(c, k) + SendEvents(c, k))[Token] == if k > 0 && c.s(k).cancelled then 0 else 1
  {
    var b := BackoffEvents(c, k);
    assert forall i | 0 <= i < |b| :: !b[i].Sent?;
  }

  lemma {:induction false} TokensFlatten(groups: seq<seq<Event>>)
    requires forall k | 0 <= k < |groups| :: TokenFirst(groups[k]) && multiset(groups[k])[Token] == 1
    ensures TokenFirst(Flatten(groups)) && multiset(Flatten(groups))[Token] == |groups|
  {
    if groups != [] {
      var n := |groups| - 1;
      TokensFlatten(groups[..n]);
      TokenStep(Flatten(groups[..n]), groups[n]);
    }
  }

  /** One limiter wait precedes each attempt. */
  lemma OneTokenPerAttempt(c: Course)
    requires c.o.maxAttempts >= 1 && c.o.limited
    ensures TokenFirst(Log(c))
    ensures
      var n := LastAttempt(c.s, c.o, 0);
      multiset(Log(c))[Token] == if n > 0 && c.s(n).cancelled then n else n + 1
  {
    var n := LastAttempt(c.s, c.o, 0);
    LastAttemptIsFirstEnd(c.s, c.o, 0);
    forall k | 0 <= k < n ensures TokenFirst(AttemptEvents(c, k)) && multiset(AttemptEvents(c, k))[Token] == 1 {
      assert !Ends(c.s, c.o, k);
      TokenOfAttempt(c, k);
    }
    TokensFlatten(Attempts(c, n));
    TokenOfAttempt(c, n);
    OneMoreAttempt(c, n);
    TokenStep(EventsBefore(c, n), AttemptEvents(c, n));
  }

  // ---------- who owns the responses ----------

  /** How often the body of attempt j's response is closed. */
  function Closes(log: seq<Event>, j: nat): nat {
    if log == [] then 0
    else Closes(log[..|log| - 1], j) + if log[|log| - 1] == Closed(j) then 1 else 0
  }

  lemma {:induction false} ClosesConcat(a: seq<Event>, b: seq<Event>, j: nat)
    ensures Closes(a + b, j) == Closes(a, j) + Closes(b, j)
  {
    if b == [] {
      assert a + b == a;
    } else {
      var init := b[..|b| - 1];
      assert (a + b)[..|a + b| - 1] == a + init;
      ClosesConcat(a, init, j);
    }
  }

  lemma ClosesOfAttempt(c: Course, k: nat, j: nat)
    ensures Closes(AttemptEvents(c, k), j) == if k == j + 1 && ResponseOf(c.s, j).Some? then 1 else 0
  {
    ClosesConcat(BackoffEvents(c, k) + TokenEvents(c, k), SendEvents(c, k), j);
    ClosesConcat(BackoffEvents(c, k), TokenEvents(c, k), j);
    assert Closes(TokenEvents(c, k), j) == Closes(SendEvents(c, k), j) == 0;
    ClosesOfBackoff(c, k, j);
  }

  lemma ClosesOfBackoff(c: Course, k: nat, j: nat)
    ensures Closes(BackoffEvents(c, k), j) == if k == j + 1 && ResponseOf(c.s, j).Some? then 1 else 0
  {
    if k > 0 {
      var closed := if ResponseOf(c.s, k - 1).Some? then [Closed(k - 1)] else [];
      ClosesConcat(closed, [Slept(c.waits(k))], j);
      assert Closes([Slept(c.waits(k))], j) == 0;
    }
  }

  lemma {:induction false} ClosesFlatten(groups: seq<seq<Event>>, j: nat, got: bool)
    requires forall k | 0 <= k < |groups| :: Closes(groups[k], j) == if k == j + 1 && got then 1 else 0
    ensures Closes(Flatten(groups), j) == if j + 1 < |groups| && got then 1 else 0
  {
    if groups != [] {
      var n := |groups| - 1;
      ClosesFlatten(groups[..n], j, got);
      ClosesConcat(Flatten(groups[..n]), groups[n], j);
    }
  }

  lemma ClosesOfLog(c: Course, n: nat, j: nat)
    ensures Closes(EventsBefore(c, n), j) == if j + 1 < n && ResponseOf(c.s, j).Some? then 1 else 0
  {
    var groups, got := Attempts(c, n), ResponseOf(c.s, j).Some?;
    forall k | 0 <= k < n ensures Closes(groups[k], j) == if k == j + 1 && got then 1 else 0 {
      ClosesOfAttempt(c, k, j);
    }
    ClosesFlatten(groups, j, got);
  }

  /** The request obtained a response at attempt j. */
  ghost predicate Obtained(c: Course, j: nat)
    requires c.o.maxAttempts >= 1
  {
    var n := LastAttempt(c.s, c.o, 0);
    ResponseOf(c.s, j).Some? && (j < n || (j == n && !Interrupted(c.s, c.o, n)))
  }

  /** The request hands attempt j's response to its caller. */
  ghost predicate Returned(c: Course, j: nat)
    requires c.o.maxAttempts >= 1
  {
    var r := Ending(c.s, c.o);
    r.Answer? && r.attempt == j
  }

  /** The last response, if obtained, is returned; nothing else is. */
  lemma OnlyTheLastIsReturned(c: Course, j: nat)
    requires c.o.maxAttempts >= 1
    ensures Returned(c, j) <==> Obtained(c, j) && j == LastAttempt(c.s, c.o, 0)
  {
  }

  /**
   However the request ends, each response it obtained was closed exactly once, except the one it
   returns, which was not; and nothing else is ever closed.
   */
  lemma EveryResponseIsClosedOrReturned(c: Course, j: nat)
    requires c.o.maxAttempts >= 1
    ensures Closes(Log(c), j) == if Obtained(c, j) && !Returned(c, j) then 1 else 0
  {
    ObtainedButNotReturned(c, j);
    ClosedIf(c, j, Obtained(c, j) && !Returned(c, j));
  }

  lemma ClosedIf(c: Course, j: nat, owed: bool)
    requires c.o.maxAttempts >= 1
    requires owed <==> ResponseOf(c.s, j).Some? && j < LastAttempt(c.s, c.o, 0)
    ensures Closes(Log(c), j) == if owed then 1 else 0
  {
    ClosesOfLog(c, LastAttempt(c.s, c.o, 0) + 1, j);
  }

  lemma ObtainedButNotReturned(c: Course, j: nat)
    requires c.o.maxAttempts >= 1
    ensures Obtained(c, j) && !Returned(c, j) <==> ResponseOf(c.s, j).Some? && j < LastAttempt(c.s, c.o, 0)
  {
    OnlyTheLastIsReturned(c, j);
  }

  // ---------- how long it can take ----------

  /** How long a timer runs; one set to nothing or less fires at once. */
  function Lasting(e: Event): nat {
    if e.Slept? then Max(0, e.wait) else 0
  }

  /** The sum of the timers a request sets. */
  function Slumber(log: seq<Event>): nat {
    if log == [] then 0 else Slumber(log[..|log| - 1]) + Lasting(log[|log| - 1])
  }

  lemma {:induction false} SlumberConcat(a: seq<Event>, b: seq<Event>)
    ensures Slumber(a + b) == Slumber(a) + Slumber(b)
  {
    if b == [] {
      assert a + b == a;
    } else {
      var init := b[..|b| - 1];
      assert (a + b)[..|a + b| - 1] == a + init;
      SlumberConcat(a, init);
    }
  }

  lemma SlumberOfAttempt(c: Course, k: nat)
    ensures Slumber(AttemptEvents(c, k)) == if k == 0 then 0 else Max(0, c.waits(k))
  {
    SlumberConcat(BackoffEvents(c, k) + TokenEvents(c, k), SendEvents(c, k));
    SlumberConcat(BackoffEvents(c, k), TokenEvents(c, k));
    if k > 0 {
      SlumberConcat(if ResponseOf(c.s, k - 1).Some? then [Closed(k - 1)] else [], [Slept(c.waits(k))]);
      assert Slumber([Slept(c.waits(k))]) == Max(0, c.waits(k));
    }
  }

  /** `bound` for each of n attempts but the first. */
  function Budget(n: nat, bound: int): int {
    if n <= 1 then 0 else Budget(n - 1, bound) + bound
  }

  lemma {:induction false} BudgetIsProduct(n: nat, bound: int)
    requires n >= 1
    ensures Budget(n, bound) == (n - 1) * bound
  {
    if n > 1 {
      BudgetIsProduct(n - 1, bound);
    }
  }

  lemma {:induction false} BudgetMono(m: nat, n: nat, bound: int)
    requires m <= n && bound > 0
    ensures Budget(m, bound) <= Budget(n, bound)
  {
    if m < n {
      BudgetMono(m, n - 1, bound);
    }
  }

  lemma {:induction false} SlumberFlatten(groups: seq<seq<Event>>, bound: int)
    requires bound > 0 && forall k | 0 <= k < |groups| :: Slumber(groups[k]) <= if k == 0 then 0 else bound
    ensures Slumber(Flatten(groups)) <= Budget(|groups|, bound)
  {
    if groups != [] {
      var n := |groups| - 1;
      SlumberFlatten(groups[..n], bound);
      SlumberConcat(Flatten(groups[..n]), groups[n]);
    }
  }

  lemma SlumberOfLog(c: Course, n: nat, bound: int)
    requires bound > 0 && forall k: nat | k > 0 :: c.waits(k) <= bound
    ensures Slumber(EventsBefore(c, n)) <= Budget(n, bound)
  {
    var groups := Attempts(c, n);
    forall k | 0 <= k < n ensures Slumber(groups[k]) <= if k == 0 then 0 else bound {
      SlumberOfAttempt(c, k);
    }
    SlumberFlatten(groups, bound);
  }

  /** A request's timers last at most the maximum backoff for each attempt but the first, even where products wrap. */
  lemma SleepBudget(s: Script, o: Options, q: Payload)
    requires ValidOptions(o)
    ensures Slumber(Log(CourseOf(s, o, q))) <= (o.maxAttempts - 1) * o.maxBackoff
  {
    var c := CourseOf(s, o, q);
    var n := LastAttempt(s, o, 0);
    SlumberOfLog(c, n + 1, o.maxBackoff);
    BudgetMono(n + 1, o.maxAttempts, o.maxBackoff);
    BudgetIsProduct(o.maxAttempts, o.maxBackoff);
  }

  // ---------- when every wait is positive ----------

  ghost predicate AllWaitsPositive(log: seq<Event>) {
    forall i | 0 <= i < |log| && log[i].Slept? :: log[i].wait > 0
  }

  lemma PositiveOfAttempt(c: Course, k: nat)
    requires k > 0 ==> c.waits(k) > 0
    ensures AllWaitsPositive(AttemptEvents(c, k))
  {
  }

  lemma {:induction false} PositiveFlatten(groups: seq<seq<Event>>)
    requires forall k | 0 <= k < |groups| :: AllWaitsPositive(groups[k])
    ensures AllWaitsPositive(Flatten(groups))
  {
    if groups != [] {
      PositiveFlatten(groups[..|groups| - 1]);
    }
  }

  /** If the last wait a request may come to fits 64 bits, every timer it sets is positive, whatever the server asks. */
  lemma WaitsArePositive(s: Script, o: Options, q: Payload)
    requires ValidOptions(o) && FitsInt64(o.maxAttempts - 1, o.initialBackoff, o.maxBackoff)
    ensures AllWaitsPositive(Log(CourseOf(s, o, q)))
  {
    var c := CourseOf(s, o, q);
    var groups := Attempts(c, LastAttempt(s, o, 0) + 1);
    forall k | 0 <= k < |groups| ensures AllWaitsPositive(groups[k]) {
      if k > 0 {
        WaitBeforeIsPositive(s, o, k);
      }
      PositiveOfAttempt(c, k);
    }
    PositiveFlatten(groups);
  }

  lemma WaitBeforeIsPositive(s: Script, o: Options, k: nat)
    requires 0 < k < o.maxAttempts && ValidOptions(o)
    requires FitsInt64(o.maxAttempts - 1, o.initialBackoff, o.maxBackoff)
    ensures WaitBefore(s, o, k) > 0
  {
    var base := BaseWait(k, o.initialBackoff, o.maxBackoff);
    FitsEarlier(k, o.maxAttempts - 1, o.initialBackoff, o.maxBackoff);
    WaitBounds(k, ResponseOf(s, k - 1), o.initialBackoff, o.maxBackoff, s(k).draw % JitterBound(base));
  }

  // ---------- a request through the transport ----------

  /** What the log of a request and its result keep, for the payload it must replay. */
  ghost predicate Kept(c: Course, log: seq<Event>, r: Result)
    requires c.o.maxAttempts >= 1
  {
    && |Requests(log)| <= c.o.maxAttempts && Requests(log) == Replays(c.q, |Requests(log)|)
    && (c.o.limited ==> TokenFirst(log))
    && (forall j: nat :: Closes(log, j) == if Obtained(c, j) && !Returned(c, j) then 1 else 0)
    && Slumber(log) <= (c.o.maxAttempts - 1) * c.o.maxBackoff
    && (FitsInt64(c.o.maxAttempts - 1, c.o.initialBackoff, c.o.maxBackoff) ==> AllWaitsPositive(log))
    && r == Ending(c.s, c.o)
  }

  lemma CourseKeeps(s: Script, o: Options, q: Payload)
    requires ValidOptions(o)
    ensures Kept(CourseOf(s, o, q), Log(CourseOf(s, o, q)), Ending(s, o))
  {
    var c := CourseOf(s, o, q);
    AllReplay(c);
    if o.limited {
      OneTokenPerAttempt(c);
    }
    AllClosedOrReturned(c);
    SleepBudget(s, o, q);
    if FitsInt64(o.maxAttempts - 1, o.initialBackoff, o.maxBackoff) {
      WaitsArePositive(s, o, q);
    }
  }

  lemma AllReplay(c: Course)
    requires c.o.maxAttempts >= 1
    ensures |Requests(Log(c))| <= c.o.maxAttempts && Requests(Log(c)) == Replays(c.q, |Requests(Log(c))|)
  {
    EveryAttemptReplaysTheRequest(c);
  }

  lemma AllClosedOrReturned(c: Course)
    requires c.o.maxAttempts >= 1
    ensures forall j: nat :: Closes(Log(c), j) == if Obtained(c, j) && !Returned(c, j) then 1 else 0
  {
    forall j: nat ensures Closes(Log(c), j) == if Obtained(c, j) && !Returned(c, j) then 1 else 0 {
      EveryResponseIsClosedOrReturned(c, j);
    }
  }

  // ---------- by the transport's own settings ----------

  /** No limiter, no token. */
  lemma {:induction false} NoTokens(c: Course, n: nat)
    requires !c.o.limited
    ensures Token !in EventsBefore(c, n)
  {
    if n > 0 {
      OneMoreAttempt(c, n - 1);
      NoTokens(c, n - 1);
      assert Token !in AttemptEvents(c, n - 1);
    }
  }

  /** One timer before each request but the first, and perhaps one more after the last. */
  lemma OneTimerPerRetry(c: Course)
    requires c.o.maxAttempts >= 1
    ensures |Waits(Log(c))| <= |Requests(Log(c))| <= |Waits(Log(c))| + 1
  {
    EveryAttemptReplaysTheRequest(c);
    WaitsOfLog(c, LastAttempt(c.s, c.o, 0));
  }

  /**
   What a log owes to the settings: a limiter's token right before every request, or none at all;
   timers as the two backoffs and the responses say, zero or less standing for 200 ms and 10 s, each
   right after the close it follows and before the request it delays; and no more than the retries.
   */
  ghost predicate SettingsKept(t: Transport, log: seq<Event>) {
    var initial := if t.initialBackoff > 0 then t.initialBackoff else 200_000_000;
    var max := if t.maxBackoff > 0 then t.maxBackoff else 10_000_000_000;
    && (if t.limited then TokenFirst(log) else Token !in log)
    && TimersAsSet(t.world.script, initial, max, log) && InOrder(log, t.limited)
    && |Waits(log)| <= |Requests(log)| <= |Waits(log)| + 1
    && |Requests(log)| <= Max(0, t.maxRetries) + 1
  }

  lemma LogKeepsSettings(t: Transport, q: Payload)
    ensures SettingsKept(t, Log(CourseOf(t.world.script, t.ResolveOptions(), q)))
  {
    var o := t.ResolveOptions();
    var c := CourseOf(t.world.script, o, q);
    var n := LastAttempt(t.world.script, o, 0);
    if t.limited {
      OneTokenPerAttempt(c);
    } else {
      NoTokens(c, n + 1);
    }
    TimersFollowSettings(t.world.script, o, q, n);
    LogInOrder(c, n + 1);
    OneTimerPerRetry(c);
    EveryAttemptReplaysTheRequest(c);
  }

  /** A request on a fresh log: a body that cannot be read is never sent, and otherwise all of the above holds. */
  method Exchange(t: Transport, req: Request) returns (r: Result)
    requires ValidRequest(req) && t.world.log == []
    modifies t.world`log, Bodies(req)
    ensures !old(BodyReadable(req)) ==> r == BodyError && t.world.log == []
    ensures old(BodyReadable(req)) ==>
      && SettingsKept(t, t.world.log)
      && Kept(CourseOf(t.world.script, t.ResolveOptions(), old(WholePayload(req))), t.world.log, r)
  {
    ghost var q, readable := WholePayload(req), BodyReadable(req);
    r := t.RoundTrip(req);
    if readable {
      EndedCourseKeeps(t, q, t.world.log, r);
    }
  }

  lemma EndedCourseKeeps(t: Transport, q: Payload, log: seq<Event>, r: Result)
    requires
      var (s, o) := (t.world.script, t.ResolveOptions());
      && r == ResultAt(s, o, LastAttempt(s, o, 0))
      && log == [] + EventsBefore(CourseOf(s, o, q), LastAttempt(s, o, 0) + 1)
    ensures SettingsKept(t, log) && Kept(CourseOf(t.world.script, t.ResolveOptions(), q), log, r)
  {
    var s, o := t.world.script, t.ResolveOptions();
    CourseKeeps(s, o, q);
    LogKeepsSettings(t, q);
    assert log == Log(CourseOf(s, o, q));
  }
}
