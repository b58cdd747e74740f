/**
 The timers of a request, in order: how many there are, where they stand in its log, and how long
 each is set to, given the settings and the response before it.
 */
module RetryWaits {
  import opened Wrappers
  import opened Arithmetic
  import opened Backoff
  import opened RetryTransport

  // ---------- the timers of a log ----------

  /** What the timers of a log were set to. */
  function Waits(log: seq<Event>): seq<int> {
    if log == [] then []
    else
      var init, e := log[..|log| - 1], log[|log| - 1];
      if e.Slept? then Waits(init) + [e.wait] else Waits(init)
  }

  lemma {:induction false} WaitsConcat(a: seq<Event>, b: seq<Event>)
    ensures Waits(a + b) == Waits(a) + Waits(b)
  {
    if b == [] {
      assert a + b == a;
    } else {
      var init := b[..|b| - 1];
      assert (a + b)[..|a + b| - 1] == a + init;
      WaitsConcat(a, init);
    }
  }

  lemma WaitsOfAttempt(c: Course, k: nat)
    ensures Waits(AttemptEvents(c, k)) == if k == 0 then [] else [c.waits(k)]
  {
    WaitsConcat(BackoffEvents(c, k) + TokenEvents(c, k), SendEvents(c, k));
    WaitsConcat(BackoffEvents(c, k), TokenEvents(c, k));
    if k > 0 {
      var closed := if ResponseOf(c.s, k - 1).Some? then [Closed(k - 1)] else [];
      WaitsConcat(closed, [Slept(c.waits(k))]);
      assert Waits(closed) == [] && Waits([Slept(c.waits(k))]) == [c.waits(k)];
    }
  }

  function FirstWaits(c: Course, n: nat): seq<int> {
    seq(n, k requires 0 <= k < n => c.waits(k + 1))
  }

  /** One timer for each attempt but the first, in order. */
  lemma {:induction false} WaitsOfLog(c: Course, n: nat)
    ensures Waits(EventsBefore(c, n + 1)) == FirstWaits(c, n)
  {
    OneMoreAttempt(c, n);
    WaitsConcat(EventsBefore(c, n), AttemptEvents(c, n));
    WaitsOfAttempt(c, n);
    if n > 0 {
      WaitsOfLog(c, n - 1);
      assert FirstWaits(c, n) == FirstWaits(c, n - 1) + [c.waits(n)];
    }
  }

  // ---------- how long a timer is set to ----------

  /**
   The wait w before attempt k: at most the maximum; what the response before it asks for, if it
   asks; else, when nothing overflows, from b to 5b/4 for b = initial * 2^min(k-1, 10) or the maximum.
   */
  ghost predicate WaitAsSet(initial: int, max: int, resp: Option<Response>, k: nat, w: int)
    requires k > 0
  {
    && w <= max
    && (ServerWait(resp) > 0 ==> w == Min(ServerWait(resp), max))
    && (ServerWait(resp) <= 0 && FitsInt64(k, initial, max) ==>
          var b := Min(initial * Pow2(Min(k - 1, 10)), max);
          0 < b <= w <= b + b / 4)
  }

  /** Timer k of the log is the wait before attempt k+1. */
  ghost predicate TimersAsSet(s: Script, initial: int, max: int, log: seq<Event>) {
    var w := Waits(log);
    forall k | 0 <= k < |w| :: WaitAsSet(initial, max, ResponseOf(s, k), k + 1, w[k])
  }

  lemma TimersFollowSettings(s: Script, o: Options, q: Payload, n: nat)
    requires o.initialBackoff > 0 && o.maxBackoff > 0
    ensures
      var log := EventsBefore(CourseOf(s, o, q), n + 1);
      |Waits(log)| == n && TimersAsSet(s, o.initialBackoff, o.maxBackoff, log)
  {
    var c := CourseOf(s, o, q);
    WaitsOfLog(c, n);
    forall k | 0 <= k < n
      ensures WaitAsSet(o.initialBackoff, o.maxBackoff, ResponseOf(s, k), k + 1, c.waits(k + 1))
    {
      WaitBeforeAsSet(s, o, k + 1);
    }
  }

  lemma WaitBeforeAsSet(s: Script, o: Options, k: nat)
    requires k > 0 && o.initialBackoff > 0 && o.maxBackoff > 0
    ensures WaitAsSet(o.initialBackoff, o.maxBackoff, ResponseOf(s, k - 1), k, WaitBefore(s, o, k))
  {
    var jitter := s(k).draw % JitterBound(BaseWait(k, o.initialBackoff, o.maxBackoff));
    WaitFacts(k, ResponseOf(s, k - 1), o.initialBackoff, o.maxBackoff, jitter);
  }

  // ---------- where the timers stand ----------

  /**
   Right before the request of every later attempt, or before its token, a timer; and right before
   a timer the close of the response before, if one is closed at all.
   */
  ghost predicate InOrder(log: seq<Event>, limited: bool) {
    && (forall i | 0 <= i < |log| && log[i].Sent? && log[i].attempt > 0 :: TimerBefore(log, i, limited))
    && (forall i | 0 <= i < |log| && log[i].Closed? :: i + 1 < |log| && log[i + 1].Slept?)
  }

  predicate TimerBefore(log: seq<Event>, i: nat, limited: bool)
    requires i < |log|
  {
    var j := if limited then i - 2 else i - 1;
    j >= 0 && log[j].Slept?
  }

  lemma InOrderConcat(a: seq<Event>, b: seq<Event>, limited: bool)
    requires InOrder(a, limited) && InOrder(b, limited)
    ensures InOrder(a + b, limited)
  {
    var l := a + b;
    forall i | 0 <= i < |l| && l[i].Sent? && l[i].attempt > 0 ensures TimerBefore(l, i, limited) {
      if i < |a| {
        assert TimerBefore(a, i, limited);
      } else {
        assert TimerBefore(b, i - |a|, limited);
      }
    }
    forall i | 0 <= i < |l| && l[i].Closed? ensures i + 1 < |l| && l[i + 1].Slept? {
      if i >= |a| {
        assert b[i - |a|].Closed?;
      }
    }
  }

  lemma AttemptInOrder(c: Course, k: nat)
    ensures InOrder(AttemptEvents(c, k), c.o.limited)
  {
    var l := AttemptEvents(c, k);
    if k > 0 {
      var closed := if ResponseOf(c.s, k - 1).Some? then [Closed(k - 1)] else [];
      assert l == closed + [Slept(c.waits(k))] + TokenEvents(c, k) + SendEvents(c, k);
    }
  }

  lemma {:induction false} LogInOrder(c: Course, n: nat)
    ensures InOrder(EventsBefore(c, n), c.o.limited)
  {
    if n > 0 {
      LogInOrder(c, n - 1);
      OneMoreAttempt(c, n - 1);
      AttemptInOrder(c, n - 1);
      InOrderConcat(EventsBefore(c, n - 1), AttemptEvents(c, n - 1), c.o.limited);
    }
  }
}
