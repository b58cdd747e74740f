/**
 How long the retry transport waits between attempts, in the code's 64-bit signed nanoseconds,
 which wrap. Retry-After is section 10.2.3 of RFC 9110.
 */
module Backoff {
  import opened Wrappers
  import opened Text
  import opened Arithmetic

  const MILLISECOND := 1_000_000
  const SECOND := 1_000_000_000
  const DEFAULT_INITIAL_BACKOFF := 200 * MILLISECOND
  const DEFAULT_MAX_BACKOFF := 10 * SECOND
  const MAX_BACKOFF_SHIFT := 10
  const JITTER_DIVISOR := 4

  predicate IsInt64(x: int) {
    -MAX_INT64 - 1 <= x <= MAX_INT64
  }

  type Int64 = x: int | IsInt64(x)

  /** Two's complement wrap-around to 64 bits. */
  function Wrap64(x: int): (r: int)
    ensures IsInt64(r)
    ensures IsInt64(x) ==> r == x
  {
    var m := x % 0x1_0000_0000_0000_0000;
    if m > MAX_INT64 then m - 0x1_0000_0000_0000_0000 else m
  }

  function Min(a: int, b: int): int {
    if a < b then a else b
  }

  function Max(a: int, b: int): int {
    if a < b then b else a
  }

  /** A response, as far as waiting goes: `dateWait` is the time left to the Retry-After date, if it is one. */
  datatype Response = Response(status: int, retryAfter: string, dateWait: int)

  /** `parseRetryAfter`: seconds as a wrapping product, else a date in the future, else nothing. */
  function ParseRetryAfter(resp: Response): int {
    if resp.retryAfter == "" then 0
    else if Atoi(resp.retryAfter).Some? && Atoi(resp.retryAfter).value > 0
    then Wrap64(Atoi(resp.retryAfter).value * SECOND)
    else if resp.dateWait > 0 then resp.dateWait
    else 0
  }

  /** What the server asked for; zero or less when it asked for nothing usable. */
  function ServerWait(resp: Option<Response>): int {
    if resp.Some? && (resp.value.status == 429 || resp.value.status == 503) then ParseRetryAfter(resp.value) else 0
  }

  function Shift(attempt: int): nat {
    Max(0, Min(attempt - 1, MAX_BACKOFF_SHIFT))
  }

  /** The capped exponential wait, before jitter. */
  function BaseWait(attempt: int, initial: int, max: int): int {
    Min(Wrap64(initial * Pow2(Shift(attempt))), max)
  }

  /** The jitter is drawn below this bound. */
  function JitterBound(base: int): (b: int)
    ensures b > 0
  {
    if base < 0 then 1 else Max(1, base / JITTER_DIVISOR)
  }

  /** The wait before an attempt, given the jitter drawn. */
  function WaitFor(attempt: int, resp: Option<Response>, initial: int, max: int, jitter: int): int {
    if ServerWait(resp) > 0 then Min(ServerWait(resp), max)
    else Min(Wrap64(BaseWait(attempt, initial, max) + jitter), max)
  }

  predicate ValidJitter(attempt: int, initial: int, max: int, jitter: int) {
    0 <= jitter < JitterBound(BaseWait(attempt, initial, max))
  }

  // ---------- bounds ----------

  lemma TenthPower()
    ensures Pow2(10) == 1024
  {
    assert Pow2(5) == 32;
  }

  /** The exponential wait in unbounded arithmetic, before jitter. */
  function ExactWait(attempt: int, initial: int, max: int): int {
    Min(initial * Pow2(Shift(attempt)), max)
  }

  /** Nothing overflows at this attempt: neither the product, nor the largest jitter on the wait. */
  predicate FitsInt64(attempt: int, initial: int, max: int) {
    && initial * Pow2(Shift(attempt)) <= MAX_INT64
    && ExactWait(attempt, initial, max) + JitterBound(ExactWait(attempt, initial, max)) - 1 <= MAX_INT64
  }

  lemma ProductMono(x: int, p: int, q: int)
    requires x > 0 && p <= q
    ensures x * p <= x * q
  {
  }

  lemma JitterMono(a: int, b: int)
    requires a <= b
    ensures a + JitterBound(a) <= b + JitterBound(b)
  {
  }

  /** An attempt fits if a later one does. */
  lemma FitsEarlier(attempt: int, later: int, initial: int, max: int)
    requires 0 < initial && attempt <= later && FitsInt64(later, initial, max)
    ensures FitsInt64(attempt, initial, max)
  {
    Pow2AtMost(Shift(attempt), Shift(later));
    ProductMono(initial, Pow2(Shift(attempt)), Pow2(Shift(later)));
    JitterMono(ExactWait(attempt, initial, max), ExactWait(later, initial, max));
  }

  lemma ProductPositive(x: int, p: int)
    requires x > 0 && p > 0
    ensures x * p > 0
  {
  }

  /**
   Without a usable Retry-After, when nothing overflows, the wait is at least the capped
   exponential b and at most 5b/4; and b is initial * 2^min(attempt-1, 10) or the maximum.
   */
  lemma ExponentialBounds(attempt: int, resp: Option<Response>, initial: int, max: int, jitter: int)
    requires 0 < initial && 0 < max && FitsInt64(attempt, initial, max)
    requires ServerWait(resp) <= 0 && ValidJitter(attempt, initial, max, jitter)
    ensures
      var b := Min(initial * Pow2(Max(0, Min(attempt - 1, 10))), max);
      && 0 < b <= WaitFor(attempt, resp, initial, max, jitter) <= b + b / 4
      && WaitFor(attempt, resp, initial, max, jitter) <= max
  {
    ProductPositive(initial, Pow2(Shift(attempt)));
    assert BaseWait(attempt, initial, max) == ExactWait(attempt, initial, max);
  }

  /** The jitter takes every value up to a quarter of the wait, and one nanosecond's worth at least. */
  lemma JitterIsUpToAQuarter(attempt: int, resp: Option<Response>, initial: int, max: int, jitter: int)
    requires 0 < initial && 0 < max && FitsInt64(attempt, initial, max) && ServerWait(resp) <= 0
    ensures
      var b := Min(initial * Pow2(Max(0, Min(attempt - 1, 10))), max);
      && (ValidJitter(attempt, initial, max, jitter) <==> 0 <= jitter < Max(1, b / 4))
      && (ValidJitter(attempt, initial, max, jitter) ==>
            WaitFor(attempt, resp, initial, max, jitter) == Min(b + jitter, max))
  {
    ProductPositive(initial, Pow2(Shift(attempt)));
    assert BaseWait(attempt, initial, max) == ExactWait(attempt, initial, max);
  }

  /**
   With a Retry-After of any size, even one whose nanoseconds overflow, the wait is positive and at
   most the maximum.
   */
  lemma WaitBounds(attempt: int, resp: Option<Response>, initial: int, max: int, jitter: int)
    requires 0 < initial && 0 < max && (ServerWait(resp) > 0 || FitsInt64(attempt, initial, max))
    requires ValidJitter(attempt, initial, max, jitter)
    ensures 0 < WaitFor(attempt, resp, initial, max, jitter) <= max
  {
    if ServerWait(resp) <= 0 {
      ExponentialBounds(attempt, resp, initial, max, jitter);
    }
  }

  // ---------- when the server asks ----------

  /**
   Only a 429 or a 503 with a header asks for a wait. A header that is no positive number is waited
   for when it is a date in the future; in every other case the wait is as without a response.
   */
  lemma WhoAsks(attempt: int, resp: Response, initial: int, max: int, jitter: int)
    ensures
      resp.status !in {429, 503} || resp.retryAfter == "" ==>
        WaitFor(attempt, Some(resp), initial, max, jitter) == WaitFor(attempt, None, initial, max, jitter)
    ensures
      && resp.status in {429, 503} && resp.retryAfter != ""
      && (Atoi(resp.retryAfter) == None || Atoi(resp.retryAfter).value <= 0) ==>
        WaitFor(attempt, Some(resp), initial, max, jitter) ==
        if resp.dateWait > 0 then Min(resp.dateWait, max) else WaitFor(attempt, None, initial, max, jitter)
  {
  }

  // ---------- seconds the server asks for ----------

  /** A 429 or 503 that asks for this many seconds is waited for so long, or the maximum, whatever the settings. */
  ghost predicate SecondsHonoured(secs: nat) {
    forall attempt, resp: Response, initial, max, jitter |
      && attempt >= 1 && (resp.status == 429 || resp.status == 503) && resp.retryAfter == Decimal(secs)
      && 0 < initial && 0 < max <= MAX_INT64 && ValidJitter(attempt, initial, max, jitter) ::
      WaitFor(attempt, Some(resp), initial, max, jitter) == Min(secs * SECOND, max)
  }

  /** Retry-After seconds are honoured exactly when their nanoseconds fit 64 bits, however long the numeral is. */
  lemma HonouredIffSecondsFit(secs: nat)
    requires 0 < secs
    ensures SecondsHonoured(secs) <==> secs * SECOND <= MAX_INT64
  {
    if secs * SECOND <= MAX_INT64 {
      forall resp: Response | (resp.status == 429 || resp.status == 503) && resp.retryAfter == Decimal(secs)
        ensures ServerWait(Some(resp)) == secs * SECOND
      {
        SecondsAsked(resp, secs);
      }
    } else {
      OverlongIsNotHonoured(secs);
    }
  }

  /** Seconds beyond 64 bits do not read as a number; the header's date, which there is none, would decide. */
  lemma SecondsAsked(resp: Response, secs: nat)
    requires (resp.status == 429 || resp.status == 503) && resp.retryAfter == Decimal(secs) && 0 < secs
    ensures secs <= MAX_INT64 ==> ServerWait(Some(resp)) == Wrap64(secs * SECOND)
    ensures secs > MAX_INT64 ==> ServerWait(Some(resp)) == Max(0, resp.dateWait)
  {
    AtoiReadsDecimal(secs);
    DecimalReadsBack(secs);
  }

  lemma OverlongIsNotHonoured(secs: nat)
    requires 0 < secs && secs * SECOND > MAX_INT64
    ensures !SecondsHonoured(secs)
  {
    var resp := Response(429, Decimal(secs), 0);
    SecondsAsked(resp, secs);
    WrappedIsShort(secs);
    FirstWaitIsShort(resp);
    NotHonouredAtFirst(secs, resp);
  }

  lemma NotHonouredAtFirst(secs: nat, resp: Response)
    requires resp.status == 429 && resp.retryAfter == Decimal(secs) && secs * SECOND > MAX_INT64
    requires WaitFor(1, Some(resp), 1, MAX_INT64, 0) < MAX_INT64
    ensures !SecondsHonoured(secs)
  {
    if SecondsHonoured(secs) {
      HonouredAtFirst(secs, resp);
    }
  }

  lemma HonouredAtFirst(secs: nat, resp: Response)
    requires SecondsHonoured(secs) && resp.status == 429 && resp.retryAfter == Decimal(secs)
    ensures WaitFor(1, Some(resp), 1, MAX_INT64, 0) == Min(secs * SECOND, MAX_INT64)
  {
    FirstBaseWait();
  }

  lemma FirstWaitIsShort(resp: Response)
    requires ServerWait(Some(resp)) < MAX_INT64
    ensures WaitFor(1, Some(resp), 1, MAX_INT64, 0) < MAX_INT64
  {
    FirstBaseWait();
  }

  lemma FirstBaseWait()
    ensures BaseWait(1, 1, MAX_INT64) == 1
    ensures ValidJitter(1, 1, MAX_INT64, 0)
  {
    assert Shift(1) == 0 && Pow2(0) == 1;
  }

  /** A wrapped product of seconds is never the longest wait: it is even. */
  lemma WrappedIsShort(secs: nat)
    ensures Wrap64(secs * SECOND) < MAX_INT64
  {
    assert secs * SECOND == 2 * (secs * (SECOND / 2));
  }

  /** A server that asks for 18446744074 seconds is waited for 290 ms. */
  lemma LongRetryAfterWraps(resp: Response)
    requires resp.status == 429 && resp.retryAfter == Decimal(18446744074)
    ensures WaitFor(1, Some(resp), DEFAULT_INITIAL_BACKOFF, DEFAULT_MAX_BACKOFF, 0) == 290_448_384
  {
    SecondsAsked(resp, 18446744074);
  }

  // ---------- when waits are positive ----------

  /** Every wait that a request of so many attempts can come to is positive. */
  ghost predicate AlwaysWaits(initial: int, max: int, attempts: int) {
    forall attempt, jitter | 1 <= attempt < attempts && ValidJitter(attempt, initial, max, jitter) ::
      WaitFor(attempt, None, initial, max, jitter) > 0
  }

  /** Every wait is positive exactly when the last one leaves room in 64 bits, or there is none. */
  lemma AlwaysWaitsIffFits(initial: int, max: int, attempts: int)
    requires 0 < initial <= MAX_INT64 && 0 < max <= MAX_INT64
    ensures AlwaysWaits(initial, max, attempts) <==> attempts <= 1 || FitsInt64(attempts - 1, initial, max)
  {
    if attempts > 1 {
      if FitsInt64(attempts - 1, initial, max) {
        forall attempt, jitter | 1 <= attempt < attempts && ValidJitter(attempt, initial, max, jitter)
          ensures WaitFor(attempt, None, initial, max, jitter) > 0
        {
          FitsEarlier(attempt, attempts - 1, initial, max);
          WaitBounds(attempt, None, initial, max, jitter);
        }
      } else if initial * Pow2(Shift(attempts - 1)) > MAX_INT64 {
        assert initial * Pow2(0) == initial;
        var k := FirstOverflow(initial, 1, Shift(attempts - 1));
        NegativeWait(k + 1, initial, max, attempts);
      } else {
        JitterOverflow(initial, max, attempts);
      }
    }
  }

  lemma NegativeWait(attempt: int, initial: int, max: int, attempts: int)
    requires 1 <= attempt < attempts && 0 < max && Wrap64(initial * Pow2(Shift(attempt))) < 0
    ensures !AlwaysWaits(initial, max, attempts)
  {
    assert ValidJitter(attempt, initial, max, 0);
    assert WaitFor(attempt, None, initial, max, 0) <= 0;
  }

  lemma JitterOverflow(initial: int, max: int, attempts: int)
    requires 0 < initial && 0 < max <= MAX_INT64 && attempts > 1
    requires initial * Pow2(Shift(attempts - 1)) <= MAX_INT64 && !FitsInt64(attempts - 1, initial, max)
    ensures !AlwaysWaits(initial, max, attempts)
  {
    ProductPositive(initial, Pow2(Shift(attempts - 1)));
    var top := ExactWait(attempts - 1, initial, max);
    var jitter := JitterBound(top) - 1;
    assert BaseWait(attempts - 1, initial, max) == top;
    assert ValidJitter(attempts - 1, initial, max, jitter);
    assert WaitFor(attempts - 1, None, initial, max, jitter) <= 0;
  }

  /** Doubling step by step, the first product past 63 bits wraps to a negative number. */
  lemma {:induction false} FirstOverflow(initial: int, from: nat, last: nat) returns (k: nat)
    requires 1 <= from <= last
    requires 0 < initial * Pow2(from - 1) <= MAX_INT64 && initial * Pow2(last) > MAX_INT64
    ensures from <= k <= last
    ensures Wrap64(initial * Pow2(k)) < 0
    decreases last - from
  {
    assert initial * Pow2(from) == 2 * (initial * Pow2(from - 1));
    if initial * Pow2(from) > MAX_INT64 {
      k := from;
    } else {
      k := FirstOverflow(initial, from + 1, last);
    }
  }

  /** With a base of 200 days, the eleventh wait is negative: its product wraps. The third is not. */
  lemma LongBackoffGoesNegative()
    ensures
      var day := 86400 * SECOND;
      && WaitFor(11, None, 200 * day, 1000 * day, 0) < 0
      && !AlwaysWaits(200 * day, 1000 * day, 12) && AlwaysWaits(200 * day, 1000 * day, 4)
  {
    var day := 86400 * SECOND;
    TenthPower();
    assert Pow2(2) == 4;
    AlwaysWaitsIffFits(200 * day, 1000 * day, 12);
    AlwaysWaitsIffFits(200 * day, 1000 * day, 4);
  }

  // ---------- the wait ----------

  lemma WaitFacts(attempt: int, resp: Option<Response>, initial: int, max: int, jitter: int)
    requires ValidJitter(attempt, initial, max, jitter)
    ensures WaitFor(attempt, resp, initial, max, jitter) <= max
    ensures ServerWait(resp) > 0 ==> WaitFor(attempt, resp, initial, max, jitter) == Min(ServerWait(resp), max)
    ensures 0 < initial && 0 < max && FitsInt64(attempt, initial, max) && ServerWait(resp) <= 0 ==>
      var b := Min(initial * Pow2(Max(0, Min(attempt - 1, 10))), max);
      0 < b <= WaitFor(attempt, resp, initial, max, jitter) <= b + b / 4
    ensures 0 < initial && 0 < max && (ServerWait(resp) > 0 || FitsInt64(attempt, initial, max)) ==>
      0 < WaitFor(attempt, resp, initial, max, jitter)
  {
    if 0 < initial && 0 < max && FitsInt64(attempt, initial, max) && ServerWait(resp) <= 0 {
      ExponentialBounds(attempt, resp, initial, max, jitter);
    }
  }

  /**
   `calculateBackoff`; `draw` is the random source. Never longer than the maximum; what the server
   asked for, if it asked; else from b to 5b/4 for the capped exponential b, when nothing overflows.
   */
  method CalculateBackoff(attempt: int, resp: Option<Response>, initial: int, max: int, draw: nat)
    returns (backoff: int)
    ensures
      var jitter := draw % JitterBound(BaseWait(attempt, initial, max));
      ValidJitter(attempt, initial, max, jitter) && backoff == WaitFor(attempt, resp, initial, max, jitter)
    ensures backoff <= max
    ensures ServerWait(resp) > 0 ==> backoff == Min(ServerWait(resp), max)
    ensures 0 < initial && 0 < max && FitsInt64(attempt, initial, max) && ServerWait(resp) <= 0 ==>
      var b := Min(initial * Pow2(Max(0, Min(attempt - 1, 10))), max);
      0 < b <= backoff <= b + b / 4
    ensures 0 < initial && 0 < max && (ServerWait(resp) > 0 || FitsInt64(attempt, initial, max)) ==> 0 < backoff
  {
    backoff := 0;
    if resp.Some? && (resp.value.status == 429 || resp.value.status == 503) {
      backoff := ParseRetryAfter(resp.value);
    }
    if backoff <= 0 {
      var shift := Max(0, Min(attempt - 1, MAX_BACKOFF_SHIFT));
      var multiplier := Pow2(shift);
      backoff := Wrap64(initial * multiplier);
      backoff := Min(backoff, max);
      var jitterBound := JitterBound(backoff);
      var jitter := draw % jitterBound;
      backoff := Wrap64(backoff + jitter);
    }
    WaitFacts(attempt, resp, initial, max, draw % JitterBound(BaseWait(attempt, initial, max)));
    return Min(backoff, max);
  }
}
