/** How guards, tools and requests to the appliance end, and the log of what was asked of it. */
module Requests {
  /** How a guard over resolved objects answers: nothing protected, refused, or the lookup failed. */
  datatype Verdict = Pass | Refuse | Failed

  /** How a tool answers: carried out; refused by a guard or a validator; or failed at the appliance. */
  datatype Reply = Done | Refused | ApiError

  /** A request that was sent, and whether the appliance reported success. */
  datatype Sent<R> = Sent(request: R, ok: bool)

  predicate AllOk<R>(trace: seq<Sent<R>>) {
    forall i | 0 <= i < |trace| :: trace[i].ok
  }

  /** One trace after another. */
  function Joined<R>(traces: seq<seq<Sent<R>>>): seq<Sent<R>> {
    if traces == [] then [] else Joined(traces[..|traces| - 1]) + traces[|traces| - 1]
  }

  lemma {:induction false} AllOkEach<R>(traces: seq<seq<Sent<R>>>, i: nat)
    requires i < |traces| && AllOk(Joined(traces))
    ensures AllOk(traces[i])
  {
    var n := |traces| - 1;
    var before, last := Joined(traces[..n]), traces[n];
    assert forall k | 0 <= k < |before| :: Joined(traces)[k] == before[k];
    assert forall k | 0 <= k < |last| :: Joined(traces)[|before| + k] == last[k];
    if i < n {
      AllOkEach(traces[..n], i);
    }
  }

  lemma JoinedGrows<R>(traces: seq<seq<Sent<R>>>, more: seq<Sent<R>>, start: seq<Sent<R>>)
    ensures start + Joined(traces + [more]) == (start + Joined(traces)) + more
  {
    assert (traces + [more])[..|traces|] == traces;
  }

  /** Whether a request is carried out, and whether its success is reported. */
  method Fate() returns (carried: bool, ok: bool)
    ensures ok ==> carried
  {
    var reported: bool := *;
    carried := *;
    ok := carried && reported;
  }
}
