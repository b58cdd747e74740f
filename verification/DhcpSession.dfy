/**
 A server answering tool calls one after another: each call goes to its handler, and what the
 handlers promise of one call gives the safety of the whole session.
 */
module DhcpSession {
  import opened NetipText
  import opened Guards
  import opened Requests
  import opened DhcpState
  import opened DhcpRuns
  import opened DhcpTools

  /** Hands a call to the handler registered for its tool. */
  method Dispatch(server: Server, c: Call) returns (r: Reply, ghost trace: Trace)
    requires Lawful(server.v6)
    modifies server.appliance
    ensures server.appliance.log == old(server.appliance.log) + trace
    ensures Answered(server.v6, server.g, old(server.appliance.db), c, r, server.appliance.db, trace)
  {
    match c {
      case StaticAdd(s, name, ip, mac) => r, trace := server.StaticAdd(s, name, ip, mac);
      case StaticDelete(s, ip) => r, trace := server.StaticDelete(s, ip);
      case ScopeCreate(s, address, prefix, name) => r, trace := server.ScopeCreate(s, address, prefix, name);
      case ScopeDelete(s, address) => r, trace := server.ScopeDelete(s, address);
      case RangeCreate(s, start, end, scope, name) => r, trace := server.RangeCreate(s, start, end, scope, name);
      case RangeDelete(s, start, end) => r, trace := server.RangeDelete(s, start, end);
      case SharedNetworkCreate(s, name) => r, trace := server.SharedNetworkCreate(s, name);
      case SharedNetworkDelete(s, name) => r, trace := server.SharedNetworkDelete(s, name);
      case GroupCreate(s, name) => r, trace := server.GroupCreate(s, name);
      case GroupDelete(s, name) => r, trace := server.GroupDelete(s, name);
    }
  }

  /**
   Whatever is called, in whatever order, and however requests fail: every object that touches a
   protected subnet, or cannot be told not to, is there at the end as it was, and none was added
   but by an unaligned scope create. With aligned creates the guarded objects are the same at both
   ends; in read-only mode nothing is sent and nothing changes. A session whose requests all succeed
   does every permitted call and refuses the others.
   */
  method Serve(server: Server, calls: seq<Call>)
    returns (replies: seq<Reply>, ghost states: seq<Db>, ghost traces: seq<Trace>)
    requires Lawful(server.v6)
    modifies server.appliance
    ensures |replies| == |traces| == |calls| && IsRun(server.v6, server.g, states, calls)
    ensures states[0] == old(server.appliance.db) && states[|calls|] == server.appliance.db
    ensures server.appliance.log == old(server.appliance.log) + Joined(traces)
    ensures forall i | 0 <= i < |calls| ::
      Answered(server.v6, server.g, states[i], calls[i], replies[i], states[i + 1], traces[i])
    ensures Conserves(server.v6, server.g, old(server.appliance.db), calls, server.appliance.db)
    ensures AllAligned(server.v6, calls) ==>
      SameGuarded(server.v6, server.g, old(server.appliance.db), server.appliance.db)
    ensures server.g.readOnly ==>
      && server.appliance.db == old(server.appliance.db)
      && forall i | 0 <= i < |calls| :: replies[i] == Refused && traces[i] == []
    ensures AllOk(Joined(traces)) ==>
      forall i | 0 <= i < |calls| ::
        replies[i] == if Permitted(server.v6, server.g, states[i], calls[i]) then Done else Refused
  {
    replies, states, traces := [], [server.appliance.db], [];
    ghost var log := server.appliance.log;
    for i := 0 to |calls|
      invariant |replies| == |traces| == i && |states| == i + 1
      invariant states[0] == old(server.appliance.db) && states[i] == server.appliance.db
      invariant server.appliance.log == log + Joined(traces)
      invariant AllAnswered(server.v6, server.g, states, calls[..i], replies, traces)
    {
      ghost var before := server.appliance.db;
      var r;
      ghost var trace;
      r, trace := Dispatch(server, calls[i]);
      AnsweredGrows(server.v6, server.g, states, calls, replies, traces, i, r, server.appliance.db, trace);
      JoinedGrows(traces, trace, log);
      replies, states, traces := replies + [r], states + [server.appliance.db], traces + [trace];
    }
    assert calls[..|calls|] == calls;
    AnsweredRun(server.v6, server.g, states, calls, replies, traces);
    RunsConserve(server.v6, server.g, states, calls);
    if AllAligned(server.v6, calls) {
      AlignedRunsConserveGuarded(server.v6, server.g, states, calls);
    }
    if server.g.readOnly {
      ReadOnlyRunsChangeNothing(server.v6, server.g, states, calls);
    }
  }

  /** Every call so far was answered, one after another. */
  ghost predicate AllAnswered(
      v6: Ipv6Text, g: Guardrails, states: seq<Db>, calls: seq<Call>, replies: seq<Reply>, traces: seq<Trace>)
  {
    && |replies| == |traces| == |calls| && |states| == |calls| + 1
    && forall i | 0 <= i < |calls| :: Answered(v6, g, states[i], calls[i], replies[i], states[i + 1], traces[i])
  }

  lemma AnsweredGrows(
      v6: Ipv6Text, g: Guardrails, states: seq<Db>, calls: seq<Call>, replies: seq<Reply>, traces: seq<Trace>,
      n: nat, r: Reply, next: Db, trace: Trace)
    requires n < |calls| && AllAnswered(v6, g, states, calls[..n], replies, traces)
    requires Answered(v6, g, states[n], calls[n], r, next, trace)
    ensures AllAnswered(v6, g, states + [next], calls[..n + 1], replies + [r], traces + [trace])
  {
    var s, c, q, t := states + [next], calls[..n + 1], replies + [r], traces + [trace];
    forall i | 0 <= i < n + 1 ensures Answered(v6, g, s[i], c[i], q[i], s[i + 1], t[i]) {
      if i < n {
        assert Answered(v6, g, states[i], calls[..n][i], replies[i], states[i + 1], traces[i]);
      }
    }
  }

  /** Answered calls are a run, and their requests decide the replies. */
  lemma AnsweredRun(
      v6: Ipv6Text, g: Guardrails, states: seq<Db>, calls: seq<Call>, replies: seq<Reply>, traces: seq<Trace>)
    requires AllAnswered(v6, g, states, calls, replies, traces)
    ensures IsRun(v6, g, states, calls)
    ensures g.readOnly ==> forall i | 0 <= i < |calls| :: replies[i] == Refused && traces[i] == []
    ensures AllOk(Joined(traces)) ==>
      forall i | 0 <= i < |calls| :: replies[i] == if Permitted(v6, g, states[i], calls[i]) then Done else Refused
  {
    forall i | 0 <= i < |calls| ensures Next(v6, g, states[i], calls[i], states[i + 1]) {
      AnswersAreSteps(v6, g, states[i], calls[i], replies[i], states[i + 1], traces[i]);
    }
    forall i | 0 <= i < |calls| && g.readOnly ensures replies[i] == Refused && traces[i] == [] {
      ReadOnlyRefuses(v6, g, states[i], calls[i], replies[i], states[i + 1], traces[i]);
    }
    if AllOk(Joined(traces)) {
      forall i | 0 <= i < |calls|
        ensures replies[i] == if Permitted(v6, g, states[i], calls[i]) then Done else Refused
      {
        AllOkEach(traces, i);
        SuccessDecides(v6, g, states[i], calls[i], replies[i], states[i + 1], traces[i]);
      }
    }
  }

  lemma ReadOnlyRefuses(v6: Ipv6Text, g: Guardrails, before: Db, c: Call, r: Reply, after: Db, trace: Trace)
    requires g.readOnly && Answered(v6, g, before, c, r, after, trace)
    ensures r == Refused && trace == []
  {
  }
}
