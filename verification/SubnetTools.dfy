/**
 The tools that create, edit and delete subnets, in the order the code checks things, and when
 each lets a call through. What a delete that has more targets than a page lets through depends on
 the page it saw: `Permitted` is then what it must let through, or what it may.
 */
module SubnetTools {
  import opened Wrappers
  import opened Text
  import opened NetipText
  import opened Validation
  import opened Guards
  import opened Pages
  import opened Requests
  import opened Ipam
  import opened SubnetGuards

  /** The three mutating tools, with the inputs their callers give. */
  datatype Call =
    | SubnetCreate(space: string, name: string, address: string, prefix: string)
    | SubnetUpdate(id: int, name: string, prefix: string, className: string, space: string)
    | SubnetDelete(space: string, address: string)

  datatype Strength = Must | May

  // ---------- when a call is let through ----------

  predicate SpaceFree(g: Guardrails, space: string) {
    space == "" || !NamedByEntry(g.protectedSpaces, space)
  }

  ghost predicate CreatePermitted(v6: Ipv6Text, g: Guardrails, c: Call)
    requires c.SubnetCreate?
  {
    && Visible(c.space) && SpaceFree(g, c.space) && Visible(c.name)
    && CanonicalBlock(v6, c.address, c.prefix).Some?
    && ClearBlock(v6, g.protectedSubnets, CanonicalBlock(v6, c.address, c.prefix).value)
  }

  /** A positive id, NUL-free fields, a length of 0 to 128 if one is given, and something to change. */
  ghost predicate ValidUpdate(c: Call)
    requires c.SubnetUpdate?
  {
    && c.id > 0
    && NUL !in c.name + c.className + c.space
    && (TrimSpace(c.prefix) != "" ==> exists n | 0 <= n <= 128 :: SpellsInt(TrimSpace(c.prefix), n))
    && (c.name != "" || TrimSpace(c.prefix) != "" || c.className != "")
  }

  /** The call's own inputs pass the mode, the guards on them and the validators; nothing is looked up yet. */
  ghost predicate InputsPass(v6: Ipv6Text, g: Guardrails, c: Call) {
    && !g.readOnly
    && match c
       case SubnetCreate(_, _, _, _) => CreatePermitted(v6, g, c)
       case SubnetUpdate(_, _, _, _, space) => SpaceFree(g, space) && ValidUpdate(c)
       case SubnetDelete(space, address) =>
         && Visible(space) && SpaceFree(g, space)
         && ValidIP(v6, address) && !Offends(v6, g.protectedSubnets, address)
  }

  predicate TargetsFit(v6: Ipv6Text, networks: Networks, space: string, address: string) {
    |TargetsOf(v6, networks, space, address)| <= MAX_LIST_LIMIT
  }

  /** The subnet an update edits, when anything is protected, and the targets of a delete pass. */
  ghost predicate ObjectsPass(v6: Ipv6Text, g: Guardrails, networks: Networks, c: Call, strength: Strength) {
    match c
    case SubnetCreate(_, _, _, _) => true
    case SubnetUpdate(id, _, prefix, _, _) =>
      |g.protectedSubnets| + |g.protectedSpaces| > 0 ==>
        id >= 0 && id in networks && UpdateAllowed(v6, g, networks[id], prefix)
    case SubnetDelete(space, address) =>
      |g.protectedSubnets| > 0 && (strength == Must || TargetsFit(v6, networks, space, address)) ==>
        AllExtentsPass(v6, g.protectedSubnets, networks, TargetsOf(v6, networks, space, address))
  }

  ghost predicate Permitted(v6: Ipv6Text, g: Guardrails, networks: Networks, c: Call, strength: Strength) {
    InputsPass(v6, g, c) && ObjectsPass(v6, g, networks, c, strength)
  }

  // ---------- the requests of a call ----------

  /** The lookup a call makes before it writes, if any, and how it went. */
  function Looked(v6: Ipv6Text, g: Guardrails, c: Call, ok: bool): Trace {
    match c
    case SubnetCreate(_, _, _, _) => []
    case SubnetUpdate(id, _, _, _, _) =>
      if |g.protectedSubnets| + |g.protectedSpaces| == 0 then [] else [Sent(IpamNetworkInfo(id), ok)]
    case SubnetDelete(space, address) =>
      if |g.protectedSubnets| == 0 then [] else StartListed(v6, space, address, ok)
  }

  /** The one request a call writes with. */
  function Write(c: Call): Request {
    match c
    case SubnetCreate(space, name, address, prefix) => IpamNetworkAdd(space, address, prefix, name)
    case SubnetUpdate(id, name, prefix, className, _) =>
      IpamNetworkEdit(id, Given(name), NewLength(prefix), Given(className))
    case SubnetDelete(space, address) => IpamNetworkDelete(space, address)
  }

  // ---------- what a call does ----------

  /** The new length of a resize, when the edit is one. */
  function NewLength(prefix: string): Option<string> {
    if TrimSpace(prefix) == "" then None else Some(TrimSpace(prefix))
  }

  ghost predicate Effect(v6: Ipv6Text, before: Networks, c: Call, after: Networks) {
    match c
    case SubnetCreate(space, _, address, prefix) => SubnetAdded(v6, before, space, address, prefix, after)
    case SubnetUpdate(id, _, prefix, _, _) => SubnetEdited(v6, before, id, NewLength(prefix), after)
    case SubnetDelete(space, address) => SubnetsDeleted(v6, before, space, address, after)
  }

  ghost predicate CarriedOut(v6: Ipv6Text, g: Guardrails, before: Networks, c: Call, after: Networks) {
    Permitted(v6, g, before, c, May) && Effect(v6, before, c, after)
  }

  /** One tool call: no effect; or let through and carried out. */
  ghost predicate Next(v6: Ipv6Text, g: Guardrails, before: Networks, c: Call, after: Networks) {
    after == before || CarriedOut(v6, g, before, c, after)
  }

  /**
   What every tool promises of a call, and of the requests it made. It is refused without a request
   when its inputs do not pass, and after its lookup alone when what it names does not. Otherwise its
   one write is sent, and it is done when that succeeds. It fails only when its lookup or its write was
   reported failed; a write that failed may have been carried out all the same.
   */
  ghost predicate Answered(
      v6: Ipv6Text, g: Guardrails, before: Networks, c: Call, r: Reply, after: Networks, trace: Trace)
  {
    match r
    case Done => CarriedOut(v6, g, before, c, after) && trace == Looked(v6, g, c, true) + [Sent(Write(c), true)]
    case Refused =>
      && !Permitted(v6, g, before, c, Must) && after == before
      && trace == if InputsPass(v6, g, c) then Looked(v6, g, c, true) else []
    case ApiError =>
      && InputsPass(v6, g, c)
      && ((trace == Looked(v6, g, c, false) != [] && after == before)
          || (Permitted(v6, g, before, c, May) && trace == Looked(v6, g, c, true) + [Sent(Write(c), false)]
              && (after == before || Effect(v6, before, c, after))))
  }

  /** However a tool answers, its call was a step of a run. */
  lemma AnswersAreSteps(
      v6: Ipv6Text, g: Guardrails, before: Networks, c: Call, r: Reply, after: Networks, trace: Trace)
    requires Answered(v6, g, before, c, r, after, trace)
    ensures Next(v6, g, before, c, after)
  {
  }

  /** A call fails only when the appliance reported its last request failed. */
  lemma FailureIsLogged(
      v6: Ipv6Text, g: Guardrails, before: Networks, c: Call, r: Reply, after: Networks, trace: Trace)
    requires Answered(v6, g, before, c, r, after, trace)
    ensures r.ApiError? ==> trace != [] && !trace[|trace| - 1].ok
  {
  }

  /** No delete of more targets than a page holds. */
  ghost predicate DeleteFits(v6: Ipv6Text, networks: Networks, c: Call) {
    c.SubnetDelete? ==> TargetsFit(v6, networks, c.space, c.address)
  }

  /**
   A call whose requests all succeed is done if it must be let through and refused if it may not;
   what fits a page is done exactly when it is permitted.
   */
  lemma SuccessDecides(
      v6: Ipv6Text, g: Guardrails, before: Networks, c: Call, r: Reply, after: Networks, trace: Trace)
    requires Answered(v6, g, before, c, r, after, trace) && AllOk(trace)
    ensures r.Done? || r.Refused?
    ensures Permitted(v6, g, before, c, Must) ==> r.Done?
    ensures r.Done? ==> Permitted(v6, g, before, c, May)
    ensures DeleteFits(v6, before, c) ==> r == if Permitted(v6, g, before, c, Must) then Done else Refused
  {
    FailureIsLogged(v6, g, before, c, r, after, trace);
  }

  /** Once a permitted call has sent its write, the write's outcome is the answer. */
  lemma WriteAnswers(v6: Ipv6Text, g: Guardrails, before: Networks, c: Call, ok: bool, after: Networks)
    requires Permitted(v6, g, before, c, May)
    requires Effect(v6, before, c, after) || (!ok && after == before)
    ensures
      Answered(
        v6, g, before, c, if ok then Done else ApiError, after,
        Looked(v6, g, c, true) + [Sent(Write(c), ok)])
  {
  }

  // ---------- the handlers ----------

  class SubnetServer {
    const v6: Ipv6Text
    const g: Guardrails
    const ipam: Appliance

    constructor (v6: Ipv6Text, g: Guardrails, ipam: Appliance)
      ensures this.v6 == v6 && this.g == g && this.ipam == ipam
    {
      this.v6, this.g, this.ipam := v6, g, ipam;
    }

    /** `checkSubnetCreateGuardrails`. */
    method CheckSubnetCreateGuardrails(space: string, address: string, prefix: string) returns (refused: bool)
      requires Lawful(v6)
      ensures refused <==>
        || g.readOnly || !SpaceFree(g, space)
        || (if address != "" && prefix != "" then PairOffends(v6, g.protectedSubnets, address, prefix)
            else Offends(v6, g.protectedSubnets, address))
    {
      if g.readOnly {
        return true;
      }
      var spaceRefused := g.CheckProtectedSpace(space);
      if spaceRefused {
        return true;
      }
      if address != "" && prefix != "" {
        refused := g.CheckProtectedSubnetCIDR(v6, address, prefix);
      } else {
        refused := g.CheckProtectedSubnet(v6, address);
        TextCheckIsExact(v6, g.protectedSubnets, address);
      }
    }

    method SubnetCreate(space: string, name: string, address: string, prefix: string)
      returns (r: Reply, ghost trace: Trace)
      requires Lawful(v6)
      modifies ipam
      ensures ipam.log == old(ipam.log) + trace
      ensures
        Answered(
          v6, g, old(ipam.networks), Call.SubnetCreate(space, name, address, prefix), r, ipam.networks, trace)
    {
      ghost var c := Call.SubnetCreate(space, name, address, prefix);
      var refused := CheckSubnetCreateGuardrails(space, address, prefix);
      ValidIffCanonical(v6, address, prefix);
      if refused {
        return Refused, [];
      }
      if !ValidRequiredString(space) || !ValidRequiredString(name) || !ValidSubnetPrefix(v6, address, prefix) {
        return Refused, [];
      }
      var ok := ipam.AddSubnet(v6, space, address, prefix, name);
      WriteAnswers(v6, g, old(ipam.networks), c, ok, ipam.networks);
      return if ok then Done else ApiError, Looked(v6, g, c, true) + [Sent(Write(c), ok)];
    }

    /** `validateSubnetUpdateInput`. */
    method ValidateSubnetUpdateInput(id: int, name: string, prefix: string, className: string, space: string)
      returns (valid: bool)
      ensures valid <==> ValidUpdate(Call.SubnetUpdate(id, name, prefix, className, space))
    {
      var p := TrimSpace(prefix);
      forall n ensures Atoi(p) == Some(n) <==> SpellsInt(p, n) && -MAX_INT64 - 1 <= n <= MAX_INT64 {
        SignedIsSpelled(p, MAX_INT64, n);
      }
      if id <= 0 {
        return false;
      }
      if !ValidOptionalString(name) || !ValidOptionalString(className) || !ValidOptionalString(space) {
        return false;
      }
      if p != "" {
        var n := Atoi(p);
        if n == None || n.value < 0 || n.value > 128 {
          return false;
        }
      }
      if name == "" && p == "" && className == "" {
        return false;
      }
      return true;
    }

    /** The mode, the space guard and the validators of `subnet_update`. */
    method SubnetUpdatePasses(id: int, name: string, prefix: string, className: string, space: string)
      returns (pass: bool)
      ensures pass <==> InputsPass(v6, g, Call.SubnetUpdate(id, name, prefix, className, space))
    {
      if g.readOnly {
        return false;
      }
      var refused := g.CheckProtectedSpace(space);
      if refused {
        return false;
      }
      pass := ValidateSubnetUpdateInput(id, name, prefix, className, space);
    }

    /** `buildIpamNetworkEditInput`: the fields that are given, the length trimmed. */
    method BuildIpamNetworkEditInput(name: string, prefix: string, className: string)
      returns (newName: Option<string>, newPrefix: Option<string>, newClass: Option<string>)
      ensures newName == Given(name) && newPrefix == NewLength(prefix) && newClass == Given(className)
    {
      newName, newPrefix, newClass := None, None, None;
      if name != "" {
        newName := Some(name);
      }
      if TrimSpace(prefix) != "" {
        newPrefix := Some(TrimSpace(prefix));
      }
      if className != "" {
        newClass := Some(className);
      }
    }

    method SubnetUpdate(id: int, name: string, prefix: string, className: string, space: string)
      returns (r: Reply, ghost trace: Trace)
      requires Lawful(v6)
      modifies ipam
      ensures ipam.log == old(ipam.log) + trace
      ensures
        Answered(
          v6, g, old(ipam.networks), Call.SubnetUpdate(id, name, prefix, className, space), r, ipam.networks, trace)
    {
      ghost var c := Call.SubnetUpdate(id, name, prefix, className, space);
      var pass := SubnetUpdatePasses(id, name, prefix, className, space);
      if !pass {
        return Refused, [];
      }
      if |g.protectedSubnets| > 0 || |g.protectedSpaces| > 0 {
        var v := ApplySubnetUpdateProtections(v6, g, ipam, id, prefix);
        if !v.Pass? {
          return if v.Refuse? then Refused else ApiError, Looked(v6, g, c, v.Refuse?);
        }
      }
      var newName, newPrefix, newClass := BuildIpamNetworkEditInput(name, prefix, className);
      var ok := ipam.EditSubnet(v6, id, newName, newPrefix, newClass);
      WriteAnswers(v6, g, old(ipam.networks), c, ok, ipam.networks);
      return if ok then Done else ApiError, Looked(v6, g, c, true) + [Sent(Write(c), ok)];
    }

    /** The mode, the guards and the validators of `subnet_delete`. */
    method SubnetDeletePasses(space: string, address: string) returns (pass: bool)
      requires Lawful(v6)
      ensures pass <==> InputsPass(v6, g, Call.SubnetDelete(space, address))
    {
      if g.readOnly {
        return false;
      }
      var refused := g.CheckProtectedSpace(space);
      if refused {
        return false;
      }
      refused := g.CheckProtectedSubnet(v6, address);
      TextCheckIsExact(v6, g.protectedSubnets, address);
      if refused {
        return false;
      }
      return ValidRequiredString(space) && ValidIP(v6, address);
    }

    method SubnetDelete(space: string, address: string) returns (r: Reply, ghost trace: Trace)
      requires Lawful(v6)
      modifies ipam
      ensures ipam.log == old(ipam.log) + trace
      ensures Answered(v6, g, old(ipam.networks), Call.SubnetDelete(space, address), r, ipam.networks, trace)
    {
      ghost var c := Call.SubnetDelete(space, address);
      var pass := SubnetDeletePasses(space, address);
      if !pass {
        return Refused, [];
      }
      var v;
      ghost var ids;
      v, ids := ApplySubnetDeleteExtentProtection(v6, g, ipam, space, address);
      if !v.Pass? {
        return if v.Refuse? then Refused else ApiError, Looked(v6, g, c, v.Refuse?);
      }
      var ok := ipam.DeleteSubnets(v6, space, address);
      WriteAnswers(v6, g, old(ipam.networks), c, ok, ipam.networks);
      return if ok then Done else ApiError, Looked(v6, g, c, true) + [Sent(Write(c), ok)];
    }
  }
}
