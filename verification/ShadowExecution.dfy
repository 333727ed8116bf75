/** The shadow execution gate: intents are judged, never dispatched, and an operation id
    is good for at most one pass.  Times and durations are integers. */
module ShadowExecution {
  import opened Common

  datatype GateStatus = Pass | Blocked | Expired | Unavailable

  datatype ShadowResult = WouldDispatch | WouldBlock | Indeterminate

  datatype Quality = Good | Stale | Missing | Invalid | Estimated | Unknown

  datatype Reason =
    | UnknownCapability | TargetMismatch | OwnerMismatch | DesiredStateInvalid | RequestTimeInvalid | IntentExpired
    | StateMissing | StateQualityInsufficient | StateTimeInvalid | StateNotFresh
    | ManualOverrideActive | DuplicateOperationId | ConditionsSatisfied

  /** A state value with its type: values of different types are never equal. */
  datatype Value = Flag(b: bool) | Whole(i: int) | Decimal(x: real) | Name(s: string)

  datatype Capability = Capability(
    targetAlias: string, controlOwner: string, allowed: seq<Value>, verification: string,
    maximumAge: int, accepted: seq<Quality>)

  datatype Intent = Intent(
    operationId: string, requestedAt: int, expiresAt: int, targetAlias: string, capability: string,
    desired: Value, controlOwner: string, correlationId: string)

  datatype Evidence = Evidence(observedAt: int, quality: Quality, overrideAt: Option<int>)

  datatype Phase = Received | GateChecking | Finished

  datatype Event = Event(
    phase: Phase, operationId: string, correlationId: string, targetAlias: string, controlOwner: string,
    verification: Option<string>, status: Option<GateStatus>, reason: Option<Reason>, result: Option<ShadowResult>,
    dispatchAttempted: bool)

  datatype Decision = Decision(status: GateStatus, reason: Reason)

  /** The gate's verdict; the state's time and quality are shown once they have been looked at. */
  datatype GateResult = GateResult(decision: Decision, observedAt: Option<int>, quality: Option<Quality>)

  datatype Assessment = Assessment(gate: GateResult, result: ShadowResult, events: seq<Event>, dispatchAttempted: bool)

  datatype Error = NegativeCooldown

  type Capabilities = map<string, Capability>

  // ----- the decision -----

  /** Whether the decision was taken after looking at the state evidence. */
  predicate LooksAtEvidence(reason: Reason) {
    match reason
    case StateQualityInsufficient | StateTimeInvalid | StateNotFresh => true
    case ManualOverrideActive | DuplicateOperationId | ConditionsSatisfied => true
    case _ => false
  }

  /** The checks of the state evidence and of the operation id, which come last. */
  function DecideOnState(c: Capability, seen: set<string>, intent: Intent, e: Evidence, now: int, cooldown: int):
    (d: Decision)
    ensures LooksAtEvidence(d.reason)
  {
    if e.quality !in c.accepted then Decision(Unavailable, StateQualityInsufficient)
    else if e.observedAt > now then Decision(Unavailable, StateTimeInvalid)
    else if now - e.observedAt > c.maximumAge then Decision(Unavailable, StateNotFresh)
    else if e.overrideAt.Some? && now - e.overrideAt.value < cooldown then Decision(Blocked, ManualOverrideActive)
    else if intent.operationId in seen then Decision(Blocked, DuplicateOperationId)
    else Decision(Pass, ConditionsSatisfied)
  }

  function Decide(capabilities: Capabilities, seen: set<string>, intent: Intent, evidence: Option<Evidence>,
                  now: int, cooldown: int): Decision
  {
    if intent.capability !in capabilities then Decision(Blocked, UnknownCapability)
    else
      var c := capabilities[intent.capability];
      if c.targetAlias != intent.targetAlias then Decision(Blocked, TargetMismatch)
      else if c.controlOwner != intent.controlOwner then Decision(Blocked, OwnerMismatch)
      else if intent.desired !in c.allowed then Decision(Blocked, DesiredStateInvalid)
      else if intent.requestedAt > now then Decision(Blocked, RequestTimeInvalid)
      else if now >= intent.expiresAt then Decision(Expired, IntentExpired)
      else if evidence.None? then Decision(Unavailable, StateMissing)
      else DecideOnState(c, seen, intent, evidence.value, now, cooldown)
  }

  function GateResultOf(d: Decision, shown: Option<Evidence>): GateResult {
    GateResult(d, if shown.Some? then Some(shown.value.observedAt) else None,
               if shown.Some? then Some(shown.value.quality) else None)
  }

  /** The registry after an assessment: a duplicate is the one outcome that is not recorded. */
  function Recorded(seen: set<string>, intent: Intent, d: Decision): set<string> {
    if d.reason == DuplicateOperationId then seen else seen + {intent.operationId}
  }

  function ResultOf(status: GateStatus): ShadowResult {
    match status case Pass => WouldDispatch case Unavailable => Indeterminate case _ => WouldBlock
  }

  function EventOf(phase: Phase, intent: Intent, verification: Option<string>, d: Option<Decision>): Event {
    Event(phase, intent.operationId, intent.correlationId, intent.targetAlias, intent.controlOwner, verification,
          if d.Some? then Some(d.value.status) else None, if d.Some? then Some(d.value.reason) else None,
          if d.Some? then Some(ResultOf(d.value.status)) else None, false)
  }

  /** The events before the decision. */
  function Opening(intent: Intent, verification: Option<string>): seq<Event> {
    [EventOf(Received, intent, verification, None), EventOf(GateChecking, intent, verification, None)]
  }

  /** The assessment that ends in decision `d`, with one last event after `events`. */
  function AssessmentOf(
    intent: Intent, verification: Option<string>, events: seq<Event>, d: Decision, shown: Option<Evidence>): Assessment
  {
    var finished := EventOf(Finished, intent, verification, Some(d));
    Assessment(GateResultOf(d, shown), ResultOf(d.status), events + [finished], false)
  }

  /** What assessing an intent answers, given the ids recorded before. */
  function Assessed(capabilities: Capabilities, seen: set<string>, intent: Intent, evidence: Option<Evidence>,
                    now: int, cooldown: int): Assessment
  {
    var d := Decide(capabilities, seen, intent, evidence, now, cooldown);
    var v := if intent.capability in capabilities then Some(capabilities[intent.capability].verification) else None;
    AssessmentOf(intent, v, Opening(intent, v), d, if LooksAtEvidence(d.reason) then evidence else None)
  }

  /** The intent names a known capability with its own target and owner, and a state it
      allows. */
  ghost predicate Addressed(capabilities: Capabilities, intent: Intent) {
    && intent.capability in capabilities
    && capabilities[intent.capability].targetAlias == intent.targetAlias
    && capabilities[intent.capability].controlOwner == intent.controlOwner
    && intent.desired in capabilities[intent.capability].allowed
  }

  ghost predicate Timely(intent: Intent, now: int) {
    intent.requestedAt <= now < intent.expiresAt
  }

  /** The evidence has an accepted quality and is neither from the future nor too old. */
  ghost predicate Usable(c: Capability, e: Evidence, now: int) {
    e.quality in c.accepted && 0 <= now - e.observedAt <= c.maximumAge
  }

  ghost predicate Overridden(e: Evidence, now: int, cooldown: int) {
    e.overrideAt.Some? && now < e.overrideAt.value + cooldown
  }

  /** Each verdict, with its status, exactly when the checks before it hold and its own
      fails: what is wrong with the intent ... */
  lemma IntentVerdicts(capabilities: Capabilities, seen: set<string>, intent: Intent, evidence: Option<Evidence>,
                       now: int, cooldown: int)
    ensures var d := Decide(capabilities, seen, intent, evidence, now, cooldown);
            && (d == Decision(Blocked, UnknownCapability) <==> intent.capability !in capabilities)
            && (intent.capability in capabilities ==>
                  var c := capabilities[intent.capability];
                  && (d == Decision(Blocked, TargetMismatch) <==> c.targetAlias != intent.targetAlias)
                  && (d == Decision(Blocked, OwnerMismatch) <==>
                        c.targetAlias == intent.targetAlias && c.controlOwner != intent.controlOwner)
                  && (d == Decision(Blocked, DesiredStateInvalid) <==>
                        && c.targetAlias == intent.targetAlias && c.controlOwner == intent.controlOwner
                        && intent.desired !in c.allowed))
            && (d == Decision(Blocked, RequestTimeInvalid) <==>
                  Addressed(capabilities, intent) && now < intent.requestedAt)
            && (d == Decision(Expired, IntentExpired) <==>
                  && Addressed(capabilities, intent)
                  && intent.requestedAt <= now && intent.expiresAt <= now)
  {
  }

  /** ... and what is wrong with the state, with the override, or with the operation id. */
  lemma StateVerdicts(capabilities: Capabilities, seen: set<string>, intent: Intent, evidence: Option<Evidence>,
                      now: int, cooldown: int)
    requires Addressed(capabilities, intent) && Timely(intent, now)
    ensures var d := Decide(capabilities, seen, intent, evidence, now, cooldown);
            var c := capabilities[intent.capability];
            && (d == Decision(Unavailable, StateMissing) <==> evidence.None?)
            && (evidence.Some? ==>
                  var e := evidence.value;
                  && (d == Decision(Unavailable, StateQualityInsufficient) <==> e.quality !in c.accepted)
                  && (d == Decision(Unavailable, StateTimeInvalid) <==>
                        e.quality in c.accepted && now < e.observedAt)
                  && (d == Decision(Unavailable, StateNotFresh) <==>
                        e.quality in c.accepted && e.observedAt <= now && e.observedAt + c.maximumAge < now)
                  && (d == Decision(Blocked, ManualOverrideActive) <==>
                        Usable(c, e, now) && Overridden(e, now, cooldown))
                  && (d == Decision(Blocked, DuplicateOperationId) <==>
                        Usable(c, e, now) && !Overridden(e, now, cooldown) && intent.operationId in seen)
                  && (d == Decision(Pass, ConditionsSatisfied) <==>
                        Usable(c, e, now) && !Overridden(e, now, cooldown) && intent.operationId !in seen))
  {
  }

  /** The event is about this intent, and names the verification of its capability. */
  ghost predicate IsAbout(e: Event, capabilities: Capabilities, intent: Intent) {
    && (e.operationId, e.correlationId) == (intent.operationId, intent.correlationId)
    && (e.targetAlias, e.controlOwner) == (intent.targetAlias, intent.controlOwner)
    && (e.verification.Some? <==> intent.capability in capabilities)
    && (intent.capability in capabilities ==> e.verification == Some(capabilities[intent.capability].verification))
    && !e.dispatchAttempted
  }

  /** Every assessment emits exactly received, gate checking and finished, about the intent
      and without dispatch; only the last carries the verdict.  It would dispatch exactly
      when the gate passes and is indeterminate exactly when the state is unavailable.  The
      state's time and quality are shown exactly when it was looked at. */
  lemma ThreeEventsNoDispatch(capabilities: Capabilities, seen: set<string>, intent: Intent, evidence: Option<Evidence>,
                              now: int, cooldown: int)
    ensures var a := Assessed(capabilities, seen, intent, evidence, now, cooldown);
            var d := a.gate.decision;
            && d == Decide(capabilities, seen, intent, evidence, now, cooldown) && !a.dispatchAttempted
            && Map((e: Event) => e.phase, a.events) == [Received, GateChecking, Finished]
            && (forall i :: 0 <= i < 3 ==> IsAbout(a.events[i], capabilities, intent))
            && (forall i :: 0 <= i < 2 ==>
                  a.events[i].status == None && a.events[i].reason == None && a.events[i].result == None)
            && a.events[2].status == Some(d.status) && a.events[2].reason == Some(d.reason)
            && a.events[2].result == Some(a.result)
            && (a.result == WouldDispatch <==> d.status == Pass)
            && (a.result == Indeterminate <==> d.status == Unavailable)
            && (if Addressed(capabilities, intent) && Timely(intent, now) && evidence.Some?
                then (a.gate.quality, a.gate.observedAt)
                     == (Some(evidence.value.quality), Some(evidence.value.observedAt))
                else a.gate.quality == None && a.gate.observedAt == None)
  {
    var a := Assessed(capabilities, seen, intent, evidence, now, cooldown);
    assert |a.events| == 3;
  }

  class Registry {
    var operationIds: set<string>

    constructor () ensures operationIds == {} { operationIds := {}; }

    method Record(id: string)
      modifies this
      ensures operationIds == old(operationIds) + {id}
    {
      operationIds := operationIds + {id};
    }
  }

  class Gate {
    const capabilities: Capabilities
    const registry: Registry

    constructor (capabilities: Capabilities, registry: Registry)
      ensures this.capabilities == capabilities && this.registry == registry
    {
      this.capabilities, this.registry := capabilities, registry;
    }

    /** Every completed assessment decides as `Decide` does on the ids recorded before,
        records its own, and emits exactly three events, none of which dispatches. */
    method Assess(intent: Intent, evidence: Option<Evidence>, now: int, cooldown: int)
      returns (r: Result<Assessment, Error>)
      modifies registry
      ensures r.Err? <==> cooldown < 0
      ensures r.Err? ==> registry.operationIds == old(registry.operationIds)
      ensures r.Ok? ==> registry.operationIds
                        == Recorded(old(registry.operationIds), intent, r.value.gate.decision)
      ensures r.Ok? ==> r.value == Assessed(capabilities, old(registry.operationIds), intent, evidence, now, cooldown)
    {
      if cooldown < 0 { return Err(NegativeCooldown); }
      var known := intent.capability in capabilities;
      var v := if known then Some(capabilities[intent.capability].verification) else None;
      var events := Opening(intent, v);
      var a;
      if !known {
        a := Finish(intent, v, events, Blocked, UnknownCapability, None, true);
        return Ok(a);
      }
      var c := capabilities[intent.capability];
      if c.targetAlias != intent.targetAlias {
        a := Finish(intent, v, events, Blocked, TargetMismatch, None, true);
        return Ok(a);
      }
      if c.controlOwner != intent.controlOwner {
        a := Finish(intent, v, events, Blocked, OwnerMismatch, None, true);
        return Ok(a);
      }
      if intent.desired !in c.allowed {
        a := Finish(intent, v, events, Blocked, DesiredStateInvalid, None, true);
        return Ok(a);
      }
      if intent.requestedAt > now {
        a := Finish(intent, v, events, Blocked, RequestTimeInvalid, None, true);
        return Ok(a);
      }
      if now >= intent.expiresAt {
        a := Finish(intent, v, events, Expired, IntentExpired, None, true);
        return Ok(a);
      }
      if evidence.None? {
        a := Finish(intent, v, events, Unavailable, StateMissing, None, true);
        return Ok(a);
      }
      a := AssessState(c, intent, evidence.value, now, cooldown, v, events);
      r := Ok(a);
    }

    /** The second half of an assessment, once there is evidence to look at. */
    method AssessState(c: Capability, intent: Intent, e: Evidence, now: int, cooldown: int,
                       v: Option<string>, events: seq<Event>)
      returns (a: Assessment)
      modifies registry
      ensures var d := DecideOnState(c, old(registry.operationIds), intent, e, now, cooldown);
              && a == AssessmentOf(intent, v, events, d, Some(e))
              && registry.operationIds == Recorded(old(registry.operationIds), intent, d)
    {
      if e.quality !in c.accepted {
        a := Finish(intent, v, events, Unavailable, StateQualityInsufficient, Some(e), true);
      } else if e.observedAt > now {
        a := Finish(intent, v, events, Unavailable, StateTimeInvalid, Some(e), true);
      } else if now - e.observedAt > c.maximumAge {
        a := Finish(intent, v, events, Unavailable, StateNotFresh, Some(e), true);
      } else if e.overrideAt.Some? && now - e.overrideAt.value < cooldown {
        a := Finish(intent, v, events, Blocked, ManualOverrideActive, Some(e), true);
      } else if intent.operationId in registry.operationIds {
        a := Finish(intent, v, events, Blocked, DuplicateOperationId, Some(e), false);
      } else {
        a := Finish(intent, v, events, Pass, ConditionsSatisfied, Some(e), true);
      }
    }

    method Finish(intent: Intent, verification: Option<string>, events: seq<Event>, status: GateStatus, reason: Reason,
                  shown: Option<Evidence>, record: bool)
      returns (a: Assessment)
      modifies registry
      ensures registry.operationIds == old(registry.operationIds) + (if record then {intent.operationId} else {})
      ensures a == AssessmentOf(intent, verification, events, Decision(status, reason), shown)
    {
      if record { registry.Record(intent.operationId); }
      a := AssessmentOf(intent, verification, events, Decision(status, reason), shown);
    }
  }

  // ----- runs over a shared registry -----

  /** One completed assessment, on whichever gate. */
  datatype Call = Call(capabilities: Capabilities, intent: Intent, evidence: Option<Evidence>, now: int, cooldown: nat)

  function DecisionAfter(seen: set<string>, c: Call): Decision {
    Decide(c.capabilities, seen, c.intent, c.evidence, c.now, c.cooldown)
  }

  /** The shared registry, empty at first, before call number `k`. */
  function RegistryBefore(calls: seq<Call>, k: nat): set<string>
    requires k <= |calls|
  {
    if k == 0 then {}
    else
      var seen := RegistryBefore(calls, k - 1);
      Recorded(seen, calls[k - 1].intent, DecisionAfter(seen, calls[k - 1]))
  }

  function DecisionOf(calls: seq<Call>, k: nat): Decision
    requires k < |calls|
  {
    DecisionAfter(RegistryBefore(calls, k), calls[k])
  }

  /** A run of assessments, each on its own gate, over one registry. */
  method AssessAll(gates: seq<Gate>, registry: Registry, calls: seq<Call>) returns (decisions: seq<Decision>)
    requires |gates| == |calls| && registry.operationIds == {}
    requires forall k :: 0 <= k < |calls| ==>
               gates[k].registry == registry && gates[k].capabilities == calls[k].capabilities
    modifies registry
    ensures |decisions| == |calls| && forall k :: 0 <= k < |calls| ==> decisions[k] == DecisionOf(calls, k)
    ensures registry.operationIds == RegistryBefore(calls, |calls|)
  {
    decisions := [];
    for k := 0 to |calls|
      invariant |decisions| == k && registry.operationIds == RegistryBefore(calls, k)
      invariant forall j :: 0 <= j < k ==> decisions[j] == DecisionOf(calls, j)
    {
      var c := calls[k];
      var a := gates[k].Assess(c.intent, c.evidence, c.now, c.cooldown);
      decisions := decisions + [a.value.gate.decision];
    }
  }

  /** What an intent must meet to pass, the operation id aside. */
  ghost predicate Acceptable(
    capabilities: Capabilities, intent: Intent, evidence: Option<Evidence>, now: int, cooldown: int)
  {
    && Addressed(capabilities, intent) && Timely(intent, now) && evidence.Some?
    && Usable(capabilities[intent.capability], evidence.value, now) && !Overridden(evidence.value, now, cooldown)
  }

  /** The registry is exactly the set of ids assessed so far, although a duplicate is not
      recorded. */
  lemma {:induction false} RegistryIsAssessed(calls: seq<Call>, k: nat)
    requires k <= |calls|
    ensures forall id :: id in RegistryBefore(calls, k) <==> exists j :: 0 <= j < k && calls[j].intent.operationId == id
  {
    if k > 0 {
      RegistryIsAssessed(calls, k - 1);
      assert calls[k - 1].intent.operationId in RegistryBefore(calls, k);
    }
  }

  /** A call passes exactly when its intent is acceptable and its operation id has never
      been assessed before, on any gate and with any outcome. */
  lemma PassesExactly(calls: seq<Call>, k: nat)
    requires k < |calls|
    ensures var c := calls[k];
            DecisionOf(calls, k).status == Pass <==>
              && Acceptable(c.capabilities, c.intent, c.evidence, c.now, c.cooldown)
              && forall j :: 0 <= j < k ==> calls[j].intent.operationId != c.intent.operationId
  {
    RegistryIsAssessed(calls, k);
  }

  /** Over any run, two calls with the same operation id never both pass. */
  lemma AtMostOnePass(calls: seq<Call>, j: nat, k: nat)
    requires j < k < |calls| && calls[j].intent.operationId == calls[k].intent.operationId
    ensures DecisionOf(calls, k).status != Pass
    ensures DecisionOf(calls, k).reason == DuplicateOperationId <==>
              Acceptable(calls[k].capabilities, calls[k].intent, calls[k].evidence, calls[k].now, calls[k].cooldown)
  {
    PassesExactly(calls, k);
    RegistryIsAssessed(calls, k);
  }
}
