/** Continuity epochs of the Modbus collection: each scheduled run is given an opaque
    identifier that survives only while the boot marker is known and unchanged and the
    scheduler has not paused.  Clock readings and limits are whole seconds. */
module ModbusContinuity {
  import opened Common

  datatype Reason =
    | Initial | Continuous | BootChanged | SchedulingGap | BootEvidenceUnavailable | BootEvidenceRecovered

  datatype Error = IntervalNotPositive | MultiplierTooSmall

  /** The state file: absent or an empty object, or an object whose three fields may each
      be missing or of the wrong type. */
  datatype Saved = Nothing | Saved(id: Option<string>, boot: Option<string>, observed: Option<int>)

  /** One run of `prepare`: the clock, the boot marker, and the two tokens that
      `secrets.token_hex` would return if asked. */
  datatype Call = Call(now: int, boot: Option<string>, first: string, second: string)

  datatype Outcome = Outcome(id: string, reason: Reason)

  function Decide(limit: int, saved: Saved, call: Call): Outcome {
    var kept := if saved.Saved? && saved.id.Some? && |saved.id.value| == 32 then saved.id.value else call.first;
    if call.boot.None? then Outcome(call.second, BootEvidenceUnavailable)
    else if saved.Saved? && saved.boot.None? then Outcome(call.second, BootEvidenceRecovered)
    else if saved.Saved? && call.boot != saved.boot then Outcome(call.second, BootChanged)
    else if saved.Saved? && saved.observed.Some? && call.now - saved.observed.value > limit then
      Outcome(call.second, SchedulingGap)
    else Outcome(kept, if saved.Nothing? then Initial else Continuous)
  }

  function SavedBy(limit: int, saved: Saved, call: Call): Saved {
    Saved(Some(Decide(limit, saved, call).id), call.boot, Some(call.now))
  }

  /** The state file names a usable identifier. */
  ghost predicate Names(saved: Saved, id: string) {
    saved.Saved? && saved.id == Some(id) && |id| == 32
  }

  /** For any state file, also a damaged one: why an identifier is kept or replaced, and by
      which.  A kept identifier is the saved one if it has 32 characters, else the first
      token; a replaced one becomes the second. */
  lemma DecideExactly(limit: int, saved: Saved, call: Call)
    ensures var d := Decide(limit, saved, call);
            var known := call.boot.Some?;
            && (d.reason == BootEvidenceUnavailable <==> !known)
            && (d.reason == Initial <==> known && saved == Nothing)
            && (d.reason == BootEvidenceRecovered <==> known && saved.Saved? && saved.boot == None)
            && (d.reason == BootChanged <==>
                  known && saved.Saved? && saved.boot.Some? && saved.boot.value != call.boot.value)
            && (d.reason == SchedulingGap <==>
                  && known && saved.Saved? && saved.boot == call.boot
                  && saved.observed.Some? && call.now > saved.observed.value + limit)
            && (d.reason == Initial || d.reason == Continuous ==>
                  Names(saved, d.id) || (d.id == call.first && !exists id :: Names(saved, id)))
            && (d.reason != Initial && d.reason != Continuous ==> d.id == call.second)
  {
    if saved.Saved? && saved.id.Some? && |saved.id.value| == 32 { assert Names(saved, saved.id.value); }
  }

  /** The runner sentinel: `saved` is the state file. */
  class Sentinel {
    var saved: Saved

    constructor () ensures saved == Nothing { saved := Nothing; }

    method Prepare(intervalSeconds: int, gapMultiplier: int, call: Call) returns (r: Result<Outcome, Error>)
      modifies this
      ensures r.Ok? <==> intervalSeconds >= 1 && gapMultiplier >= 2
      ensures r == Err(IntervalNotPositive) <==> intervalSeconds < 1
      ensures r == Err(MultiplierTooSmall) <==> intervalSeconds >= 1 && gapMultiplier < 2
      ensures r.Err? ==> saved == old(saved)
      ensures r.Ok? ==> var limit := intervalSeconds * gapMultiplier;
                        r.value == Decide(limit, old(saved), call) && saved == SavedBy(limit, old(saved), call)
    {
      if intervalSeconds < 1 { return Err(IntervalNotPositive); }
      if gapMultiplier < 2 { return Err(MultiplierTooSmall); }
      var previous := saved;
      var id := if previous.Saved? && previous.id.Some? && |previous.id.value| == 32
                then previous.id.value else call.first;
      var reason := if previous.Nothing? then Initial else Continuous;
      if call.boot.None? {
        id, reason := call.second, BootEvidenceUnavailable;
      } else if previous.Saved? && previous.boot.None? {
        id, reason := call.second, BootEvidenceRecovered;
      } else if previous.Saved? && call.boot != previous.boot {
        id, reason := call.second, BootChanged;
      } else if previous.Saved? && previous.observed.Some?
                && call.now - previous.observed.value > intervalSeconds * gapMultiplier {
        id, reason := call.second, SchedulingGap;
      }
      saved := Saved(Some(id), call.boot, Some(call.now));
      r := Ok(Outcome(id, reason));
    }
  }

  // ----- runs from the empty state -----

  function After(limit: int, calls: seq<Call>): Saved {
    if calls == [] then Nothing
    else SavedBy(limit, After(limit, calls[..|calls| - 1]), calls[|calls| - 1])
  }

  /** What call number `k` of the run returns. */
  function OutcomeOf(limit: int, calls: seq<Call>, k: nat): Outcome
    requires k < |calls|
  {
    Decide(limit, After(limit, calls[..k]), calls[k])
  }

  ghost predicate TokenOf(call: Call, id: string) {
    id == call.first || id == call.second
  }

  /** Tokens are 32 characters long and no two draws coincide. */
  ghost predicate FreshTokens(calls: seq<Call>) {
    && (forall k :: 0 <= k < |calls| ==>
          |calls[k].first| == 32 && |calls[k].second| == 32 && calls[k].first != calls[k].second)
    && (forall j, k, id :: 0 <= j < k < |calls| && TokenOf(calls[j], id) ==> !TokenOf(calls[k], id))
  }

  /** Call `k` saw the boot marker of call `k - 1` and came at most `limit` after it. */
  ghost predicate Follows(limit: int, calls: seq<Call>, k: int)
    requires 0 < k < |calls|
  {
    && calls[k].boot.Some? && calls[k].boot == calls[k - 1].boot
    && calls[k].now - calls[k - 1].now <= limit
  }

  lemma SavedBefore(limit: int, calls: seq<Call>, k: nat)
    requires 0 < k < |calls|
    ensures After(limit, calls[..k])
         == Saved(Some(OutcomeOf(limit, calls, k - 1).id), calls[k - 1].boot, Some(calls[k - 1].now))
  {
    assert calls[..k][..k - 1] == calls[..k - 1];
  }

  /** One call: it keeps a usable identifier when it follows the call before it, and draws
      a new one otherwise. */
  lemma KeepsOrDraws(limit: int, calls: seq<Call>, k: nat)
    requires 0 < k < |calls| && |OutcomeOf(limit, calls, k - 1).id| == 32
    ensures OutcomeOf(limit, calls, k).id
         == if Follows(limit, calls, k) then OutcomeOf(limit, calls, k - 1).id else calls[k].second
  {
    SavedBefore(limit, calls, k);
  }

  /** Every identifier was drawn at some earlier call, and has been the answer of every
      call since. */
  lemma {:induction false} Origin(limit: int, calls: seq<Call>, k: nat) returns (o: nat)
    requires FreshTokens(calls) && k < |calls|
    ensures o <= k && TokenOf(calls[o], OutcomeOf(limit, calls, k).id)
    ensures forall m :: o <= m <= k ==> OutcomeOf(limit, calls, m).id == OutcomeOf(limit, calls, k).id
    ensures forall m :: o < m <= k ==> Follows(limit, calls, m)
    ensures |OutcomeOf(limit, calls, k).id| == 32
  {
    if k == 0 {
      o := 0;
    } else {
      var previous := Origin(limit, calls, k - 1);
      KeepsOrDraws(limit, calls, k);
      o := if Follows(limit, calls, k) then previous else k;
    }
  }

  /** A call continues the identifier of the call before it exactly when it follows it. */
  lemma ContinuesExactly(limit: int, calls: seq<Call>, k: nat)
    requires FreshTokens(calls) && 0 < k < |calls|
    ensures OutcomeOf(limit, calls, k).id == OutcomeOf(limit, calls, k - 1).id <==> Follows(limit, calls, k)
    ensures OutcomeOf(limit, calls, k).reason == Continuous <==> Follows(limit, calls, k)
  {
    SavedBefore(limit, calls, k);
    var o := Origin(limit, calls, k - 1);
    assert TokenOf(calls[k], calls[k].second) && !TokenOf(calls[k], OutcomeOf(limit, calls, k - 1).id);
  }

  /** Why a call gives up the identifier of the call before it: the first of these that
      applies is the recorded reason. */
  lemma ReasonsExactly(limit: int, calls: seq<Call>, k: nat)
    requires k < |calls|
    ensures var reason, boot := OutcomeOf(limit, calls, k).reason, calls[k].boot;
            && (reason == BootEvidenceUnavailable <==> boot.None?)
            && (reason == Initial <==> k == 0 && boot.Some?)
            && (reason == BootEvidenceRecovered <==> k > 0 && boot.Some? && calls[k - 1].boot.None?)
            && (reason == BootChanged <==> k > 0 && boot.Some? && calls[k - 1].boot.Some? && boot != calls[k - 1].boot)
            && (reason == SchedulingGap <==>
                  k > 0 && boot.Some? && boot == calls[k - 1].boot && calls[k].now - calls[k - 1].now > limit)
  {
    if k > 0 { SavedBefore(limit, calls, k); }
  }

  /** Two calls return the same identifier exactly when every call between them, and the
      later one, saw the same known boot marker as the call before it, without a pause
      beyond the limit; and then every call between them returned that identifier too. */
  lemma SameIdExactly(limit: int, calls: seq<Call>, i: nat, j: nat)
    requires FreshTokens(calls) && i < j < |calls|
    ensures OutcomeOf(limit, calls, i).id == OutcomeOf(limit, calls, j).id
       <==> (forall k :: i < k <= j ==> Follows(limit, calls, k))
    ensures OutcomeOf(limit, calls, i).id == OutcomeOf(limit, calls, j).id
        ==> forall k :: i <= k <= j ==> OutcomeOf(limit, calls, k).id == OutcomeOf(limit, calls, i).id
  {
    var oi := Origin(limit, calls, i);
    var oj := Origin(limit, calls, j);
    if OutcomeOf(limit, calls, i).id == OutcomeOf(limit, calls, j).id {
      assert oi == oj;
    }
    if forall k :: i < k <= j ==> Follows(limit, calls, k) {
      FollowersKeepId(limit, calls, i, j);
    }
  }

  lemma {:induction false} FollowersKeepId(limit: int, calls: seq<Call>, i: nat, j: nat)
    requires FreshTokens(calls) && i <= j < |calls|
    requires forall k :: i < k <= j ==> Follows(limit, calls, k)
    ensures OutcomeOf(limit, calls, i).id == OutcomeOf(limit, calls, j).id
  {
    if i < j {
      FollowersKeepId(limit, calls, i, j - 1);
      ContinuesExactly(limit, calls, j);
    }
  }

  /** Within one epoch the boot marker is known and never changes. */
  lemma {:induction false} EpochSeesOneBoot(limit: int, calls: seq<Call>, i: nat, j: nat)
    requires FreshTokens(calls) && i < j < |calls|
    requires OutcomeOf(limit, calls, i).id == OutcomeOf(limit, calls, j).id
    ensures forall k :: i <= k <= j ==> calls[k].boot.Some? && calls[k].boot == calls[i].boot
    decreases j - i
  {
    SameIdExactly(limit, calls, i, j);
    assert Follows(limit, calls, i + 1);
    if i + 1 < j {
      EpochSeesOneBoot(limit, calls, i + 1, j);
    }
  }

  /** An identifier given up for another never comes back. */
  lemma DiscardedIdNeverReturns(limit: int, calls: seq<Call>, i: nat, j: nat, k: nat)
    requires FreshTokens(calls) && i < j < k < |calls|
    requires OutcomeOf(limit, calls, i).id != OutcomeOf(limit, calls, j).id
    ensures OutcomeOf(limit, calls, i).id != OutcomeOf(limit, calls, k).id
  {
    SameIdExactly(limit, calls, i, k);
  }

  /** An identifier issued without a boot marker is used by that one call only. */
  lemma UnprovenIdIsUsedOnce(limit: int, calls: seq<Call>, k: nat, m: nat)
    requires FreshTokens(calls) && k < |calls| && m < |calls| && k != m
    requires OutcomeOf(limit, calls, k).reason == BootEvidenceUnavailable
    ensures OutcomeOf(limit, calls, m).id != OutcomeOf(limit, calls, k).id
  {
    if OutcomeOf(limit, calls, m).id == OutcomeOf(limit, calls, k).id {
      EpochSeesOneBoot(limit, calls, if k < m then k else m, if k < m then m else k);
    }
  }
}
