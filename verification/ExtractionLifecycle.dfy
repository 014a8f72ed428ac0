/**
 The extraction lifecycle of the evaluation adapter. One map says which extraction is
 active for an (arm, source) key, two others what it has produced so far, and the
 repository holds its state. Outcomes of repository and provider calls are parameters.
 */
module ExtractionLifecycle {
  import opened Prelude

  /** (arm, logical source). */
  type Key = (nat, nat)

  type ExtractionId = nat

  datatype XState = Running | PublishPrepared | Partial | Failed | Cancelled | SuccessEmpty | SuccessNonempty

  predicate Terminal(x: XState) { x.Failed? || x.Cancelled? || x.SuccessEmpty? || x.SuccessNonempty? }

  /** An observation phase: its extraction, and whether it holds no observations. */
  datatype ObservationPhase = ObservationPhase(id: ExtractionId, empty: bool)

  datatype Answer = Done | CompositionRequired | EmptyResult | Refused

  /** Whether the state can be read and whether cancelling works. */
  datatype Terminalizing = Terminalizing(readOk: bool, cancelOk: bool)

  /** `began` covers every check up to and including begin_generation. */
  datatype PrepareOutcome = PrepareOutcome(began: bool, bindingOk: bool, inputOk: bool, t: Terminalizing)

  /** `accepted` is the emptiness of the accepted phase; `left` is the state a rejected one leaves behind. */
  datatype AcceptOutcome = AcceptOutcome(proposalOk: bool, accepted: Option<bool>, left: XState, t: Terminalizing)

  /** `left` is the state a failed submission leaves behind. */
  datatype ComposeOutcome = ComposeOutcome(inputOk: bool, submitted: bool, left: XState, t: Terminalizing)

  datatype Call =
    | CallPrepare(key: Key, p: PrepareOutcome)
    | CallAccept(key: Key, a: AcceptOutcome)
    | CallCompose(key: Key, c: ComposeOutcome)
    | CallAbort(key: Key, t: Terminalizing)

  // ----- What each call leaves -----

  /** What the adapter and the repository hold at one moment. */
  datatype Books = Books(
    active: map<Key, ExtractionId>,
    prepared: map<Key, ExtractionId>,
    phases: map<Key, ObservationPhase>,
    completed: set<Key>,
    states: map<ExtractionId, XState>,
    nextId: ExtractionId)

  /** Terminalizing an extraction that is found in this state goes through. */
  predicate Ends(x: XState, t: Terminalizing) {
    t.readOk && x != PublishPrepared && x != Partial && (x == Running ==> t.cancelOk)
  }

  function Ended(x: XState): XState { if x == Running then Cancelled else x }

  /** The key is cleared once its extraction has ended; otherwise nothing changes. */
  predicate AbortLeaves(b: Books, key: Key, t: Terminalizing, after: Books) {
    var clear := b.(active := b.active - {key}, prepared := b.prepared - {key}, phases := b.phases - {key});
    if key !in b.active then after == clear
    else
      var id := b.active[key];
      && id in b.states
      && after == if Ends(b.states[id], t) then clear.(states := b.states[id := Ended(b.states[id])]) else b
  }

  /** The extraction is found as a service call left it; it leaves `active` once it has ended. */
  predicate CloseLeaves(b: Books, key: Key, left: Option<XState>, t: Terminalizing, after: Books) {
    && key in b.active && b.active[key] in b.states
    && var id := b.active[key];
       var found := if left.Some? && !Terminal(b.states[id]) then left.value else b.states[id];
       after == if Ends(found, t) then b.(active := b.active - {key}, states := b.states[id := Ended(found)])
                else b.(states := b.states[id := found])
  }

  /** A busy key is aborted; a generation that cannot be handed out is closed. */
  predicate PrepareLeaves(b: Books, key: Key, o: PrepareOutcome, answer: Answer, after: Books) {
    if key in b.active then answer == Refused && AbortLeaves(b, key, o.t, after)
    else if !o.began then answer == Refused && after == b
    else
      var begun := b.(active := b.active[key := b.nextId], states := b.states[b.nextId := Running], nextId := b.nextId + 1);
      if o.bindingOk && o.inputOk then answer == Done && after == begun.(prepared := b.prepared[key := b.nextId])
      else answer == Refused && CloseLeaves(begun, key, None, o.t, after)
  }

  /** A key without a generation is aborted; a proposal that is not accepted closes its extraction. */
  predicate AcceptLeaves(b: Books, key: Key, o: AcceptOutcome, answer: Answer, after: Books) {
    var taken := b.(prepared := b.prepared - {key});
    if key !in b.prepared then answer == Refused && AbortLeaves(b, key, o.t, after)
    else if !o.proposalOk then answer == Refused && CloseLeaves(taken, key, None, o.t, after)
    else if o.accepted.None? then answer == Refused && CloseLeaves(taken, key, Some(o.left), o.t, after)
    else
      var id := b.prepared[key];
      var accepted := taken.(phases := b.phases[key := ObservationPhase(id, o.accepted.value)]);
      if o.accepted.value
      then answer == EmptyResult
           && after == accepted.(active := b.active - {key}, completed := b.completed + {key}, states := b.states[id := SuccessEmpty])
      else answer == CompositionRequired && after == accepted
  }

  /**
   A key without a phase is aborted. A phase that is not published stays unless its extraction has
   ended; then it goes, and so does the active extraction of the key.
   */
  predicate ComposeLeaves(b: Books, key: Key, o: ComposeOutcome, answer: Answer, after: Books) {
    if !o.inputOk || key !in b.phases then answer == Refused && AbortLeaves(b, key, o.t, after)
    else
      var id := b.phases[key].id;
      var gone := b.(active := b.active - {key}, phases := b.phases - {key});
      if !b.phases[key].empty && o.submitted
      then answer == Done && after == gone.(completed := b.completed + {key}, states := b.states[id := SuccessNonempty])
      else
        && answer == Refused && id in b.states
        && var found := if b.phases[key].empty || Terminal(b.states[id]) then b.states[id] else o.left;
           after == if Ends(found, o.t) then gone.(states := b.states[id := Ended(found)]) else b.(states := b.states[id := found])
  }

  /** One call of a list leads from one moment to the next. */
  ghost predicate Leads(b: Books, call: Call, after: Books) {
    match call
    case CallPrepare(key, p) => exists answer :: PrepareLeaves(b, key, p, answer, after)
    case CallAccept(key, a) => exists answer :: AcceptLeaves(b, key, a, answer, after)
    case CallCompose(key, c) => exists answer :: ComposeLeaves(b, key, c, answer, after)
    case CallAbort(key, t) => AbortLeaves(b, key, t, after)
  }

  // ----- What every call keeps -----

  /** The key for which each extraction was begun. */
  type Owners = map<ExtractionId, Key>

  /** No extraction is lost: each one that is not terminal is the active one of its key. */
  predicate Recorded(b: Books, begun: Owners) {
    forall id :: id in begun && id in b.states && !Terminal(b.states[id]) ==>
                   begun[id] in b.active && b.active[begun[id]] == id
  }

  predicate Wellformed(b: Books, begun: Owners) {
    && begun.Keys == b.states.Keys
    && (forall id :: id in b.states ==> id < b.nextId)
    && (forall k :: k in b.active ==> b.active[k] in begun && begun[b.active[k]] == k)
    && (forall k :: k in b.prepared ==> b.prepared[k] in begun && begun[b.prepared[k]] == k)
    && (forall k :: k in b.phases ==> b.phases[k].id in begun && begun[b.phases[k].id] == k)
  }

  /** What was produced so far belongs to the active extraction; only an empty phase outlives it. */
  predicate Current(b: Books) {
    && (forall k :: k in b.prepared ==> k in b.active && b.active[k] == b.prepared[k])
    && (forall k :: k in b.phases && !b.phases[k].empty ==> k in b.active && b.active[k] == b.phases[k].id && k !in b.prepared)
    && (forall k :: k in b.phases && b.phases[k].empty ==>
                      && b.phases[k].id in b.states && b.states[b.phases[k].id].SuccessEmpty?
                      && (k in b.active ==> b.active[k] != b.phases[k].id))
  }

  predicate Sound(b: Books, begun: Owners) { Wellformed(b, begun) && Current(b) && Recorded(b, begun) }

  /** The key's last phase was empty, so its extraction is over, and a newer extraction is active. */
  predicate Stale(b: Books, key: Key) { key in b.phases && b.phases[key].empty && key in b.active }

  lemma {:induction false} AbortKeeps(b: Books, begun: Owners, key: Key, t: Terminalizing, after: Books)
    requires Sound(b, begun) && AbortLeaves(b, key, t, after)
    ensures Sound(after, begun)
  {
  }

  lemma {:induction false} BeginKeeps(b: Books, begun: Owners, key: Key)
    requires Sound(b, begun) && key !in b.active
    ensures Sound(b.(active := b.active[key := b.nextId], states := b.states[b.nextId := Running], nextId := b.nextId + 1),
                  begun[b.nextId := key])
  {
  }

  lemma {:induction false} CloseKeeps(b: Books, begun: Owners, key: Key, left: Option<XState>, t: Terminalizing, after: Books)
    requires Sound(b, begun) && key !in b.prepared && (key in b.phases ==> b.phases[key].empty)
    requires CloseLeaves(b, key, left, t, after)
    ensures Sound(after, begun)
  {
  }

  lemma {:induction false} PrepareKeeps(b: Books, begun: Owners, key: Key, o: PrepareOutcome, answer: Answer, after: Books)
    requires Sound(b, begun) && PrepareLeaves(b, key, o, answer, after)
    ensures Sound(after, if key in b.active || !o.began then begun else begun[b.nextId := key])
  {
    if key in b.active {
      AbortKeeps(b, begun, key, o.t, after);
    } else if o.began {
      BeginKeeps(b, begun, key);
      var next := b.(active := b.active[key := b.nextId], states := b.states[b.nextId := Running], nextId := b.nextId + 1);
      if !(o.bindingOk && o.inputOk) { CloseKeeps(next, begun[b.nextId := key], key, None, o.t, after); }
    }
  }

  /** An accepted phase replaces the prepared generation; an empty one ends its extraction. */
  lemma {:induction false} PhaseKeeps(b: Books, begun: Owners, key: Key, o: AcceptOutcome, answer: Answer, after: Books)
    requires Sound(b, begun) && AcceptLeaves(b, key, o, answer, after) && answer != Refused
    ensures Sound(after, begun)
  {
  }

  lemma {:induction false} AcceptKeeps(b: Books, begun: Owners, key: Key, o: AcceptOutcome, answer: Answer, after: Books)
    requires Sound(b, begun) && AcceptLeaves(b, key, o, answer, after)
    ensures Sound(after, begun)
  {
    if key !in b.prepared {
      AbortKeeps(b, begun, key, o.t, after);
    } else if answer == Refused {
      CloseKeeps(b.(prepared := b.prepared - {key}), begun, key, if o.proposalOk then Some(o.left) else None, o.t, after);
    } else {
      PhaseKeeps(b, begun, key, o, answer, after);
    }
  }

  /** A phase with observations: its extraction is the active one. */
  lemma {:induction false} ComposeNonemptyKeeps(b: Books, begun: Owners, key: Key, o: ComposeOutcome, answer: Answer, after: Books)
    requires Sound(b, begun) && ComposeLeaves(b, key, o, answer, after) && o.inputOk && key in b.phases && !b.phases[key].empty
    ensures Sound(after, begun)
  {
    hide Terminal;
    if answer == Refused {
      WithdrawKeeps(b, begun, key, o, after);
    } else {
      PublishKeeps(b, begun, key, after);
    }
  }

  lemma {:induction false} PublishKeeps(b: Books, begun: Owners, key: Key, after: Books)
    requires Sound(b, begun) && key in b.phases && !b.phases[key].empty
    requires after == b.(active := b.active - {key}, phases := b.phases - {key}, completed := b.completed + {key},
                         states := b.states[b.phases[key].id := SuccessNonempty])
    ensures Sound(after, begun)
  {
  }

  lemma {:induction false} WithdrawKeeps(b: Books, begun: Owners, key: Key, o: ComposeOutcome, after: Books)
    requires Sound(b, begun) && ComposeLeaves(b, key, o, Refused, after) && o.inputOk && key in b.phases && !b.phases[key].empty
    ensures Sound(after, begun)
  {
    var id := b.phases[key].id;
    var found := if Terminal(b.states[id]) then b.states[id] else o.left;
    if Ends(found, o.t) {
      var bare := b.(phases := b.phases - {key});
      assert Sound(bare, begun);
      CloseKeeps(bare, begun, key, Some(o.left), o.t, after);
    } else {
      FoundKeeps(b, begun, key, found);
    }
  }

  /** The active extraction of a phase with observations is found in another state. */
  lemma {:induction false} FoundKeeps(b: Books, begun: Owners, key: Key, found: XState)
    requires Sound(b, begun) && key in b.phases && !b.phases[key].empty
    ensures Sound(b.(states := b.states[b.phases[key].id := found]), begun)
  {
  }

  /** An empty phase: submit_composition refuses it and leaves the repository alone. */
  lemma {:induction false} ComposeEmptyKeeps(b: Books, begun: Owners, key: Key, o: ComposeOutcome, answer: Answer, after: Books)
    requires Sound(b, begun) && ComposeLeaves(b, key, o, answer, after) && o.inputOk && key in b.phases && b.phases[key].empty
    ensures !Stale(b, key) ==> Sound(after, begun)
    ensures Recorded(after, begun) <==> !(Stale(b, key) && o.t.readOk && !Terminal(b.states[b.active[key]]))
  {
    assert after.states == b.states;
    if Stale(b, key) {
      StaleIsLost(b, begun, key, after);
    } else if o.t.readOk {
      assert key !in b.active;
    }
  }

  /** Forgetting the active extraction of a stale key loses it exactly if it is not over. */
  lemma {:induction false} StaleIsLost(b: Books, begun: Owners, key: Key, after: Books)
    requires Sound(b, begun) && Stale(b, key) && after.states == b.states
    requires after.active == b.active || after.active == b.active - {key}
    ensures Recorded(after, begun) <==> after.active == b.active || Terminal(b.states[b.active[key]])
  {
    assert begun[b.active[key]] == key;
  }

  /** A composition loses an extraction exactly when a newer one of a stale key is not over yet. */
  lemma {:induction false} ComposeKeepsIff(b: Books, begun: Owners, key: Key, o: ComposeOutcome, answer: Answer, after: Books)
    requires Sound(b, begun) && ComposeLeaves(b, key, o, answer, after)
    ensures !Stale(b, key) ==> Sound(after, begun)
    ensures Recorded(after, begun) <==> !(Stale(b, key) && o.inputOk && o.t.readOk && !Terminal(b.states[b.active[key]]))
  {
    hide Wellformed, Current, AbortLeaves;
    if !o.inputOk || key !in b.phases {
      AbortKeeps(b, begun, key, o.t, after);
    } else if b.phases[key].empty {
      ComposeEmptyKeeps(b, begun, key, o, answer, after);
    } else {
      ComposeNonemptyKeeps(b, begun, key, o, answer, after);
    }
  }

  // ----- The adapter -----

  class SemanticAdapter {
    var active: map<Key, ExtractionId>
    var prepared: map<Key, ExtractionId>
    var phases: map<Key, ObservationPhase>
    var completed: set<Key>
    /** The repository: the state of each extraction and the next fresh identity. */
    var states: map<ExtractionId, XState>
    var nextId: ExtractionId
    ghost var begun: Owners

    constructor ()
      ensures Valid() && begun == map[] && Now() == Books(map[], map[], map[], {}, map[], 0)
    {
      active, prepared, phases, completed, states, nextId, begun := map[], map[], map[], {}, map[], 0, map[];
    }

    function Now(): Books
      reads this
    {
      Books(active, prepared, phases, completed, states, nextId)
    }

    ghost predicate Valid()
      reads this
    {
      Sound(Now(), begun)
    }

    /** terminalize_extraction: reads the state and cancels a running extraction. */
    method Terminalize(id: ExtractionId, t: Terminalizing) returns (ok: bool)
      modifies this`states
      ensures ok <==> t.readOk && id in old(states)
                      && (Terminal(old(states)[id]) || (old(states)[id].Running? && t.cancelOk))
      ensures states == if ok && old(states)[id].Running? then old(states)[id := Cancelled] else old(states)
    {
      if !t.readOk || id !in states { return false; }
      match states[id] {
        case Running =>
          if t.cancelOk { states := states[id := Cancelled]; }
          return t.cancelOk;
        case PublishPrepared => return false;
        case Partial => return false;
        case _ => return true;
      }
    }

    /** abort_pending_generation_for_source. */
    method Abort(key: Key, t: Terminalizing) returns (ok: bool)
      requires Valid()
      modifies this`active, this`prepared, this`phases, this`states
      ensures Valid() && AbortLeaves(old(Now()), key, t, Now())
      ensures ok <==> key !in old(active) || Ends(old(states[active[key]]), t)
    {
      hide Current, Recorded;
      ghost var before := Now();
      if key in active {
        var id := active[key];
        var done := Terminalize(id, t);
        if !done {
          assert Now() == before;
          return false;
        }
        assert states == before.states[id := Ended(before.states[id])];
        active := active - {key};
      }
      prepared := prepared - {key};
      phases := phases - {key};
      ok := true;
      AbortKeeps(before, begun, key, t, Now());
    }

    /** begin_generation succeeds: a fresh running extraction becomes the active one of its key. */
    method Begin(key: Key) returns (id: ExtractionId)
      requires Valid() && key !in active
      modifies this`active, this`states, this`nextId, this`begun
      ensures Valid()
      ensures id == old(nextId) && nextId == id + 1 && states == old(states)[id := Running]
      ensures active == old(active)[key := id] && begun == old(begun)[id := key]
    {
      hide Sound;
      BeginKeeps(Now(), begun, key);
      id := nextId;
      nextId := nextId + 1;
      states := states[id := Running];
      begun := begun[id := key];
      active := active[key := id];
    }

    /**
     A service call may have left the active extraction in another state (a terminal one never
     changes); it is terminalized, and the adapter forgets it once it is over.
     */
    method Close(key: Key, left: Option<XState>, t: Terminalizing) returns (done: bool)
      requires key in active && active[key] in states
      modifies this`active, this`states
      ensures CloseLeaves(old(Now()), key, left, t, Now())
      ensures done <==> key !in active
    {
      var id := active[key];
      if left.Some? && !Terminal(states[id]) { states := states[id := left.value]; }
      ghost var found := states;
      done := Terminalize(id, t);
      assert states == found[id := if done then Ended(found[id]) else found[id]];
      if done { active := active - {key}; }
    }

    /** prepare_for_arm: at most one extraction is active per key. */
    method Prepare(key: Key, o: PrepareOutcome) returns (answer: Answer)
      requires Valid()
      modifies this
      ensures Valid() && PrepareLeaves(old(Now()), key, o, answer, Now())
      ensures begun == if key in old(active) || !o.began then old(begun) else old(begun)[old(nextId) := key]
    {
      hide Sound, AbortLeaves;
      ghost var before, owners := Now(), begun;
      if key in active {
        var aborted := Abort(key, o.t);
        return Refused;
      }
      if !o.began { return Refused; }
      var id := Begin(key);
      if !o.bindingOk || !o.inputOk {
        var done := Close(key, None, o.t);
        PrepareKeeps(before, owners, key, o, Refused, Now());
        return Refused;
      }
      prepared := prepared[key := id];
      answer := Done;
      PrepareKeeps(before, owners, key, o, Done, Now());
    }

    /** accept_observation_for_arm. An empty phase ends the extraction and stays recorded. */
    method Accept(key: Key, o: AcceptOutcome) returns (answer: Answer)
      requires Valid()
      modifies this`active, this`prepared, this`phases, this`completed, this`states
      ensures Valid() && AcceptLeaves(old(Now()), key, o, answer, Now())
    {
      hide Recorded, AbortLeaves;
      ghost var before := Now();
      if key !in prepared {
        var aborted := Abort(key, o.t);
        return Refused;
      }
      var id := prepared[key];
      prepared := prepared - {key};
      if !o.proposalOk || o.accepted.None? {
        var done := Close(key, if o.proposalOk then Some(o.left) else None, o.t);
        answer := Refused;
      } else {
        phases := phases[key := ObservationPhase(id, o.accepted.value)];
        if o.accepted.value {
          states := states[id := SuccessEmpty];
          completed := completed + {key};
          active := active - {key};
        }
        answer := if o.accepted.value then EmptyResult else CompositionRequired;
      }
      AcceptKeeps(before, begun, key, o, answer, Now());
    }

    /**
     submit_composition_for_arm. The active extraction of the key is forgotten once the
     extraction of the phase is terminal; the two differ exactly when the phase is stale.
     */
    method Compose(key: Key, o: ComposeOutcome) returns (answer: Answer)
      requires Valid()
      modifies this`active, this`prepared, this`phases, this`completed, this`states
      ensures ComposeLeaves(old(Now()), key, o, answer, Now())
      ensures !old(Stale(Now(), key)) ==> Valid()
      ensures Recorded(Now(), begun)
              <==> !(old(Stale(Now(), key)) && o.inputOk && o.t.readOk && !Terminal(old(states[active[key]])))
    {
      hide Current, Recorded, AbortLeaves, Stale;
      ghost var before := Now();
      if !o.inputOk || key !in phases {
        var aborted := Abort(key, o.t);
        answer := Refused;
      } else {
        EmptyIsOver(before, begun, key);
        answer := Submit(key, o);
      }
      ComposeKeepsIff(before, begun, key, o, answer, Now());
    }

    /** The phase is taken out, and put back if its extraction is not over after a refusal. */
    method Submit(key: Key, o: ComposeOutcome) returns (answer: Answer)
      requires key in phases && phases[key].id in states && o.inputOk
      requires phases[key].empty ==> states[phases[key].id].SuccessEmpty?
      modifies this`active, this`phases, this`completed, this`states
      ensures ComposeLeaves(old(Now()), key, o, answer, Now())
    {
      hide AbortLeaves;
      ghost var before := Now();
      var phase := phases[key];
      phases := phases - {key};
      if !phase.empty && o.submitted {
        states := states[phase.id := SuccessNonempty];
        completed := completed + {key};
        active := active - {key};
        return Done;
      }
      if !phase.empty && !Terminal(states[phase.id]) { states := states[phase.id := o.left]; }
      ghost var found := states;
      var done := Terminalize(phase.id, o.t);
      assert states == found[phase.id := if done then Ended(found[phase.id]) else found[phase.id]];
      if done {
        active := active - {key};
      } else {
        phases := phases[key := phase];
        assert phases == before.phases;
      }
      answer := Refused;
    }

    /** Makes calls in order, up to the first composition on a stale phase; `trace` has every moment. */
    method Drive(calls: seq<Call>) returns (n: nat, ghost trace: seq<Books>)
      requires Valid()
      modifies this
      ensures Valid() && n <= |calls|
      ensures n < |calls| ==> calls[n].CallCompose? && Stale(Now(), calls[n].key)
      ensures |trace| == n + 1 && trace[0] == old(Now()) && trace[n] == Now()
      ensures forall i :: 0 <= i < n ==> Leads(trace[i], calls[i], trace[i + 1])
    {
      hide Sound, Stale, AbortLeaves, PrepareLeaves, AcceptLeaves, ComposeLeaves;
      n, trace := 0, [Now()];
      while n < |calls|
        invariant n <= |calls| && Valid()
        invariant |trace| == n + 1 && trace[0] == old(Now()) && trace[n] == Now()
        invariant forall i :: 0 <= i < n ==> Leads(trace[i], calls[i], trace[i + 1])
      {
        ghost var before := Now();
        match calls[n] {
          case CallPrepare(key, p) => var _ := Prepare(key, p);
          case CallAccept(key, a) => var _ := Accept(key, a);
          case CallAbort(key, t) => var _ := Abort(key, t);
          case CallCompose(key, c) =>
            if Stale(Now(), key) { return; }
            var _ := Compose(key, c);
        }
        assert Leads(before, calls[n], Now());
        n, trace := n + 1, trace + [Now()];
      }
    }
  }

  lemma {:induction false} EmptyIsOver(b: Books, begun: Owners, key: Key)
    requires Sound(b, begun) && key in b.phases
    ensures b.phases[key].id in b.states && (b.phases[key].empty ==> b.states[b.phases[key].id].SuccessEmpty?)
  {
  }

  /**
   A run that loses a running extraction: three calls that succeed (a generation, its empty
   result, and a second generation once the source has a new revision, as one revision is
   generated for only once) and a composition, which is refused.
   */
  method LosesAnExtraction(key: Key) returns (adapter: SemanticAdapter)
    ensures !Recorded(adapter.Now(), adapter.begun)
  {
    hide Sound, Recorded, AbortLeaves;
    var fine := Terminalizing(true, true);
    adapter := new SemanticAdapter();
    var first := adapter.Prepare(key, PrepareOutcome(true, true, true, fine));
    assert adapter.active == map[key := 0] && adapter.states == map[0 := Running];
    var empty := adapter.Accept(key, AcceptOutcome(true, Some(true), Running, fine));
    assert adapter.active == map[] && adapter.phases == map[key := ObservationPhase(0, true)];
    var second := adapter.Prepare(key, PrepareOutcome(true, true, true, fine));
    assert adapter.active == map[key := 1] && adapter.states[1] == Running;
    var composed := adapter.Compose(key, ComposeOutcome(true, true, Running, fine));
  }
}
