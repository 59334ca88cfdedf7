/** A cluster that other actors change between any two requests of the pilot.
    Identifiers are fresh and never reused; a terminating object stays so until
    it is gone. */
module Cluster {
  import opened Text

  type Uid = nat
  type Labels = map<string, string>

  datatype Key = PilotNamespace | PilotRayCluster

  datatype Resource = Resource(uid: Uid, labels: Labels, annotations: Labels, terminating: bool)

  /** `issued` bounds every identifier given out so far. */
  datatype State = State(objects: map<Key, Resource>, issued: nat)

  /** What another actor, or the cluster itself, can do. */
  datatype Action =
    | Create(key: Key, labels: Labels, annotations: Labels)
    | Relabel(key: Key, labels: Labels, annotations: Labels)
    | Terminate(key: Key)
    | Remove(key: Key)

  function Apply(s: State, action: Action): State {
    match action
    case Create(key, labels, annotations) =>
      if key in s.objects then s
      else State(s.objects[key := Resource(s.issued, labels, annotations, false)], s.issued + 1)
    case Relabel(key, labels, annotations) =>
      if key !in s.objects then s
      else s.(objects := s.objects[key := s.objects[key].(labels := labels, annotations := annotations)])
    case Terminate(key) =>
      if key !in s.objects then s else s.(objects := s.objects[key := s.objects[key].(terminating := true)])
    case Remove(key) => s.(objects := s.objects - {key})
  }

  ghost predicate Sound(s: State) {
    forall key | key in s.objects :: s.objects[key].uid < s.issued
  }

  ghost predicate Live(s: State, key: Key, uid: Uid) {
    key in s.objects && s.objects[key].uid == uid && !s.objects[key].terminating
  }

  /** The identifier was issued and its object is terminating, replaced or gone. */
  ghost predicate Ended(s: State, key: Key, uid: Uid) {
    uid < s.issued && !Live(s, key, uid)
  }

  lemma EndedForGood(s: State, action: Action, key: Key, uid: Uid)
    requires Sound(s)
    ensures Sound(Apply(s, action)) && s.issued <= Apply(s, action).issued
    ensures Ended(s, key, uid) ==> Ended(Apply(s, action), key, uid)
  {
  }

  /** Each state follows from the one before by one action. */
  ghost predicate IsTrace(trace: seq<State>) {
    && trace != [] && Sound(trace[0])
    && forall i | 0 <= i < |trace| - 1 :: Follows(trace[i], trace[i + 1])
  }

  ghost predicate Follows(s: State, t: State) {
    exists action :: t == Apply(s, action)
  }

  lemma {:induction false} TraceKeeps(trace: seq<State>, i: nat, j: nat, key: Key, uid: Uid)
    requires IsTrace(trace) && i <= j < |trace|
    ensures Sound(trace[i]) && Sound(trace[j]) && trace[i].issued <= trace[j].issued
    ensures Ended(trace[i], key, uid) ==> Ended(trace[j], key, uid)
    decreases j
  {
    if j > 0 {
      TraceKeeps(trace, if i < j then i else j - 1, j - 1, key, uid);
      StepKeeps(trace[j - 1], trace[j], key, uid);
    }
  }

  lemma StepKeeps(s: State, t: State, key: Key, uid: Uid)
    requires Sound(s) && Follows(s, t)
    ensures Sound(t) && s.issued <= t.issued && (Ended(s, key, uid) ==> Ended(t, key, uid))
  {
    var action :| t == Apply(s, action);
    EndedForGood(s, action, key, uid);
  }

  /** Seen live twice, an object was live all the time between. */
  lemma LiveThroughout(trace: seq<State>, i: nat, k: nat, j: nat, key: Key, uid: Uid)
    requires IsTrace(trace) && i <= k <= j < |trace|
    requires Live(trace[i], key, uid) && Live(trace[j], key, uid)
    ensures Live(trace[k], key, uid)
  {
    TraceKeeps(trace, i, k, key, uid);
    TraceKeeps(trace, k, j, key, uid);
  }

  // ----- requests, with the other actors' actions in between -----

  /** How a request ends: answered, refused without effect, or with its effect
      but without an answer. */
  datatype Outcome = Answered | Refused | AnswerLost

  /** What others do before a request arrives, and how that request ends. */
  datatype Turn = Turn(actions: seq<Action>, outcome: Outcome, admitted: Option<Labels>)

  /** An object the pilot's delete request hit: it was listed in one state, and then
      others acted until the deletion. */
  datatype Deletion = Deletion(target: Resource, listed: State, window: seq<Action>)

  /** A delete request as the pilot sends it. */
  datatype Request = Request(key: Key, selector: Labels)

  predicate Selects(selector: Labels, labels: Labels) {
    forall name | name in selector :: name in labels && labels[name] == selector[name]
  }

  function ApplyAll(s: State, actions: seq<Action>): State
    decreases |actions|
  {
    if actions == [] then s else Apply(ApplyAll(s, actions[..|actions| - 1]), actions[|actions| - 1])
  }

  /** The action gives the object of this name its labels: it creates the object where
      there is none, or relabels the one there is. */
  predicate SetsLabels(s: State, action: Action, key: Key) {
    action.key == key && if key in s.objects then action.Relabel? else action.Create?
  }

  /** The last of the actions that gives the object its labels. */
  function LastSetting(s: State, actions: seq<Action>, key: Key): (last: Option<nat>)
    ensures last.Some? ==> last.value < |actions| && (actions[last.value].Create? || actions[last.value].Relabel?)
  {
    if actions == [] then None
    else
      var n := |actions| - 1;
      if SetsLabels(ApplyAll(s, actions[..n]), actions[n], key) then Some(n) else LastSetting(s, actions[..n], key)
  }

  /** The labels an object ends with are those of the last action that set them, or
      those it had. */
  lemma {:induction false} LabelsAreLastSet(s: State, actions: seq<Action>, key: Key)
    requires key in ApplyAll(s, actions).objects
    ensures match LastSetting(s, actions, key)
            case Some(k) => ApplyAll(s, actions).objects[key].labels == actions[k].labels
            case None => key in s.objects && ApplyAll(s, actions).objects[key].labels == s.objects[key].labels
  {
    if actions != [] {
      var n := |actions| - 1;
      var before := ApplyAll(s, actions[..n]);
      if !SetsLabels(before, actions[n], key) {
        LabelsAreLastSet(s, actions[..n], key);
      }
    }
  }

  /** A window is harmless if the last action in it that sets the object's labels, if
      any, sets labels the selector matches. */
  predicate Harmless(s: State, actions: seq<Action>, key: Key, selector: Labels) {
    match LastSetting(s, actions, key) case None => true case Some(k) => Selects(selector, actions[k].labels)
  }

  /** An object listed for a selector still matches it after the window if and only if
      the window is harmless. */
  lemma HarmlessExactly(s: State, actions: seq<Action>, key: Key, selector: Labels)
    requires key in s.objects && Selects(selector, s.objects[key].labels) && key in ApplyAll(s, actions).objects
    ensures Selects(selector, ApplyAll(s, actions).objects[key].labels) <==> Harmless(s, actions, key, selector)
  {
    LabelsAreLastSet(s, actions, key);
  }

  // ----- the turns of the others -----

  function NextTurn(script: seq<Turn>): Turn { if script == [] then Turn([], Answered, None) else script[0] }

  function Later(script: seq<Turn>): seq<Turn> { if script == [] then [] else script[1..] }

  /** The labels a create request stores: those asked for, unless admission changes them. */
  function Stored(turn: Turn, labels: Labels): Labels {
    match turn.admitted case None => labels case Some(other) => other
  }

  /** What a create request leaves: nothing new if it is refused or the name is taken. */
  function Creates(s: State, turn: Turn, key: Key, labels: Labels): State {
    var before := ApplyAll(s, turn.actions);
    if turn.outcome.Refused? then before else Apply(before, Create(key, Stored(turn, labels), map[]))
  }

  /** What one delete request with a selector hits, if others act as scripted. */
  ghost function Deletes(s: State, script: seq<Turn>, key: Key, selector: Labels): seq<Deletion> {
    var listing := NextTurn(script);
    var listed := ApplyAll(s, listing.actions);
    if !listing.outcome.Answered? || key !in listed.objects || !Selects(selector, listed.objects[key].labels) then []
    else DeletesNamed(listed, Later(script), key)
  }

  /** What the request that follows the listing hits. */
  ghost function DeletesNamed(listed: State, script: seq<Turn>, key: Key): seq<Deletion> {
    var window := NextTurn(script);
    if window.outcome.Refused? || key !in ApplyAll(listed, window.actions).objects then []
    else [Deletion(ApplyAll(listed, window.actions).objects[key], listed, window.actions)]
  }

  /** The object hit matches the selector if and only if its window was harmless. */
  lemma DeletesExactly(s: State, script: seq<Turn>, key: Key, selector: Labels)
    ensures forall d | d in Deletes(s, script, key, selector) ::
              Selects(selector, d.target.labels) <==> Harmless(d.listed, d.window, key, selector)
  {
    forall d | d in Deletes(s, script, key, selector)
      ensures Selects(selector, d.target.labels) <==> Harmless(d.listed, d.window, key, selector)
    {
      HarmlessExactly(d.listed, d.window, key, selector);
    }
  }

  class Server {
    var state: State
    var script: seq<Turn>            // the turns to come; nothing happens after the last
    ghost var trace: seq<State>      // every state so far
    ghost var deletions: seq<Deletion>
    ghost var requested: seq<Request>
    ghost var faults: nat            // how many requests were refused or lost their answer

    ghost predicate Valid()
      reads this
    {
      IsTrace(trace) && state == trace[|trace| - 1]
    }

    constructor (initial: State, script: seq<Turn>)
      requires Sound(initial)
      ensures Valid() && state == initial && trace == [initial] && deletions == [] && this.script == script
      ensures requested == [] && faults == 0
    {
      state, this.script, trace, deletions, requested, faults := initial, script, [initial], [], [], 0;
    }

    twostate predicate Advances()
      reads this
    {
      old(trace) <= trace
    }

    method Act(action: Action)
      requires Valid()
      modifies this`state, this`trace
      ensures Valid() && state == Apply(old(state), action) && trace == old(trace) + [state]
    {
      assert Follows(state, Apply(state, action));
      state := Apply(state, action);
      trace := trace + [state];
    }

    /** Others act until the pilot's next request arrives. */
    method Interleave() returns (turn: Turn)
      requires Valid()
      modifies this`state, this`trace, this`script, this`faults
      ensures Valid() && Advances() && turn == NextTurn(old(script)) && script == Later(old(script))
      ensures state == ApplyAll(old(state), turn.actions)
      ensures faults == old(faults) + if turn.outcome.Answered? then 0 else 1
    {
      turn := NextTurn(script);
      script := Later(script);
      if !turn.outcome.Answered? { faults := faults + 1; }
      for i := 0 to |turn.actions|
        invariant Valid() && Advances() && state == ApplyAll(old(state), turn.actions[..i])
        invariant script == Later(old(script)) && faults == old(faults) + if turn.outcome.Answered? then 0 else 1
      {
        assert turn.actions[..i + 1][..i] == turn.actions[..i];
        Act(turn.actions[i]);
      }
      assert turn.actions[..|turn.actions|] == turn.actions;
    }

    method Get(key: Key) returns (r: Result<Option<Resource>, Outcome>)
      requires Valid()
      modifies this`state, this`trace, this`script, this`faults
      ensures Valid() && Advances()
      ensures state == ApplyAll(old(state), NextTurn(old(script)).actions) && script == Later(old(script))
      ensures r.Success? <==> NextTurn(old(script)).outcome.Answered?
      ensures r.Success? ==> r.value == if key in state.objects then Some(state.objects[key]) else None
      ensures old(faults) <= faults && (r.Failure? <==> faults > old(faults))
    {
      var turn := Interleave();
      if !turn.outcome.Answered? { return Failure(turn.outcome); }
      r := Success(if key in state.objects then Some(state.objects[key]) else None);
    }

    /** Create if nothing has the name; admission may store other labels. Without a
        fault it fails only because the name is taken. */
    method CreateResource(key: Key, labels: Labels) returns (r: Result<Resource, Outcome>)
      requires Valid()
      modifies this`state, this`trace, this`script, this`faults
      ensures Valid() && Advances() && script == Later(old(script))
      ensures state == Creates(old(state), NextTurn(old(script)), key, labels)
      ensures r.Success? <==>
                && NextTurn(old(script)).outcome.Answered?
                && key !in ApplyAll(old(state), NextTurn(old(script)).actions).objects
      ensures r.Success? ==>
                && key in state.objects && state.objects[key] == r.value && r.value.uid >= old(state).issued
                && r.value == Resource(r.value.uid, Stored(NextTurn(old(script)), labels), map[], false)
      ensures old(faults) <= faults && (r.Failure? ==> faults > old(faults) || key in state.objects)
    {
      var turn := Interleave();
      TraceKeeps(trace, |old(trace)| - 1, |trace| - 1, key, 0);
      if turn.outcome.Refused? || key in state.objects { return Failure(Refused); }
      Act(Create(key, Stored(turn, labels), map[]));
      if turn.outcome.AnswerLost? { return Failure(AnswerLost); }
      r := Success(state.objects[key]);
    }

    /** The second request: the object of the name listed is deleted, whatever it is by
        then. */
    method DeleteNamed(key: Key) returns (ok: bool)
      requires Valid()
      modifies this`state, this`trace, this`script, this`faults, this`deletions
      ensures Valid() && Advances()
      ensures deletions == old(deletions) + DeletesNamed(old(state), old(script), key)
      ensures script == Later(old(script))
      ensures old(faults) <= faults && (ok <==> faults == old(faults)) && (ok <==> NextTurn(old(script)).outcome.Answered?)
    {
      ghost var listed := state;
      var window := Interleave();
      if window.outcome.Refused? { return false; }
      if key in state.objects {
        deletions := deletions + [Deletion(state.objects[key], listed, window.actions)];
        Act(Terminate(key));
      }
      ok := window.outcome.Answered?;
    }

    /** `kubectl delete` with a selector: the server lists the named object if its
        labels match, then the object of that name is deleted, then the command
        waits. Others may act between any two of these. It succeeds exactly if all its
        requests are answered. */
    method DeleteSelected(key: Key, selector: Labels) returns (ok: bool)
      requires Valid()
      modifies this
      ensures Valid() && Advances()
      ensures deletions == old(deletions) + Deletes(old(state), old(script), key, selector)
      ensures requested == old(requested) + [Request(key, selector)]
      ensures old(faults) <= faults && (ok <==> faults == old(faults))
    {
      requested := requested + [Request(key, selector)];
      var listing := Interleave();
      if !listing.outcome.Answered? { return false; }
      if key in state.objects && Selects(selector, state.objects[key].labels) {
        var deleted := DeleteNamed(key);
        if !deleted { return false; }
      }
      var waiting := Interleave();
      ok := waiting.outcome.Answered?;
    }
  }
}
