/** scripts/kuberay_compiled_graph_pilot.py: the namespace and RayCluster leases
    of a pilot run, the checks that bracket its calls, and its cleanup. */
module PilotLease {
  import opened Text
  import opened Cluster

  const PROFILE_NAME := "django-ray-cgraph-kuberay-cpu-v1"
  const PROFILE_LABEL := "django-ray.io/capability-profile"
  const RUN_LABEL := "django-ray.io/pilot-run"
  const NAMESPACE_UID_ANNOTATION := "django-ray.io/pilot-namespace-uid"

  datatype NamespaceLease = NamespaceLease(uid: Uid, runToken: string)

  datatype RayClusterLease = RayClusterLease(uid: Uid, namespaceUid: Uid, runToken: string)

  predicate ValidToken(token: string) {
    HexString(token, 32)
  }

  lemma TokenMeans(token: string)
    ensures ValidToken(token) <==> |token| == 32 && forall i | 0 <= i < 32 :: token[i] in "0123456789" + "abcdef"
  {
    HexStringMeans(token, 32);
  }

  predicate HasLabel(labels: Labels, name: string, value: string) {
    name in labels && labels[name] == value
  }

  predicate Owned(labels: Labels, runToken: string) {
    HasLabel(labels, PROFILE_LABEL, PROFILE_NAME) && HasLabel(labels, RUN_LABEL, runToken)
  }

  predicate NamespaceMatches(o: Resource, lease: NamespaceLease) {
    o.uid == lease.uid && Owned(o.labels, lease.runToken) && !o.terminating
  }

  /** The annotation names the namespace by its identifier, as text. */
  predicate RayClusterMatches(o: Resource, lease: RayClusterLease, show: Uid -> string) {
    && o.uid == lease.uid && Owned(o.labels, lease.runToken)
    && HasLabel(o.annotations, NAMESPACE_UID_ANNOTATION, show(lease.namespaceUid)) && !o.terminating
  }

  function Ownership(runToken: string): Labels {
    map[PROFILE_LABEL := PROFILE_NAME, RUN_LABEL := runToken]
  }

  /** The leased namespace is live and carries this run's labels. */
  ghost predicate NamespaceLeased(s: State, lease: NamespaceLease) {
    Live(s, PilotNamespace, lease.uid) && Owned(s.objects[PilotNamespace].labels, lease.runToken)
  }

  /** The leased cluster object is live, carries this run's labels and names the
      namespace. */
  ghost predicate RayClusterLeased(s: State, ray: RayClusterLease, show: Uid -> string) {
    && Live(s, PilotRayCluster, ray.uid) && Owned(s.objects[PilotRayCluster].labels, ray.runToken)
    && HasLabel(s.objects[PilotRayCluster].annotations, NAMESPACE_UID_ANNOTATION, show(ray.namespaceUid))
  }

  /** The states after each of the two requests' turns, and whether a lease is granted:
      the token is valid, both requests are answered, the name is free at both, and what
      is stored carries the profile and this token. */
  ghost predicate Grants(s: State, script: seq<Turn>, runToken: string) {
    var looking, creating := NextTurn(script), NextTurn(Later(script));
    var looked := ApplyAll(s, looking.actions);
    && ValidToken(runToken) && looking.outcome == Answered == creating.outcome
    && PilotNamespace !in looked.objects && PilotNamespace !in ApplyAll(looked, creating.actions).objects
    && (creating.admitted == None
        || (HasLabel(creating.admitted.value, "django-ray.io/capability-profile", "django-ray-cgraph-kuberay-cpu-v1")
            && HasLabel(creating.admitted.value, "django-ray.io/pilot-run", runToken)))
  }

  lemma OwnershipIsOwned(runToken: string)
    ensures Owned(Ownership(runToken), runToken)
  {
    assert PROFILE_LABEL != RUN_LABEL by { assert PROFILE_LABEL[14] != RUN_LABEL[14]; }
  }

  /** Claim the namespace: only one this call created, with an identifier nothing
      had before, stored live with this run's labels; and exactly when the others' turns
      allow it. Without a fault a valid token fails only against a namespace that is
      there. */
  method EnsureNamespace(server: Server, runToken: string) returns (lease: Option<NamespaceLease>)
    requires server.Valid()
    modifies server
    ensures server.Valid() && server.Advances() && server.deletions == old(server.deletions)
    ensures lease.Some? ==>
              && lease.value.runToken == runToken && ValidToken(runToken)
              && lease.value.uid >= old(server.state).issued
              && PilotNamespace in server.state.objects
              && NamespaceMatches(server.state.objects[PilotNamespace], lease.value)
    ensures lease.None? ==>
              server.faults > old(server.faults) || !ValidToken(runToken) || PilotNamespace in server.state.objects
    ensures lease.Some? <==> Grants(old(server.state), old(server.script), runToken)
    ensures lease.Some? ==>
              var looked := ApplyAll(old(server.state), NextTurn(old(server.script)).actions);
              server.state == Creates(looked, NextTurn(Later(old(server.script))), PilotNamespace, Ownership(runToken))
  {
    lease := None;
    OwnershipIsOwned(runToken);
    var existing := server.Get(PilotNamespace);
    TraceKeeps(server.trace, |old(server.trace)| - 1, |server.trace| - 1, PilotNamespace, 0);
    if existing.Failure? || existing.value.Some? { return; }
    if !ValidToken(runToken) { return; }
    var created := server.CreateResource(PilotNamespace, Ownership(runToken));
    if created.Failure? { return; }
    var claimed := NamespaceLease(created.value.uid, runToken);
    if !NamespaceMatches(created.value, claimed) { return; }
    lease := Some(claimed);
  }

  method AssertCurrentNamespaceLease(server: Server, lease: NamespaceLease) returns (ok: bool)
    requires server.Valid()
    modifies server
    ensures server.Valid() && server.Advances() && server.deletions == old(server.deletions)
    ensures ok <==> ValidToken(lease.runToken) && NextTurn(old(server.script)).outcome.Answered? && NamespaceLeased(server.state, lease)
    ensures ValidToken(lease.runToken) ==> server.state == ApplyAll(old(server.state), NextTurn(old(server.script)).actions)
    ensures old(server.faults) <= server.faults && (ok ==> server.faults == old(server.faults))
    ensures !ok ==> server.faults > old(server.faults) || !ValidToken(lease.runToken) || !NamespaceLeased(server.state, lease)
  {
    if !ValidToken(lease.runToken) { return false; }
    var current := server.Get(PilotNamespace);
    ok := current.Success? && current.value.Some? && NamespaceMatches(current.value.value, lease);
  }

  /** The two leases are of one run. */
  predicate SameRun(lease: NamespaceLease, ray: RayClusterLease) {
    ValidToken(lease.runToken) && ray.namespaceUid == lease.uid && ray.runToken == lease.runToken
  }

  method AssertCurrentRayClusterLease(server: Server, lease: NamespaceLease, ray: RayClusterLease, show: Uid -> string)
    returns (ok: bool)
    requires server.Valid()
    modifies server
    ensures server.Valid() && server.Advances() && server.deletions == old(server.deletions)
    ensures ok <==>
              && ValidToken(lease.runToken) && ray.namespaceUid == lease.uid && ray.runToken == lease.runToken
              && NextTurn(old(server.script)).outcome.Answered? && RayClusterLeased(server.state, ray, show)
    ensures SameRun(lease, ray) ==> server.state == ApplyAll(old(server.state), NextTurn(old(server.script)).actions)
    ensures old(server.faults) <= server.faults && (ok ==> server.faults == old(server.faults))
    ensures !ok ==>
              || server.faults > old(server.faults) || !SameRun(lease, ray) || !RayClusterLeased(server.state, ray, show)
  {
    if !SameRun(lease, ray) { return false; }
    var current := server.Get(PilotRayCluster);
    ok := current.Success? && current.value.Some? && RayClusterMatches(current.value.value, ray, show);
  }

  /** Every state from `start` to `end` has the object live under this identifier. */
  ghost predicate LiveDuring(trace: seq<State>, start: nat, end: nat, key: Key, uid: Uid) {
    start <= end < |trace| && forall k | start <= k <= end :: Live(trace[k], key, uid)
  }

  /** Live at two checks, an object was live at every state of the call between. */
  lemma LiveBetween(trace: seq<State>, before: nat, start: nat, end: nat, after: nat, key: Key, uid: Uid)
    requires IsTrace(trace) && before <= start <= end <= after < |trace|
    requires Live(trace[before], key, uid) && Live(trace[after], key, uid)
    ensures LiveDuring(trace, start, end, key, uid)
  {
    forall k | start <= k <= end ensures Live(trace[k], key, uid) {
      LiveThroughout(trace, before, k, after, key, uid);
    }
  }

  /** Some state from `start` on does not have the leased objects. */
  ghost predicate LeaseMissing(trace: seq<State>, start: nat, lease: NamespaceLease, ray: Option<RayClusterLease>, show: Uid -> string) {
    exists k | start <= k < |trace| ::
      !NamespaceLeased(trace[k], lease) || (ray.Some? && !RayClusterLeased(trace[k], ray.value, show))
  }

  /** Why a bracket can fail: a fault, leases of different runs, or a lease that some
      state from `start` on does not have. */
  ghost predicate Excused(server: Server, faults: nat, start: nat, lease: NamespaceLease, ray: Option<RayClusterLease>, show: Uid -> string)
    reads server
  {
    || server.faults > faults || !ValidToken(lease.runToken) || (ray.Some? && !SameRun(lease, ray.value))
    || LeaseMissing(server.trace, start, lease, ray, show)
  }

  /** The checks before the call; `seen` is the state that had the namespace. */
  method EnterBoundary(server: Server, lease: NamespaceLease, ray: Option<RayClusterLease>, show: Uid -> string)
    returns (ok: bool, ghost seen: nat)
    requires server.Valid()
    modifies server
    ensures server.Valid() && server.Advances() && server.deletions == old(server.deletions)
    ensures old(server.faults) <= server.faults && (ok ==> server.faults == old(server.faults))
    ensures |old(server.trace)| - 1 <= seen < |server.trace|
    ensures ok ==> ValidToken(lease.runToken) && NamespaceLeased(server.trace[seen], lease)
    ensures ok && ray.Some? ==> SameRun(lease, ray.value) && RayClusterLeased(server.state, ray.value, show)
    ensures !ok ==> Excused(server, old(server.faults), |old(server.trace)| - 1, lease, ray, show)
  {
    ok := AssertCurrentNamespaceLease(server, lease);
    seen := |server.trace| - 1;
    ghost var checked := server.trace;
    if ok && ray.Some? { ok := AssertCurrentRayClusterLease(server, lease, ray.value, show); }
    assert server.trace[seen] == checked[seen];
  }

  /** The checks after the call, both made whatever the first finds; `seen` is the
      state that had the cluster object. */
  method LeaveBoundary(server: Server, lease: NamespaceLease, ray: Option<RayClusterLease>, show: Uid -> string)
    returns (ok: bool, ghost seen: nat)
    requires server.Valid()
    modifies server
    ensures server.Valid() && server.Advances() && server.deletions == old(server.deletions)
    ensures old(server.faults) <= server.faults && (ok ==> server.faults == old(server.faults))
    ensures |old(server.trace)| - 1 <= seen < |server.trace|
    ensures ok ==> ValidToken(lease.runToken) && NamespaceLeased(server.state, lease)
    ensures ok && ray.Some? ==> SameRun(lease, ray.value) && RayClusterLeased(server.trace[seen], ray.value, show)
    ensures !ok ==> Excused(server, old(server.faults), |old(server.trace)| - 1, lease, ray, show)
  {
    var stillRay := true;
    if ray.Some? { stillRay := AssertCurrentRayClusterLease(server, lease, ray.value, show); }
    seen := |server.trace| - 1;
    ghost var checked := server.trace;
    var stillNamespace := AssertCurrentNamespaceLease(server, lease);
    assert server.trace[seen] == checked[seen];
    ok := stillRay && stillNamespace;
  }

  /** One call between two rounds of checks. The call itself may do anything the
      script says. When the bracket returns normally, the call ran from state
      `start` to state `end` and the leased objects were live throughout. */
  method Bracketed(server: Server, lease: NamespaceLease, ray: Option<RayClusterLease>, show: Uid -> string)
    returns (ok: bool, ghost start: nat, ghost end: nat)
    requires server.Valid()
    modifies server
    ensures server.Valid() && server.Advances() && server.deletions == old(server.deletions)
    ensures ok ==>
              && |old(server.trace)| - 1 <= start <= end < |server.trace|
              && LiveDuring(server.trace, start, end, PilotNamespace, lease.uid)
              && (ray.Some? ==> LiveDuring(server.trace, start, end, PilotRayCluster, ray.value.uid))
              && server.faults == old(server.faults)
    ensures !ok ==> Excused(server, old(server.faults), |old(server.trace)| - 1, lease, ray, show)
  {
    ghost var seen, again;
    start, end := |server.trace| - 1, |server.trace| - 1;
    ok, seen := EnterBoundary(server, lease, ray, show);
    if !ok { return; }
    start := |server.trace| - 1;
    ghost var before := server.trace;
    var call := server.Interleave();
    end := |server.trace| - 1;
    ok, again := LeaveBoundary(server, lease, ray, show);
    ok := ok && call.outcome.Answered?;
    if ok {
      assert server.trace[seen] == before[seen] && server.trace[start] == before[start];
      LiveBetween(server.trace, seen, start, end, |server.trace| - 1, PilotNamespace, lease.uid);
      if ray.Some? { LiveBetween(server.trace, start, start, end, again, PilotRayCluster, ray.value.uid); }
    }
  }

  /** The objects a cleanup's delete request hits, if others act as scripted. */
  ghost function CleanupDeletes(s: State, script: seq<Turn>, lease: NamespaceLease, contextUnchanged: bool): seq<Deletion> {
    var looked := ApplyAll(s, NextTurn(script).actions);
    if !ValidToken(lease.runToken) || !contextUnchanged || !NextTurn(script).outcome.Answered?
       || !NamespaceLeased(looked, lease) then []
    else Deletes(looked, Later(script), PilotNamespace, Ownership(lease.runToken))
  }

  lemma SelectorOwns(runToken: string, labels: Labels)
    ensures Selects(Ownership(runToken), labels) <==> Owned(labels, runToken)
  {
    var selector := Ownership(runToken);
    assert PROFILE_LABEL != RUN_LABEL by { assert PROFILE_LABEL[14] != RUN_LABEL[14]; }
    assert PROFILE_LABEL in selector && RUN_LABEL in selector;
  }

  /** Cleanup deletes a namespace without this run's labels if and only if, inside the
      window of the delete request itself, the last creation or relabelling of the
      namespace gave it other labels. */
  lemma CleanupDeletesOwned(s: State, script: seq<Turn>, lease: NamespaceLease, contextUnchanged: bool)
    ensures forall d | d in CleanupDeletes(s, script, lease, contextUnchanged) ::
              Owned(d.target.labels, lease.runToken) <==> Harmless(d.listed, d.window, PilotNamespace, Ownership(lease.runToken))
  {
    var looked := ApplyAll(s, NextTurn(script).actions);
    DeletesExactly(looked, Later(script), PilotNamespace, Ownership(lease.runToken));
    forall d | d in CleanupDeletes(s, script, lease, contextUnchanged)
      ensures Owned(d.target.labels, lease.runToken) <==> Harmless(d.listed, d.window, PilotNamespace, Ownership(lease.runToken))
    {
      SelectorOwns(lease.runToken, d.target.labels);
    }
  }

  /** Delete this run's namespace and verify its name is free. A normal return means
      the name was observed free, at once (`first` is the state looked at) or after one
      delete request for both labels. Without a fault it fails only if the context
      changed or the name is still taken. */
  method CleanupNamespace(server: Server, lease: NamespaceLease, contextUnchanged: bool) returns (ok: bool, ghost first: nat)
    requires server.Valid()
    modifies server
    ensures server.Valid() && server.Advances()
    ensures server.deletions == old(server.deletions) + CleanupDeletes(old(server.state), old(server.script), lease, contextUnchanged)
    ensures forall d | d in server.deletions[|old(server.deletions)|..] ::
              Owned(d.target.labels, lease.runToken) <==> Harmless(d.listed, d.window, PilotNamespace, Ownership(lease.runToken))
    ensures ok ==> PilotNamespace !in server.state.objects && server.faults == old(server.faults)
    ensures |old(server.trace)| - 1 <= first < |server.trace|
    ensures ok ==>
              if PilotNamespace in server.trace[first].objects
              then NamespaceLeased(server.trace[first], lease)
                   && server.requested == old(server.requested) + [Request(PilotNamespace, Ownership(lease.runToken))]
              else server.requested == old(server.requested) && server.deletions == old(server.deletions)
    ensures !ok ==>
              || server.faults > old(server.faults) || !ValidToken(lease.runToken) || !contextUnchanged
              || PilotNamespace in server.state.objects
    ensures !contextUnchanged || !ValidToken(lease.runToken) ==>
              !ok && server.trace == old(server.trace) && server.deletions == old(server.deletions)
  {
    first := |server.trace| - 1;
    CleanupDeletesOwned(server.state, server.script, lease, contextUnchanged);
    if !ValidToken(lease.runToken) || !contextUnchanged { return false, first; }
    var existing := server.Get(PilotNamespace);
    first := |server.trace| - 1;
    ghost var looked := server.trace;
    if existing.Failure? { return false, first; }
    if existing.value.None? { return true, first; }
    if !NamespaceMatches(existing.value.value, lease) { return false, first; }
    var deleted := server.DeleteSelected(PilotNamespace, Ownership(lease.runToken));
    if !deleted { return false, first; }
    var absent := server.Get(PilotNamespace);
    assert server.trace[first] == looked[first];
    ok := absent.Success? && absent.value.None?;
  }

  /** The command has no precondition on the identifier: on this script, in which
      somebody replaces the namespace inside the window of the delete request, cleanup
      deletes a namespace that does not carry this run's labels. */
  lemma WindowReplacement(runToken: string) returns (s: State, script: seq<Turn>, d: Deletion)
    requires ValidToken(runToken)
    ensures Sound(s) && CleanupDeletes(s, script, NamespaceLease(0, runToken), true) == [d]
    ensures !Owned(d.target.labels, runToken) && d.target.uid != 0
  {
    var mine := Resource(0, Ownership(runToken), map[], false);
    s := State(map[PilotNamespace := mine], 1);
    var replace := [Remove(PilotNamespace), Create(PilotNamespace, map[], map[])];
    script := [Turn([], Answered, None), Turn([], Answered, None), Turn(replace, Answered, None)];
    SelectorOwns(runToken, mine.labels);
    assert NamespaceLeased(s, NamespaceLease(0, runToken));
    assert replace[..1] == [Remove(PilotNamespace)] && replace[..1][..0] == [];
    assert ApplyAll(s, replace[..1]) == Apply(s, Remove(PilotNamespace));
    var hit := ApplyAll(s, replace);
    assert hit.objects[PilotNamespace] == Resource(1, map[], map[], false);
    d := Deletion(hit.objects[PilotNamespace], s, replace);
    assert Later(script) == script[1..] && NextTurn(Later(Later(script))) == script[2];
  }
}
