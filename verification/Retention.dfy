/** scripts/benchmark_workflow_progress_preparation.py: the retention and page checks
    of the report validator. */
module Retention {
  import opened Basics
  import opened Topology

  datatype Limits = Limits(nodeMax: nat, edgeMax: nat, pageMax: nat)

  datatype Reason = NodeCountLimit | EdgeCountLimit

  datatype Evidence = Evidence(profile: Profile, observedNodes: nat, observedEdges: nat, retainedNodes: nat,
                               retainedEdges: nat, pages: nat, reasons: set<Reason>)

  datatype Verdict = Accepted | InvalidCardinality | ExceedsObservation | SparseMismatch | HighEdgeMismatch
                   | ExceedsLimits | RetentionMismatch | PageMismatch

  function PagesFor(items: nat, pageMax: nat): nat
    requires pageMax > 0
  {
    (items + pageMax - 1) / pageMax
  }

  function EligibleEdges(e: Evidence, retained: nat): int
    requires e.observedNodes > 0
  {
    if e.profile.Sparse? then Max(0, retained - 1)
    else if retained == e.observedNodes then e.observedEdges
    else Predicted(e.observedEdges / e.observedNodes, retained)
  }

  function ValidateRetention(e: Evidence, limits: Limits): Verdict
    requires limits.pageMax > 0
  {
    if e.observedNodes == 0 || e.pages == 0 then InvalidCardinality
    else if e.retainedNodes > e.observedNodes || e.retainedEdges > e.observedEdges then ExceedsObservation
    else if e.profile.Sparse? && e.observedEdges != Max(0, e.observedNodes - 1) then SparseMismatch
    else if e.profile.HighEdge? && (e.observedEdges == 0 || e.observedEdges % e.observedNodes != 0
                                    || e.observedEdges / e.observedNodes >= e.observedNodes) then HighEdgeMismatch
    else if e.retainedNodes > limits.nodeMax || e.retainedEdges > limits.edgeMax then ExceedsLimits
    else
      var nodes := Min(e.observedNodes, limits.nodeMax);
      var eligible := EligibleEdges(e, nodes);
      var edges := Min(eligible, limits.edgeMax);
      var reasons := (if e.observedNodes > limits.nodeMax then {NodeCountLimit} else {})
                     + (if eligible > limits.edgeMax then {EdgeCountLimit} else {});
      if e.retainedNodes != nodes || e.retainedEdges != edges || e.reasons != reasons then RetentionMismatch
      else
        var minimum := PagesFor(nodes, limits.pageMax) + if edges > 0 then PagesFor(edges, limits.pageMax) else 0;
        if e.pages < minimum || e.pages > nodes + edges then PageMismatch else Accepted
  }

  /** Items laid out on pages, none empty, none over the limit. */
  ghost predicate Paged(pages: seq<nat>, items: nat, pageMax: nat) {
    Sum(pages) == items && forall p | p in pages :: 0 < p <= pageMax
  }

  function Sum(values: seq<nat>): nat {
    if values == [] then 0 else Sum(values[..|values| - 1]) + values[|values| - 1]
  }

  lemma {:induction false} PageCount(pages: seq<nat>, items: nat, pageMax: nat)
    requires pageMax > 0 && Paged(pages, items, pageMax)
    ensures PagesFor(items, pageMax) <= |pages| <= items
  {
    PageCapacity(pages, items, pageMax);
    assert (|pages| * pageMax + (pageMax - 1)) / pageMax == |pages| by {
      DivideWithRest(|pages|, pageMax, pageMax - 1);
    }
    DivideMonotone(items + pageMax - 1, |pages| * pageMax + (pageMax - 1), pageMax);
  }

  lemma {:induction false} PageCapacity(pages: seq<nat>, items: nat, pageMax: nat)
    requires Paged(pages, items, pageMax)
    ensures |pages| <= items <= |pages| * pageMax
  {
    if pages != [] {
      var init, last := pages[..|pages| - 1], pages[|pages| - 1];
      assert last in pages && forall p | p in init :: p in pages;
      PageCapacity(init, items - last, pageMax);
      OneMore(|init|, pageMax);
    }
  }

  lemma {:induction false} DivideWithRest(q: nat, d: nat, rest: nat)
    requires rest < d
    ensures (q * d + rest) / d == q && (q * d + rest) % d == rest
  {
    var a := q * d + rest;
    var x, r := a / d, a % d;
    assert a == d * x + r && 0 <= r < d;
    if x > q { Scale(q, x, d); }
    if x < q { Scale(x, q, d); }
  }

  lemma {:induction false} Scale(x: nat, y: nat, d: nat)
    requires x < y
    ensures d * x + d <= d * y
  {
    assert d * (x + 1) == d * x + d;
  }

  lemma {:induction false} DivideMonotone(a: nat, b: nat, d: nat)
    requires d > 0 && a <= b
    ensures a / d <= b / d
  {
    var x, y := a / d, b / d;
    assert a == d * x + a % d && b == d * y + b % d;
    if x > y { Scale(y, x, d); }
  }

  /** The evidence of a run that generated the graph, retained its first nodes,
      then the surviving edges up to their limit, and says why it stopped. */
  ghost predicate Honest(e: Evidence, limits: Limits, factor: nat, nodePages: seq<nat>, edgePages: seq<nat>)
    requires limits.pageMax > 0
  {
    var graph := Generated(e.observedNodes, e.profile, factor);
    var surviving := Kept(graph, e.retainedNodes);
    && e.observedEdges == |graph|
    && e.retainedNodes == Min(e.observedNodes, limits.nodeMax)
    && e.retainedEdges == Min(surviving, limits.edgeMax)
    && (NodeCountLimit in e.reasons <==> e.observedNodes > limits.nodeMax)
    && (EdgeCountLimit in e.reasons <==> surviving > limits.edgeMax)
    && Paged(nodePages, e.retainedNodes, limits.pageMax) && Paged(edgePages, e.retainedEdges, limits.pageMax)
    && e.pages == |nodePages| + |edgePages|
  }

  lemma {:induction false} HonestPages(e: Evidence, limits: Limits, nodePages: seq<nat>, edgePages: seq<nat>)
    requires limits.pageMax > 0
    requires Paged(nodePages, e.retainedNodes, limits.pageMax) && Paged(edgePages, e.retainedEdges, limits.pageMax)
    ensures PagesFor(e.retainedNodes, limits.pageMax)
              + (if e.retainedEdges > 0 then PagesFor(e.retainedEdges, limits.pageMax) else 0)
            <= |nodePages| + |edgePages| <= e.retainedNodes + e.retainedEdges
    ensures e.retainedNodes > 0 ==> |nodePages| > 0
  {
    PageCount(nodePages, e.retainedNodes, limits.pageMax);
    PageCount(edgePages, e.retainedEdges, limits.pageMax);
  }

  /** Honest evidence of a sparse run is always accepted. */
  lemma {:induction false} HonestSparseAccepted(e: Evidence, limits: Limits, factor: nat, nodePages: seq<nat>, edgePages: seq<nat>)
    requires limits.nodeMax > 0 && limits.edgeMax > 0 && limits.pageMax > 0
    requires e.profile.Sparse? && e.observedNodes > 0 && Honest(e, limits, factor, nodePages, edgePages)
    ensures ValidateRetention(e, limits) == Accepted
  {
    KeptChain(e.observedNodes, e.retainedNodes);
    HonestPages(e, limits, nodePages, edgePages);
    SameReasons(e, limits, Kept(Chain(e.observedNodes), e.retainedNodes));
  }

  lemma {:induction false} SameReasons(e: Evidence, limits: Limits, eligible: int)
    ensures (NodeCountLimit in e.reasons <==> e.observedNodes > limits.nodeMax)
            && (EdgeCountLimit in e.reasons <==> eligible > limits.edgeMax)
            <==> e.reasons == (if e.observedNodes > limits.nodeMax then {NodeCountLimit} else {})
                              + (if eligible > limits.edgeMax then {EdgeCountLimit} else {})
  {
    var reasons := (if e.observedNodes > limits.nodeMax then {NodeCountLimit} else {})
                   + (if eligible > limits.edgeMax then {EdgeCountLimit} else {});
    assert e.reasons == reasons <==> forall r: Reason :: r in e.reasons <==> r in reasons;
    assert forall r: Reason | r in e.reasons :: r == NodeCountLimit || r == EdgeCountLimit;
  }

  /** Honest evidence of a high-edge run is accepted exactly when every node was
      kept, or no kept node's edges reach around the ring, or the edge limit lies
      below the prediction anyway. */
  lemma {:induction false} HonestHighEdgeAccepted(e: Evidence, limits: Limits, factor: nat, nodePages: seq<nat>, edgePages: seq<nat>)
    requires limits.nodeMax > 0 && limits.edgeMax > 0 && limits.pageMax > 0
    requires e.profile.HighEdge? && 0 < factor < e.observedNodes && Honest(e, limits, factor, nodePages, edgePages)
    ensures ValidateRetention(e, limits) == Accepted <==>
              e.observedNodes <= limits.nodeMax
              || factor <= e.observedNodes - limits.nodeMax
              || limits.edgeMax < Predicted(factor, limits.nodeMax)
  {
    var n := e.observedNodes;
    var graph := Generated(n, HighEdge, factor);
    HighEdgeIsSimple(n, factor);
    assert n * factor == factor * n + 0;
    DivideWithRest(factor, n, 0);
    HonestPages(e, limits, nodePages, edgePages);
    KeptAll(graph, n);
    KeptAtMost(graph, e.retainedNodes);
    if n > limits.nodeMax { PredictionExact(n, factor, e.retainedNodes); }
    SameReasons(e, limits, EligibleEdges(e, e.retainedNodes));
    SameReasons(e, limits, Kept(graph, e.retainedNodes));
  }

  // ----- what accepted evidence says -----

  /** The pages can be divided into pages of nodes and pages of edges, none empty and none
      over the limit. */
  ghost predicate Divides(pages: nat, nodes: nat, edges: nat, pageMax: nat) {
    exists a: nat, b: nat | a + b == pages :: a <= nodes && b <= edges && nodes <= a * pageMax && edges <= b * pageMax
  }

  /** The first nodes up to the limit and the eligible edges up to theirs are retained, the
      reasons name exactly the limits that cut something off, and the pages can hold
      what is retained. */
  ghost predicate Retains(e: Evidence, limits: Limits, eligible: int) {
    && e.retainedNodes == (if e.observedNodes <= limits.nodeMax then e.observedNodes else limits.nodeMax)
    && e.retainedEdges == (if eligible <= limits.edgeMax then eligible else limits.edgeMax)
    && e.retainedEdges <= e.observedEdges
    && (NodeCountLimit in e.reasons <==> e.observedNodes > limits.nodeMax)
    && (EdgeCountLimit in e.reasons <==> eligible > limits.edgeMax)
    && e.pages > 0 && Divides(e.pages, e.retainedNodes, e.retainedEdges, limits.pageMax)
  }

  lemma {:induction false} PagesSuffice(items: nat, pages: nat, pageMax: nat)
    requires pageMax > 0
    ensures PagesFor(items, pageMax) <= pages <==> items <= pages * pageMax
  {
    var n := PagesFor(items, pageMax);
    var rest := (items + pageMax - 1) % pageMax;
    assert items + pageMax - 1 == pageMax * n + rest;
    if n <= pages {
      if n < pages { Scale(n, pages, pageMax); }
    } else {
      Scale(pages, n, pageMax);
    }
  }

  lemma {:induction false} PagesAtMost(items: nat, pageMax: nat)
    requires pageMax > 0
    ensures PagesFor(items, pageMax) <= items && (items == 0 ==> PagesFor(items, pageMax) == 0)
  {
    PagesSuffice(items, items, pageMax);
    if items > 0 { Scale(0, pageMax, items); }
  }

  lemma {:induction false} DividesExactly(pages: nat, nodes: nat, edges: nat, pageMax: nat)
    requires pageMax > 0
    ensures Divides(pages, nodes, edges, pageMax) <==>
              PagesFor(nodes, pageMax) + (if edges > 0 then PagesFor(edges, pageMax) else 0) <= pages <= nodes + edges
  {
    var m, n := PagesFor(nodes, pageMax), PagesFor(edges, pageMax);
    PagesAtMost(nodes, pageMax);
    PagesAtMost(edges, pageMax);
    forall a: nat, b: nat | a + b == pages && a <= nodes && b <= edges && nodes <= a * pageMax && edges <= b * pageMax
      ensures m + n <= pages <= nodes + edges
    {
      PagesSuffice(nodes, a, pageMax);
      PagesSuffice(edges, b, pageMax);
    }
    if m + n <= pages <= nodes + edges {
      var a: nat := Min(nodes, pages - n);
      var b: nat := pages - a;
      PagesSuffice(nodes, a, pageMax);
      PagesSuffice(edges, b, pageMax);
      assert a + b == pages;
    }
  }

  lemma {:induction false} RetainsExactly(e: Evidence, limits: Limits)
    requires limits.pageMax > 0 && e.observedNodes > 0
    requires e.profile.Sparse? ==> e.observedEdges == e.observedNodes - 1
    requires e.profile.HighEdge? ==>
               e.observedEdges != 0 && e.observedEdges % e.observedNodes == 0 && e.observedEdges / e.observedNodes < e.observedNodes
    ensures ValidateRetention(e, limits) == Accepted <==> Retains(e, limits, EligibleEdges(e, Min(e.observedNodes, limits.nodeMax)))
  {
    var eligible := EligibleEdges(e, Min(e.observedNodes, limits.nodeMax));
    SameReasons(e, limits, eligible);
    DividesExactly(e.pages, e.retainedNodes, e.retainedEdges, limits.pageMax);
  }

  /** Accepted evidence of a sparse run is exactly one of a chain, retained as described. */
  lemma {:induction false} SparseAcceptedExactly(e: Evidence, limits: Limits)
    requires limits.pageMax > 0 && e.profile.Sparse?
    ensures ValidateRetention(e, limits) == Accepted <==>
              e.observedNodes > 0 && e.observedEdges == e.observedNodes - 1 && Retains(e, limits, Max(0, e.retainedNodes - 1))
  {
    if e.observedNodes > 0 && e.observedEdges == e.observedNodes - 1 { RetainsExactly(e, limits); }
  }

  /** Accepted evidence of a high-edge run is exactly one of a whole factor below the number
      of nodes, retained as described. */
  lemma {:induction false} HighEdgeAcceptedExactly(e: Evidence, limits: Limits)
    requires limits.pageMax > 0 && e.profile.HighEdge?
    ensures ValidateRetention(e, limits) == Accepted <==>
              exists factor: nat | 0 < factor < e.observedNodes :: IsFactor(e, factor) && Retains(e, limits, EligibleFor(e, factor))
  {
    if factor: nat :| 0 < factor < e.observedNodes && IsFactor(e, factor) && Retains(e, limits, EligibleFor(e, factor)) {
      FactorIs(e, factor);
      RetainsExactly(e, limits);
      EligibleAgrees(e, limits, factor);
    }
    if ValidateRetention(e, limits) == Accepted { var factor := AcceptedFactor(e, limits); }
  }

  lemma {:induction false} AcceptedFactor(e: Evidence, limits: Limits) returns (factor: nat)
    requires limits.pageMax > 0 && e.profile.HighEdge? && ValidateRetention(e, limits) == Accepted
    ensures 0 < factor < e.observedNodes && IsFactor(e, factor) && Retains(e, limits, EligibleFor(e, factor))
  {
    factor := e.observedEdges / e.observedNodes;
    WholeFactor(e, factor);
    FactorIs(e, factor);
    RetainsExactly(e, limits);
    EligibleAgrees(e, limits, factor);
  }

  lemma {:induction false} WholeFactor(e: Evidence, factor: nat)
    requires e.observedNodes > 0 && e.observedEdges % e.observedNodes == 0 && factor == e.observedEdges / e.observedNodes
    ensures IsFactor(e, factor)
  {
    assert e.observedEdges == e.observedNodes * factor + e.observedEdges % e.observedNodes;
  }

  lemma {:induction false} EligibleAgrees(e: Evidence, limits: Limits, factor: nat)
    requires e.profile.HighEdge? && e.observedNodes > 0 && e.observedEdges / e.observedNodes == factor
    requires e.retainedNodes == Min(e.observedNodes, limits.nodeMax)
    ensures EligibleFor(e, factor) == EligibleEdges(e, Min(e.observedNodes, limits.nodeMax))
  {
  }

  predicate IsFactor(e: Evidence, factor: nat) { e.observedEdges == factor * e.observedNodes }

  /** The edges whose ends are both retained, as the validator predicts them. */
  function EligibleFor(e: Evidence, factor: nat): int {
    if e.observedNodes == e.retainedNodes then e.observedEdges else Predicted(factor, e.retainedNodes)
  }

  lemma {:induction false} FactorIs(e: Evidence, factor: nat)
    requires e.observedNodes > 0 && IsFactor(e, factor)
    ensures e.observedEdges % e.observedNodes == 0 && e.observedEdges / e.observedNodes == factor
    ensures e.observedEdges != 0 <==> factor != 0
  {
    DivideWithRest(factor, e.observedNodes, 0);
    if factor > 0 { OneMore(factor - 1, e.observedNodes); }
  }

  // ----- what is reported -----

  ghost predicate WithinObservation(e: Evidence) { e.retainedNodes <= e.observedNodes && e.retainedEdges <= e.observedEdges }

  /** The observed edges are those of the profile. */
  ghost predicate Shaped(e: Evidence) {
    if e.profile.Sparse? then e.observedEdges == e.observedNodes - 1
    else exists factor: nat | 0 < factor < e.observedNodes :: IsFactor(e, factor)
  }

  ghost predicate WithinLimits(e: Evidence, limits: Limits) {
    e.retainedNodes <= limits.nodeMax && e.retainedEdges <= limits.edgeMax
  }

  lemma {:induction false} ShapeIsChecked(e: Evidence)
    requires e.observedNodes > 0 && e.profile.HighEdge?
    ensures Shaped(e) <==>
              e.observedEdges != 0 && e.observedEdges % e.observedNodes == 0 && e.observedEdges / e.observedNodes < e.observedNodes
  {
    if factor: nat :| 0 < factor < e.observedNodes && IsFactor(e, factor) { FactorIs(e, factor); }
    if e.observedEdges != 0 && e.observedEdges % e.observedNodes == 0 && e.observedEdges / e.observedNodes < e.observedNodes {
      WholeFactor(e, e.observedEdges / e.observedNodes);
    }
  }

  /** Evidence that is not accepted gets the verdict of the first check that fails; the
      pages are the last one. */
  lemma {:induction false} VerdictMeans(e: Evidence, limits: Limits)
    requires limits.pageMax > 0
    ensures var verdict := ValidateRetention(e, limits);
            && (verdict == InvalidCardinality <==> !(e.observedNodes > 0 && e.pages > 0))
            && (verdict == ExceedsObservation <==> e.observedNodes > 0 && e.pages > 0 && !WithinObservation(e))
            && (verdict == (if e.profile.Sparse? then SparseMismatch else HighEdgeMismatch) <==>
                  e.observedNodes > 0 && e.pages > 0 && WithinObservation(e) && !Shaped(e))
            && (verdict == ExceedsLimits <==>
                  e.observedNodes > 0 && e.pages > 0 && WithinObservation(e) && Shaped(e) && !WithinLimits(e, limits))
            && (verdict == PageMismatch ==>
                  WithinLimits(e, limits) && Shaped(e) && !Divides(e.pages, e.retainedNodes, e.retainedEdges, limits.pageMax))
            && (verdict == RetentionMismatch ==> WithinLimits(e, limits) && Shaped(e))
  {
    if e.observedNodes > 0 && e.profile.HighEdge? { ShapeIsChecked(e); }
    DividesExactly(e.pages, e.retainedNodes, e.retainedEdges, limits.pageMax);
  }
}
