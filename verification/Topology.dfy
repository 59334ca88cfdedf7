/** scripts/benchmark_workflow_progress_preparation.py: the generated graphs and
    the formulas that predict what is retained of them. Nodes are numbered in the
    order of their identifiers; the first ones are retained. */
module Topology {
  import opened Basics

  type Edge = (nat, nat)

  datatype Profile = Sparse | HighEdge

  /** The edges of node `i`: to its `factor` successors around the ring. */
  function Row(count: nat, i: nat, factor: nat): seq<Edge>
    requires count > 0
  {
    if factor == 0 then [] else Row(count, i, factor - 1) + [(i, (i + factor) % count)]
  }

  function Rows(count: nat, rows: nat, factor: nat): seq<Edge>
    requires count > 0
  {
    if rows == 0 then [] else Rows(count, rows - 1, factor) + Row(count, rows - 1, factor)
  }

  function Chain(count: nat): seq<Edge> {
    if count <= 1 then [] else Chain(count - 1) + [(count - 2, count - 1)]
  }

  function Generated(count: nat, profile: Profile, factor: nat): seq<Edge> {
    if count == 0 then [] else if profile.Sparse? then Chain(count) else Rows(count, count, factor)
  }

  method Edges(count: nat, profile: Profile, highEdgeFactor: nat) returns (edges: seq<Edge>)
    ensures edges == Generated(count, profile, highEdgeFactor)
  {
    edges := [];
    if profile.Sparse? {
      if count <= 1 { return; }
      for index := 1 to count
        invariant edges == Chain(index)
      {
        edges := edges + [(index - 1, index)];
      }
      return;
    }
    for source := 0 to count
      invariant edges == if count == 0 then [] else Rows(count, source, highEdgeFactor)
    {
      ghost var before := edges;
      for offset := 1 to highEdgeFactor + 1
        invariant edges == before + Row(count, source, offset - 1)
      {
        RowGrows(before, count, source, offset);
        edges := edges + [(source, (source + offset) % count)];
      }
    }
  }

  lemma RowGrows(before: seq<Edge>, count: nat, source: nat, offset: nat)
    requires count > 0 && offset > 0
    ensures before + Row(count, source, offset) == before + Row(count, source, offset - 1) + [(source, (source + offset) % count)]
  {
  }

  // ----- the generated graph is simple -----

  ghost predicate Distinct(edges: seq<Edge>) {
    forall a, b | 0 <= a < b < |edges| :: edges[a] != edges[b]
  }

  function Around(i: nat, offset: nat, count: nat): int {
    if i + offset < count then i + offset else i + offset - count
  }

  lemma {:induction false} StepAround(i: nat, offset: nat, count: nat)
    requires i < count && offset < count
    ensures (i + offset) % count == Around(i, offset, count)
  {
    if i + offset >= count { assert i + offset == count + (i + offset - count); }
  }

  ghost predicate Simple(edges: seq<Edge>, sources: nat, count: nat) {
    && Distinct(edges)
    && forall e | e in edges :: e.0 < sources && e.1 < count && e.0 != e.1
  }

  lemma {:induction false} RowAt(count: nat, i: nat, factor: nat)
    requires i < count && factor < count
    ensures |Row(count, i, factor)| == factor
    ensures forall k | 0 <= k < factor :: Row(count, i, factor)[k] == (i, Around(i, k + 1, count))
  {
    if factor > 0 {
      RowAt(count, i, factor - 1);
      StepAround(i, factor, count);
    }
  }

  lemma {:induction false} RowIsSimple(count: nat, i: nat, factor: nat)
    requires i < count && factor < count
    ensures |Row(count, i, factor)| == factor && Distinct(Row(count, i, factor))
    ensures forall e | e in Row(count, i, factor) :: e.0 == i && e.1 < count && e.1 != i
  {
    RowAt(count, i, factor);
  }

  lemma {:induction false} JoinIsSimple(a: seq<Edge>, b: seq<Edge>, source: nat, count: nat)
    requires Simple(a, source, count) && Distinct(b)
    requires forall e | e in b :: e.0 == source && e.1 < count && e.1 != source
    ensures Simple(a + b, source + 1, count)
  {
    forall i, k | 0 <= i < k < |a + b| ensures (a + b)[i] != (a + b)[k] {
      if i < |a| <= k { assert a[i] in a && b[k - |a|] in b; }
    }
  }

  lemma {:induction false} OneMore(n: nat, d: nat)
    ensures (n + 1) * d == n * d + d
  {
  }

  lemma {:induction false} RowsLength(count: nat, rows: nat, factor: nat)
    requires rows <= count && factor < count
    ensures |Rows(count, rows, factor)| == rows * factor
  {
    if rows > 0 {
      RowsLength(count, rows - 1, factor);
      RowAt(count, rows - 1, factor);
      OneMore(rows - 1, factor);
    }
  }

  lemma {:induction false} RowsAreSimple(count: nat, rows: nat, factor: nat)
    requires rows <= count && factor < count
    ensures Simple(Rows(count, rows, factor), rows, count)
  {
    if rows > 0 {
      RowsAreSimple(count, rows - 1, factor);
      RowIsSimple(count, rows - 1, factor);
      JoinIsSimple(Rows(count, rows - 1, factor), Row(count, rows - 1, factor), rows - 1, count);
    }
  }

  /** `count * factor` distinct edges between distinct nodes. */
  lemma {:induction false} HighEdgeIsSimple(count: nat, factor: nat)
    requires 0 < factor < count
    ensures |Generated(count, HighEdge, factor)| == count * factor
    ensures Simple(Generated(count, HighEdge, factor), count, count)
  {
    RowsLength(count, count, factor);
    RowsAreSimple(count, count, factor);
  }

  /** The sparse profile yields each node's edge to its successor, in order. */
  lemma {:induction false} ChainAt(count: nat)
    ensures |Generated(count, Sparse, 0)| == Max(0, count - 1)
    ensures forall k | 0 <= k < count - 1 :: Generated(count, Sparse, 0)[k] == (k, k + 1)
  {
    if count > 1 { ChainAt(count - 1); }
  }

  /** The high-edge profile yields, node by node, the edges to its next nodes around the
      ring. */
  lemma {:induction false} RowsAt(count: nat, rows: nat, factor: nat, i: nat, k: nat)
    requires rows <= count && factor < count && i < rows && k < factor
    ensures i * factor + k < |Rows(count, rows, factor)|
    ensures Rows(count, rows, factor)[i * factor + k] == (i, Around(i, k + 1, count))
  {
    RowsLength(count, rows, factor);
    RowsLength(count, rows - 1, factor);
    OneMore(i, factor);
    if i == rows - 1 {
      RowAt(count, i, factor);
    } else {
      RowsAt(count, rows - 1, factor, i, k);
    }
  }

  lemma HighEdgeAt(count: nat, factor: nat, i: nat, k: nat)
    requires factor < count && i < count && k < factor
    ensures i * factor + k < |Generated(count, HighEdge, factor)|
    ensures Generated(count, HighEdge, factor)[i * factor + k] == (i, Around(i, k + 1, count))
  {
    RowsAt(count, count, factor, i, k);
  }

  // ----- how many edges keep both ends -----

  function Kept(edges: seq<Edge>, nodes: nat): nat {
    if edges == [] then 0
    else var e := edges[|edges| - 1];
      Kept(edges[..|edges| - 1], nodes) + if e.0 < nodes && e.1 < nodes then 1 else 0
  }

  lemma {:induction false} KeptJoin(a: seq<Edge>, b: seq<Edge>, nodes: nat)
    ensures Kept(a + b, nodes) == Kept(a, nodes) + Kept(b, nodes)
  {
    if b == [] {
      assert a + b == a;
    } else {
      assert (a + b)[..|a + b| - 1] == a + b[..|b| - 1];
      KeptJoin(a, b[..|b| - 1], nodes);
    }
  }

  function Triangle(n: int): int { n * (n + 1) / 2 }

  lemma {:induction false} TriangleStep(n: int)
    ensures Triangle(n) == Triangle(n - 1) + n
  {
    assert n * (n + 1) == (n - 1) * n + 2 * n;
  }

  /** The prediction of the validator for a truncated graph. */
  function Predicted(factor: int, nodes: int): int {
    var offsets := Min(factor, nodes - 1);
    offsets * nodes - Triangle(offsets)
  }

  lemma {:induction false} PredictedStep(factor: nat, nodes: nat)
    ensures Predicted(factor, nodes + 1) == Predicted(factor, nodes) + Min(factor, nodes)
  {
    if factor < nodes {
      assert factor * (nodes + 1) == factor * nodes + factor;
    } else {
      TriangleStep(nodes);
      assert nodes * (nodes + 1) == (nodes - 1) * nodes + 2 * nodes;
    }
  }

  lemma {:induction false} KeptOfRow(count: nat, i: nat, factor: nat, nodes: nat)
    requires i < count && factor < count && nodes < count
    ensures Kept(Row(count, i, factor), nodes) ==
            if i < nodes then Min(factor, nodes - 1 - i) + Max(0, i + factor - count + 1) else 0
  {
    if factor > 0 {
      KeptOfRow(count, i, factor - 1, nodes);
      StepAround(i, factor, count);
      assert Row(count, i, factor)[..|Row(count, i, factor)| - 1] == Row(count, i, factor - 1);
    }
  }

  /** How many edges of the first `rows` nodes are kept. */
  function KeptForm(count: nat, rows: nat, factor: nat, nodes: nat): int {
    var r := Min(rows, nodes);
    Predicted(factor, nodes) - Predicted(factor, nodes - r) + Triangle(Max(0, r + factor - count))
  }

  lemma KeptFormStep(count: nat, i: nat, factor: nat, nodes: nat)
    requires i < count && 0 < factor < count
    ensures KeptForm(count, i + 1, factor, nodes) == KeptForm(count, i, factor, nodes) +
            if i < nodes then Min(factor, nodes - 1 - i) + Max(0, i + factor - count + 1) else 0
  {
    if i < nodes {
      PredictedStep(factor, nodes - 1 - i);
      TriangleStep(i + 1 + factor - count);
    }
  }

  lemma {:induction false} KeptOfRows(count: nat, rows: nat, factor: nat, nodes: nat)
    requires rows <= count && 0 < factor < count && nodes < count
    ensures Kept(Rows(count, rows, factor), nodes) == KeptForm(count, rows, factor, nodes)
  {
    if rows > 0 {
      var i := rows - 1;
      KeptOfRows(count, i, factor, nodes);
      KeptOfRow(count, i, factor, nodes);
      KeptJoin(Rows(count, i, factor), Row(count, i, factor), nodes);
      KeptFormStep(count, i, factor, nodes);
    }
  }

  /** A truncated graph keeps the predicted edges and, for each of the last nodes
      kept whose edges reach around the ring, those the formula leaves out. */
  lemma {:induction false} KeptHighEdges(count: nat, factor: nat, nodes: nat)
    requires 0 < factor < count && nodes < count
    ensures Kept(Generated(count, HighEdge, factor), nodes) ==
            Predicted(factor, nodes) + Triangle(Max(0, factor - (count - nodes)))
  {
    KeptOfRows(count, count, factor, nodes);
    assert Predicted(factor, 0) == 0;
  }

  lemma {:induction false} TrianglePositive(n: nat)
    ensures Triangle(n) >= 0 && (Triangle(n) == 0 <==> n == 0)
  {
    if n > 0 {
      TriangleStep(n);
      TrianglePositive(n - 1);
    }
  }

  /** The formula is right exactly when no kept node's edges reach around. */
  lemma {:induction false} PredictionExact(count: nat, factor: nat, nodes: nat)
    requires 0 < factor < count && nodes < count
    ensures Kept(Generated(count, HighEdge, factor), nodes) == Predicted(factor, nodes) <==> factor <= count - nodes
    ensures Kept(Generated(count, HighEdge, factor), nodes) >= Predicted(factor, nodes)
  {
    KeptHighEdges(count, factor, nodes);
    TrianglePositive(Max(0, factor - (count - nodes)));
  }

  lemma {:induction false} KeptAll(edges: seq<Edge>, nodes: nat)
    requires forall e | e in edges :: e.0 < nodes && e.1 < nodes
    ensures Kept(edges, nodes) == |edges|
  {
    if edges != [] {
      assert edges[|edges| - 1] in edges;
      KeptAll(edges[..|edges| - 1], nodes);
    }
  }

  lemma {:induction false} KeptChain(count: nat, nodes: nat)
    ensures Kept(Chain(count), nodes) == Max(0, Min(count, nodes) - 1) && |Chain(count)| == Max(0, count - 1)
  {
    if count > 1 {
      assert Chain(count)[..|Chain(count)| - 1] == Chain(count - 1);
      KeptChain(count - 1, nodes);
    }
  }

  lemma {:induction false} KeptAtMost(edges: seq<Edge>, nodes: nat)
    ensures Kept(edges, nodes) <= |edges|
  {
    if edges != [] { KeptAtMost(edges[..|edges| - 1], nodes); }
  }
}
