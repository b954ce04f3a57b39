/**
Immediate post-dominators of a data-flow graph, as codegen/OpFuse.cpp computes them: one sweep
from the last node to the first, meeting the successors of every node in the tree built so far.
Nodes are numbered in topological order, so a node's number is its topoIndex.
 */
module PostDominators {
  import opened Wrappers

  type Graph = seq<seq<nat>>
  type Parents = seq<Option<nat>>

  /** Every edge leads to a node with a greater number. */
  ghost predicate Forward(succ: Graph) {
    forall i, j :: 0 <= i < |succ| && 0 <= j < |succ[i]| ==> i < succ[i][j] < |succ|
  }

  /** Every parent has a greater number than its child. */
  ghost predicate Upward(dom: Parents) {
    forall i :: 0 <= i < |dom| && dom[i].Some? ==> i < dom[i].value < |dom|
  }

  // ---- what post-dominance is ----

  /** `p` follows edges to a node without successors. */
  ghost predicate Path(succ: Graph, p: seq<nat>) {
    && p != []
    && (forall k :: 0 <= k < |p| ==> p[k] < |succ|)
    && (forall k :: 0 <= k < |p| - 1 ==> p[k + 1] in succ[p[k]])
    && succ[p[|p| - 1]] == []
  }

  /** Every path from `i` to an end of the graph goes through `d`. */
  ghost predicate PostDominates(succ: Graph, d: nat, i: nat) {
    forall p :: Path(succ, p) && p[0] == i ==> d in p
  }

  /** `d` is the immediate post-dominator of `i`: it post-dominates `i`, and so does every other
      post-dominator of `i`, which then post-dominates `d` as well. */
  ghost predicate Immediate(succ: Graph, d: nat, i: nat) {
    && d < |succ| && d != i
    && PostDominates(succ, d, i)
    && forall q: nat :: q < |succ| && q != i && PostDominates(succ, q, i) ==> PostDominates(succ, q, d)
  }

  // ---- the same, following the edges ----

  /** The nodes that post-dominate `i`: `i` itself and what post-dominates all its successors. */
  ghost function PostDoms(succ: Graph, i: nat): set<nat>
    requires Forward(succ) && i < |succ|
    decreases |succ| - i, |succ[i]| + 1
  {
    {i} + if succ[i] == [] then {} else Meet(succ, i, |succ[i]|)
  }

  /** What post-dominates the first `j` successors of `i`. */
  ghost function Meet(succ: Graph, i: nat, j: nat): set<nat>
    requires Forward(succ) && i < |succ| && 0 < j <= |succ[i]|
    decreases |succ| - i, j
  {
    if j == 1 then PostDoms(succ, succ[i][0]) else Meet(succ, i, j - 1) * PostDoms(succ, succ[i][j - 1])
  }

  lemma {:induction false} MeetIsAll(succ: Graph, i: nat, j: nat, d: nat)
    requires Forward(succ) && i < |succ| && 0 < j <= |succ[i]|
    ensures d in Meet(succ, i, j) <==> forall k :: 0 <= k < j ==> d in PostDoms(succ, succ[i][k])
  {
    if j > 1 { MeetIsAll(succ, i, j - 1, d); }
  }

  /** A path goes on from each successor as it goes on from the node. */
  lemma PathStep(succ: Graph, i: nat, p: seq<nat>)
    requires Path(succ, p) && i < |succ| && p[0] in succ[i]
    ensures Path(succ, [i] + p)
  {
    var q := [i] + p;
    forall k | 0 <= k < |q| - 1 ensures q[k + 1] in succ[q[k]] {
      if k > 0 { assert q[k + 1] == p[k] && q[k] == p[k - 1]; }
    }
    assert q[|q| - 1] == p[|p| - 1];
  }

  lemma PathTail(succ: Graph, p: seq<nat>)
    requires Path(succ, p) && |p| > 1
    ensures Path(succ, p[1..]) && p[1] in succ[p[0]]
  {
    assert p[0 + 1] in succ[p[0]];
  }

  /** Following the edges finds exactly the nodes that all paths go through. */
  lemma {:induction false} PostDomsExact(succ: Graph, i: nat, d: nat)
    requires Forward(succ) && i < |succ|
    ensures d in PostDoms(succ, i) <==> PostDominates(succ, d, i)
    decreases |succ| - i
  {
    forall k | 0 <= k < |succ[i]|
      ensures d in PostDoms(succ, succ[i][k]) <==> PostDominates(succ, d, succ[i][k])
    {
      PostDomsExact(succ, succ[i][k], d);
    }
    if d != i {
      if succ[i] == [] {
        assert Path(succ, [i]);
      } else {
        MeetIsAll(succ, i, |succ[i]|, d);
        if d in PostDoms(succ, i) { ThroughSuccessors(succ, i, d); }
        if PostDominates(succ, d, i) { ThroughNode(succ, i, d); }
      }
    }
  }

  lemma ThroughSuccessors(succ: Graph, i: nat, d: nat)
    requires i < |succ| && succ[i] != []
    requires forall k :: 0 <= k < |succ[i]| ==> PostDominates(succ, d, succ[i][k])
    ensures PostDominates(succ, d, i)
  {
    forall p | Path(succ, p) && p[0] == i ensures d in p {
      PathTail(succ, p);
      assert p[1..][0] == p[1];
      assert d in p[1..];
    }
  }

  lemma ThroughNode(succ: Graph, i: nat, d: nat)
    requires i < |succ| && d != i && PostDominates(succ, d, i)
    ensures forall k :: 0 <= k < |succ[i]| ==> PostDominates(succ, d, succ[i][k])
  {
    forall k, p | 0 <= k < |succ[i]| && Path(succ, p) && p[0] == succ[i][k] ensures d in p {
      PathStep(succ, i, p);
      assert d in [i] + p;
    }
  }

  // ---- the tree ----

  /** `x` and its ancestors in the tree; nothing for a null node. */
  ghost function Chain(dom: Parents, x: Option<nat>): (c: set<nat>)
    requires Upward(dom) && (x.Some? ==> x.value < |dom|)
    ensures x.Some? ==> forall d :: d in c ==> x.value <= d < |dom|
    decreases if x.None? then 0 else |dom| - x.value
  {
    if x.None? then {} else {x.value} + Chain(dom, dom[x.value])
  }

  lemma {:induction false} ChainUnchanged(dom: Parents, i: nat, parent: Option<nat>, x: Option<nat>)
    requires Upward(dom) && i < |dom| && (parent.Some? ==> i < parent.value < |dom|)
    requires x.Some? ==> i < x.value < |dom|
    ensures Upward(dom[i := parent]) && Chain(dom[i := parent], x) == Chain(dom, x)
    decreases if x.None? then 0 else |dom| - x.value
  {
    if x.Some? { ChainUnchanged(dom, i, parent, dom[x.value]); }
  }

  /** The tree agrees with post-dominance from node `from` on. */
  ghost predicate TreeFor(succ: Graph, dom: Parents, from: nat) {
    && Forward(succ) && Upward(dom) && |dom| == |succ|
    && forall i :: from <= i < |succ| ==> Chain(dom, Some(i)) == PostDoms(succ, i)
  }

  /** Giving node `i` the meet of its successors as parent extends the agreement to it. */
  lemma TreeStep(succ: Graph, dom: Parents, i: nat, parent: Option<nat>)
    requires i < |succ| && TreeFor(succ, dom, i + 1)
    requires parent.Some? ==> i < parent.value < |dom|
    requires Chain(dom, parent) == if succ[i] == [] then {} else Meet(succ, i, |succ[i]|)
    ensures TreeFor(succ, dom[i := parent], i)
  {
    forall k | i <= k < |succ|
      ensures Upward(dom[i := parent]) && Chain(dom[i := parent], Some(k)) == PostDoms(succ, k)
    {
      if k > i { ChainUnchanged(dom, i, parent, Some(k)); } else { ChainUnchanged(dom, i, parent, parent); }
    }
  }

  /** The nearest common ancestor: the common ancestors are its ancestors. */
  method LCA(dom: Parents, a: Option<nat>, b: Option<nat>) returns (r: Option<nat>)
    requires Upward(dom) && (a.Some? ==> a.value < |dom|) && (b.Some? ==> b.value < |dom|)
    ensures r.Some? ==> r.value < |dom|
    ensures Chain(dom, r) == Chain(dom, a) * Chain(dom, b)
  {
    var x: Option<nat>, y: Option<nat> := a, b;
    while x != y
      invariant (x.Some? ==> x.value < |dom|) && (y.Some? ==> y.value < |dom|)
      invariant Chain(dom, x) * Chain(dom, y) == Chain(dom, a) * Chain(dom, b)
      decreases (if x.None? then 0 else |dom| - x.value) + if y.None? then 0 else |dom| - y.value
    {
      if x.None? || y.None? { return None; }
      if x.value < y.value {
        x := dom[x.value];
      } else {
        y := dom[y.value];
      }
    }
    r := x;
  }

  /** The meet of the successors of node `i` in the tree built for the later nodes. */
  method MeetOfSuccessors(succ: Graph, dom: Parents, i: nat) returns (parent: Option<nat>)
    requires i < |succ| && TreeFor(succ, dom, i + 1) && succ[i] != []
    ensures parent.Some? ==> i < parent.value < |dom|
    ensures Chain(dom, parent) == Meet(succ, i, |succ[i]|)
  {
    parent := Some(succ[i][0]);
    for j := 1 to |succ[i]|
      invariant parent.Some? ==> parent.value < |dom|
      invariant Chain(dom, parent) == Meet(succ, i, j)
    {
      parent := LCA(dom, parent, Some(succ[i][j]));
    }
    if parent.Some? {
      MeetIsAll(succ, i, |succ[i]|, parent.value);
      assert parent.value in Chain(dom, Some(succ[i][0]));
    }
  }

  /** In a complete tree the parent of every node is its immediate post-dominator, and the nodes
      without a parent are those that nothing else post-dominates. */
  lemma ParentsAreImmediate(succ: Graph, dom: Parents, i: nat)
    requires TreeFor(succ, dom, 0) && i < |succ|
    ensures dom[i].Some? ==> Immediate(succ, dom[i].value, i)
    ensures dom[i].None? <==> forall d: nat :: d < |succ| && d != i ==> !PostDominates(succ, d, i)
  {
    forall d: nat ensures d in Chain(dom, Some(i)) <==> PostDominates(succ, d, i) {
      PostDomsExact(succ, i, d);
    }
    assert Chain(dom, Some(i)) == {i} + Chain(dom, dom[i]);
    match dom[i]
    case None =>
      assert Chain(dom, None) == {};
    case Some(p) =>
      forall q: nat ensures q in Chain(dom, Some(p)) <==> PostDominates(succ, q, p) { PostDomsExact(succ, p, q); }
      assert p in Chain(dom, dom[i]);
  }
}
