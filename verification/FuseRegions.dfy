/**
The regions that codegen/OpFuse.cpp fuses: grown from a root down the post-dominator tree, over
the nodes from which every path to the root stays on operators that may be fused. `legal[i]` is
the answer of isLegal for node `i`.
 */
module FuseRegions {
  import opened Wrappers
  import opened PostDominators

  /** A node list without repetition. */
  ghost predicate Distinct(s: seq<nat>) {
    forall i, j :: 0 <= i < j < |s| ==> s[i] != s[j]
  }

  /** Everything that can be reached from `x` without going through `t` is legal. */
  ghost predicate AllLegal(succ: Graph, legal: seq<bool>, x: nat, t: nat)
    requires Forward(succ) && |legal| == |succ| && x < |succ|
    decreases |succ| - x
  {
    legal[x] && forall k :: 0 <= k < |succ[x]| && succ[x][k] != t ==> AllLegal(succ, legal, succ[x][k], t)
  }

  // ---- the same by paths ----

  /** The nodes of the path are legal until `t` comes up after the first of them. */
  ghost predicate LegalUntil(legal: seq<bool>, p: seq<nat>, t: nat) {
    forall k :: 0 <= k < |p| && t !in p[1..k + 1] ==> p[k] < |legal| && legal[p[k]]
  }

  /** All paths from `x` are legal until they come to `t`. */
  ghost predicate LegalPaths(succ: Graph, legal: seq<bool>, x: nat, t: nat) {
    forall p :: Path(succ, p) && p[0] == x ==> LegalUntil(legal, p, t)
  }

  lemma {:induction false} PathFrom(succ: Graph, x: nat) returns (p: seq<nat>)
    requires Forward(succ) && x < |succ|
    ensures Path(succ, p) && p[0] == x
    decreases |succ| - x
  {
    if succ[x] == [] {
      p := [x];
    } else {
      var q := PathFrom(succ, succ[x][0]);
      PathStep(succ, x, q);
      p := [x] + q;
    }
  }

  lemma {:induction false} AllLegalExact(succ: Graph, legal: seq<bool>, x: nat, t: nat)
    requires Forward(succ) && |legal| == |succ| && x < |succ|
    ensures AllLegal(succ, legal, x, t) <==> LegalPaths(succ, legal, x, t)
    decreases |succ| - x
  {
    forall k | 0 <= k < |succ[x]|
      ensures AllLegal(succ, legal, succ[x][k], t) <==> LegalPaths(succ, legal, succ[x][k], t)
    {
      AllLegalExact(succ, legal, succ[x][k], t);
    }
    if AllLegal(succ, legal, x, t) {
      forall p | Path(succ, p) && p[0] == x ensures LegalUntil(legal, p, t) {
        if |p| > 1 { LongerLegal(succ, legal, p, t); }
      }
    }
    if LegalPaths(succ, legal, x, t) {
      var p := PathFrom(succ, x);
      assert LegalUntil(legal, p, t) && t !in p[1..0 + 1];
      forall k | 0 <= k < |succ[x]| && succ[x][k] != t ensures LegalPaths(succ, legal, succ[x][k], t) {
        ShorterLegal(succ, legal, x, succ[x][k], t);
      }
    }
  }

  lemma LongerLegal(succ: Graph, legal: seq<bool>, p: seq<nat>, t: nat)
    requires Path(succ, p) && |p| > 1 && p[0] < |legal| && legal[p[0]]
    requires p[1] != t ==> LegalPaths(succ, legal, p[1], t)
    ensures LegalUntil(legal, p, t)
  {
    PathTail(succ, p);
    hide Path;
    var q := p[1..];
    forall k | 0 <= k < |p| && t !in p[1..k + 1] ensures p[k] < |legal| && legal[p[k]] {
      if k > 0 {
        assert p[1] in p[1..k + 1];
        assert p[1..k + 1] == [p[1]] + q[1..k];
        LegalAt(legal, q, t, k - 1);
      }
    }
  }

  lemma LegalAt(legal: seq<bool>, p: seq<nat>, t: nat, k: nat)
    requires LegalUntil(legal, p, t) && k < |p| && t !in p[1..k + 1]
    ensures p[k] < |legal| && legal[p[k]]
  {
  }

  lemma LegalAfter(legal: seq<bool>, p: seq<nat>, t: nat)
    requires LegalUntil(legal, p, t) && |p| > 1 && p[1] != t
    ensures LegalUntil(legal, p[1..], t)
  {
    var q := p[1..];
    forall k | 0 <= k < |q| && t !in q[1..k + 1] ensures q[k] < |legal| && legal[q[k]] {
      assert p[1..k + 2] == [p[1]] + q[1..k + 1];
      assert p[k + 1] == q[k];
    }
  }

  lemma ShorterLegal(succ: Graph, legal: seq<bool>, x: nat, y: nat, t: nat)
    requires x < |succ| && y in succ[x] && y != t && LegalPaths(succ, legal, x, t)
    ensures LegalPaths(succ, legal, y, t)
  {
    forall q | Path(succ, q) && q[0] == y ensures LegalUntil(legal, q, t) {
      PathStep(succ, x, q);
      var p := [x] + q;
      assert LegalUntil(legal, p, t);
      LegalAfter(legal, p, t);
      assert p[1..] == q;
    }
  }

  /** The members of the region of `root`: the nodes that it post-dominates and from which every
      path to it is legal. */
  ghost predicate InRegion(succ: Graph, dom: Parents, legal: seq<bool>, root: nat, m: nat)
    requires TreeFor(succ, dom, 0) && |legal| == |succ|
  {
    m < |succ| && (m == root || (root in Chain(dom, dom[m]) && AllLegal(succ, legal, m, root)))
  }

  /** An ancestor of `x` stays an ancestor of its successors, unless it is `x`. */
  lemma ChainOfSuccessor(succ: Graph, dom: Parents, x: nat, k: nat, d: nat)
    requires TreeFor(succ, dom, 0) && x < |succ| && 0 <= k < |succ[x]|
    requires d in Chain(dom, Some(x)) && d != x
    ensures d in Chain(dom, Some(succ[x][k]))
  {
    MeetIsAll(succ, x, |succ[x]|, d);
  }

  /** Every node between `x` and `root` in the tree is as legal as `x`. */
  lemma {:induction false} AncestorLegal(succ: Graph, dom: Parents, legal: seq<bool>, root: nat, x: nat, y: nat)
    requires TreeFor(succ, dom, 0) && |legal| == |succ| && x < |succ| && y < |succ|
    requires AllLegal(succ, legal, x, root) && y in Chain(dom, Some(x)) && root in Chain(dom, dom[y])
    ensures AllLegal(succ, legal, y, root)
    decreases |succ| - x
  {
    if y != x {
      assert y in PostDoms(succ, x) && succ[x] != [];
      ChainOfSuccessor(succ, dom, x, 0, y);
      AncestorLegal(succ, dom, legal, root, succ[x][0], y);
    }
  }

  /** Only the root's output leaves a region: every successor of another member is a member. */
  lemma RegionClosed(succ: Graph, dom: Parents, legal: seq<bool>, root: nat, m: nat, k: nat)
    requires TreeFor(succ, dom, 0) && |legal| == |succ|
    requires InRegion(succ, dom, legal, root, m) && m != root && 0 <= k < |succ[m]|
    ensures InRegion(succ, dom, legal, root, succ[m][k])
  {
    var x := succ[m][k];
    assert Chain(dom, Some(m)) == {m} + Chain(dom, dom[m]);
    ChainOfSuccessor(succ, dom, m, k, root);
    assert Chain(dom, Some(x)) == {x} + Chain(dom, dom[x]);
  }

  /** The parent of a member other than the root is a member. */
  lemma ParentInRegion(succ: Graph, dom: Parents, legal: seq<bool>, root: nat, m: nat)
    requires TreeFor(succ, dom, 0) && |legal| == |succ|
    requires InRegion(succ, dom, legal, root, m) && m != root
    ensures dom[m].Some? && InRegion(succ, dom, legal, root, dom[m].value)
  {
    var p := dom[m].value;
    assert Chain(dom, Some(p)) == {p} + Chain(dom, dom[p]);
    if p != root {
      assert Chain(dom, Some(m)) == {m} + Chain(dom, dom[m]);
      AncestorLegal(succ, dom, legal, root, m, p);
    }
  }

  /** A child of a member is a member just when everything between it and the root is legal. */
  lemma ChildInRegion(succ: Graph, dom: Parents, legal: seq<bool>, root: nat, p: nat, c: nat)
    requires TreeFor(succ, dom, 0) && |legal| == |succ|
    requires InRegion(succ, dom, legal, root, p) && c < |succ| && dom[c] == Some(p)
    ensures root in Chain(dom, dom[c]) && c != root
    ensures InRegion(succ, dom, legal, root, c) <==> AllLegal(succ, legal, c, root)
  {
    assert Chain(dom, Some(p)) == {p} + Chain(dom, dom[p]);
  }

  /** What makes a member, by paths alone: the root is on every path from it, and until there all are legal. */
  lemma RegionByPaths(succ: Graph, dom: Parents, legal: seq<bool>, root: nat, m: nat)
    requires TreeFor(succ, dom, 0) && |legal| == |succ| && root < |succ|
    ensures InRegion(succ, dom, legal, root, m)
            <==> m == root || (m < |succ| && PostDominates(succ, root, m) && LegalPaths(succ, legal, m, root))
  {
    if m < |succ| && m != root {
      assert Chain(dom, Some(m)) == {m} + Chain(dom, dom[m]);
      PostDomsExact(succ, m, root);
      AllLegalExact(succ, legal, m, root);
    }
  }

  // ---- the path check ----

  /** The number of nodes visited from `x` when nothing is remembered: one for every path. */
  ghost function Visits(succ: Graph, t: nat, x: nat): nat
    requires Forward(succ) && x < |succ|
    decreases |succ| - x, |succ[x]| + 1
  {
    1 + VisitsTo(succ, t, x, |succ[x]|)
  }

  ghost function VisitsTo(succ: Graph, t: nat, x: nat, j: nat): nat
    requires Forward(succ) && x < |succ| && j <= |succ[x]|
    decreases |succ| - x, j
  {
    if j == 0 then 0
    else VisitsTo(succ, t, x, j - 1) + if succ[x][j - 1] == t then 0 else Visits(succ, t, succ[x][j - 1])
  }

  ghost predicate Nodes(succ: Graph, q: seq<nat>) {
    forall k :: 0 <= k < |q| ==> q[k] < |succ|
  }

  ghost function QueueVisits(succ: Graph, t: nat, q: seq<nat>): nat
    requires Forward(succ) && Nodes(succ, q)
  {
    if q == [] then 0 else QueueVisits(succ, t, q[..|q| - 1]) + Visits(succ, t, q[|q| - 1])
  }

  lemma {:induction false} QueueVisitsFirst(succ: Graph, t: nat, q: seq<nat>)
    requires Forward(succ) && Nodes(succ, q) && q != []
    ensures QueueVisits(succ, t, q) == Visits(succ, t, q[0]) + QueueVisits(succ, t, q[1..])
  {
    if |q| > 1 {
      QueueVisitsFirst(succ, t, q[..|q| - 1]);
      assert q[..|q| - 1][1..] == q[1..][..|q| - 2];
    } else {
      assert q[..0] == [] && q[1..] == [];
    }
  }

  ghost predicate QueueLegal(succ: Graph, legal: seq<bool>, t: nat, q: seq<nat>)
    requires Forward(succ) && |legal| == |succ| && Nodes(succ, q)
  {
    forall k :: 0 <= k < |q| ==> AllLegal(succ, legal, q[k], t)
  }

  /** Pushes the successors of `node` other than `t`. */
  method PushSuccessors(succ: Graph, legal: seq<bool>, t: nat, node: nat, q: seq<nat>) returns (r: seq<nat>)
    requires Forward(succ) && |legal| == |succ| && Nodes(succ, q) && node < |succ| && legal[node]
    ensures Nodes(succ, r)
    ensures QueueVisits(succ, t, r) + 1 == QueueVisits(succ, t, q) + Visits(succ, t, node)
    ensures QueueLegal(succ, legal, t, r) <==> QueueLegal(succ, legal, t, q) && AllLegal(succ, legal, node, t)
  {
    hide AllLegal, QueueLegal, QueueVisits, Visits, VisitsTo;
    r := q;
    NodeIs(succ, legal, t, node);
    for j := 0 to |succ[node]|
      invariant Nodes(succ, r)
      invariant QueueVisits(succ, t, r) == QueueVisits(succ, t, q) + VisitsTo(succ, t, node, j)
      invariant QueueLegal(succ, legal, t, r)
        <==> (QueueLegal(succ, legal, t, q)
              && forall k :: 0 <= k < j && succ[node][k] != t ==> AllLegal(succ, legal, succ[node][k], t))
    {
      NextVisits(succ, t, node, j);
      if succ[node][j] != t {
        QueueMore(succ, legal, t, r, succ[node][j]);
        r := r + [succ[node][j]];
      }
    }
  }

  lemma NodeIs(succ: Graph, legal: seq<bool>, t: nat, x: nat)
    requires Forward(succ) && |legal| == |succ| && x < |succ|
    ensures Visits(succ, t, x) == 1 + VisitsTo(succ, t, x, |succ[x]|) && VisitsTo(succ, t, x, 0) == 0
    ensures AllLegal(succ, legal, x, t)
            <==> legal[x] && forall k :: 0 <= k < |succ[x]| && succ[x][k] != t ==> AllLegal(succ, legal, succ[x][k], t)
  {
  }

  lemma NextVisits(succ: Graph, t: nat, x: nat, j: nat)
    requires Forward(succ) && x < |succ| && j < |succ[x]|
    ensures VisitsTo(succ, t, x, j + 1)
            == VisitsTo(succ, t, x, j) + if succ[x][j] == t then 0 else Visits(succ, t, succ[x][j])
  {
  }

  lemma QueueMore(succ: Graph, legal: seq<bool>, t: nat, q: seq<nat>, x: nat)
    requires Forward(succ) && |legal| == |succ| && Nodes(succ, q) && x < |succ|
    ensures QueueVisits(succ, t, q + [x]) == QueueVisits(succ, t, q) + Visits(succ, t, x)
    ensures QueueLegal(succ, legal, t, q + [x]) <==> QueueLegal(succ, legal, t, q) && AllLegal(succ, legal, x, t)
  {
    hide AllLegal, Visits;
    var r := q + [x];
    assert r[..|r| - 1] == q && r[|q|] == x;
    assert forall k :: 0 <= k < |q| ==> r[k] == q[k];
  }

  /** Whether every node on the paths from `s` to `t` is legal. */
  method AllPathLegal(succ: Graph, legal: seq<bool>, s: nat, t: nat) returns (ok: bool)
    requires Forward(succ) && |legal| == |succ| && s < |succ|
    ensures ok <==> AllLegal(succ, legal, s, t)
    ensures ok <==> LegalPaths(succ, legal, s, t)
  {
    AllLegalExact(succ, legal, s, t);
    var q := [s];
    while q != []
      invariant Nodes(succ, q)
      invariant AllLegal(succ, legal, s, t) <==> QueueLegal(succ, legal, t, q)
      decreases QueueVisits(succ, t, q)
    {
      QueueVisitsFirst(succ, t, q);
      var node := q[0];
      ghost var before := q;
      q := q[1..];
      if !legal[node] { return false; }
      assert QueueLegal(succ, legal, t, before) <==>
        AllLegal(succ, legal, node, t) && QueueLegal(succ, legal, t, q) by {
        assert forall k :: 0 <= k < |q| ==> q[k] == before[k + 1];
        assert forall k :: 1 <= k < |before| ==> before[k] == q[k - 1];
      }
      q := PushSuccessors(succ, legal, t, node, q);
    }
    ok := true;
  }

  // ---- growing one region ----

  /** `domSucc` lists the children of every node, each once. */
  ghost predicate ChildrenOf(dom: Parents, domSucc: Graph) {
    && |domSucc| == |dom|
    && forall p :: 0 <= p < |dom| ==>
         Distinct(domSucc[p]) && forall c: nat :: c in domSucc[p] <==> c < |dom| && dom[c] == Some(p)
  }

  /** All the graph that the pass has built. */
  ghost predicate Built(succ: Graph, dom: Parents, domSucc: Graph, legal: seq<bool>) {
    TreeFor(succ, dom, 0) && ChildrenOf(dom, domSucc) && |legal| == |succ|
  }

  /** `set` lists the region of its last element. */
  ghost predicate IsRegion(succ: Graph, dom: Parents, legal: seq<bool>, members: seq<nat>)
    requires TreeFor(succ, dom, 0) && |legal| == |succ|
  {
    && Distinct(members) && members != []
    && forall m :: m in members <==> InRegion(succ, dom, legal, members[|members| - 1], m)
  }

  ghost predicate Apart(s: seq<nat>, t: seq<nat>) {
    forall m :: m in s ==> m !in t
  }

  lemma DistinctAppend(s: seq<nat>, t: seq<nat>)
    requires Distinct(s) && Distinct(t) && Apart(s, t)
    ensures Distinct(s + t)
  {
    forall i, j | 0 <= i < j < |s + t| ensures (s + t)[i] != (s + t)[j] {
      if i < |s| <= j { assert s[i] in s && t[j - |s|] in t; }
    }
  }

  /** The children of the nodes that are done are where they belong: members among the done nodes
      or in the queue, the others among the edges. */
  ghost predicate Growing(succ: Graph, dom: Parents, legal: seq<bool>, root: nat, done: seq<nat>, q: seq<nat>,
      edges: seq<nat>)
    requires TreeFor(succ, dom, 0) && |legal| == |succ|
  {
    && Distinct(done) && Distinct(q) && Apart(done, q) && Distinct(edges)
    && (forall m :: m in done || m in q ==> InRegion(succ, dom, legal, root, m))
    && (forall m :: m in done || m in q ==> m == root || (dom[m].Some? && dom[m].value in done))
    && (forall c :: c in edges ==>
          c < |succ| && dom[c].Some? && dom[c].value in done && !InRegion(succ, dom, legal, root, c))
    && (forall c: nat :: c < |succ| && dom[c].Some? && dom[c].value in done ==> c in done || c in q || c in edges)
  }

  lemma {:induction false} ClosedIsRegion(succ: Graph, dom: Parents, legal: seq<bool>, root: nat, done: seq<nat>,
      edges: seq<nat>, m: nat)
    requires TreeFor(succ, dom, 0) && |legal| == |succ|
    requires Growing(succ, dom, legal, root, done, [], edges) && root in done
    requires InRegion(succ, dom, legal, root, m)
    ensures m in done
    decreases |succ| - m
  {
    if m != root {
      ParentInRegion(succ, dom, legal, root, m);
      ClosedIsRegion(succ, dom, legal, root, done, edges, dom[m].value);
    }
  }

  /** `kept` and `dropped` part the children of `node` into members and others. */
  ghost predicate Parted(succ: Graph, dom: Parents, legal: seq<bool>, root: nat, node: nat, kept: seq<nat>,
      dropped: seq<nat>)
    requires TreeFor(succ, dom, 0) && |legal| == |succ|
  {
    && Distinct(kept) && Distinct(dropped)
    && (forall c: nat :: c in kept <==> c < |succ| && dom[c] == Some(node) && InRegion(succ, dom, legal, root, c))
    && (forall c: nat :: c in dropped <==> c < |succ| && dom[c] == Some(node) && !InRegion(succ, dom, legal, root, c))
  }

  method PartChildren(succ: Graph, dom: Parents, domSucc: Graph, legal: seq<bool>, root: nat, node: nat)
    returns (kept: seq<nat>, dropped: seq<nat>)
    requires Built(succ, dom, domSucc, legal) && root < |succ| && InRegion(succ, dom, legal, root, node)
    ensures Parted(succ, dom, legal, root, node, kept, dropped)
  {
    kept, dropped := [], [];
    var children := domSucc[node];
    for j := 0 to |children|
      invariant Distinct(kept) && Distinct(dropped)
      invariant forall c: nat :: c in kept <==> c in children[..j] && InRegion(succ, dom, legal, root, c)
      invariant forall c: nat :: c in dropped <==> c in children[..j] && !InRegion(succ, dom, legal, root, c)
    {
      var child := children[j];
      assert child in children && child !in children[..j];
      ChildInRegion(succ, dom, legal, root, node, child);
      var pathLegal := false;
      if legal[child] { pathLegal := AllPathLegal(succ, legal, child, root); }
      if legal[child] && pathLegal {
        kept := kept + [child];
      } else {
        dropped := dropped + [child];
      }
      assert children[..j + 1] == children[..j] + [child];
    }
    assert children[..|children|] == children;
  }

  lemma InAppend(s: seq<nat>, t: seq<nat>)
    ensures forall m :: m in s + t <==> m in s || m in t
  {
  }

  /** Taking the next node out of the queue keeps everything where it belongs. */
  lemma GrowStep(succ: Graph, dom: Parents, legal: seq<bool>, root: nat, done: seq<nat>, q: seq<nat>, edges: seq<nat>,
                 kept: seq<nat>, dropped: seq<nat>)
    requires TreeFor(succ, dom, 0) && |legal| == |succ| && root < |succ|
    requires Growing(succ, dom, legal, root, done, q, edges) && q != []
    requires Parted(succ, dom, legal, root, q[0], kept, dropped)
    ensures Growing(succ, dom, legal, root, [q[0]] + done, q[1..] + kept, edges + dropped)
  {
    hide TreeFor, InRegion;
    var node, rest := q[0], q[1..];
    assert Distinct(rest);
    assert node !in rest;
    assert q == [node] + rest;
    InAppend([node], rest);
    assert node in q && node !in done;
    forall c | c in kept ensures c !in done && c !in q {
      ChildInRegion(succ, dom, legal, root, node, c);
    }
    DistinctAppend(rest, kept);
    DistinctAppend([node], done);
    DistinctAppend(edges, dropped);
    InAppend(rest, kept);
    InAppend([node], done);
    InAppend(edges, dropped);
    hide Distinct;
  }

  lemma {:induction false} DistinctLength(s: seq<nat>, n: nat)
    requires Distinct(s) && forall k :: 0 <= k < |s| ==> s[k] < n
    ensures |s| <= n
  {
    if s != [] {
      assert s[0] < n;
      if i :| 0 <= i < |s| && s[i] == n - 1 {
        var rest := s[..i] + s[i + 1..];
        DistinctLength(rest, n - 1);
      } else {
        DistinctLength(s, n - 1);
      }
    }
  }

  lemma GrowingLength(succ: Graph, dom: Parents, legal: seq<bool>, root: nat, done: seq<nat>, q: seq<nat>,
      edges: seq<nat>)
    requires TreeFor(succ, dom, 0) && |legal| == |succ|
    requires Growing(succ, dom, legal, root, done, q, edges)
    ensures |done| + |q| <= |succ|
  {
    DistinctAppend(done, q);
    forall k | 0 <= k < |done + q| ensures (done + q)[k] < |succ| {
      assert (done + q)[k] in done || (done + q)[k] in q;
    }
    DistinctLength(done + q, |succ|);
  }

  lemma GrowStart(succ: Graph, dom: Parents, legal: seq<bool>, root: nat)
    requires TreeFor(succ, dom, 0) && |legal| == |succ| && root < |succ|
    ensures Growing(succ, dom, legal, root, [], [root], [])
  {
  }

  /** The region of `root`, root last, and the children of its members that stay outside. */
  method FuseNode(succ: Graph, dom: Parents, domSucc: Graph, legal: seq<bool>, root: nat)
    returns (fuseSet: seq<nat>, edges: seq<nat>)
    requires Built(succ, dom, domSucc, legal) && root < |succ|
    ensures IsRegion(succ, dom, legal, fuseSet) && fuseSet[|fuseSet| - 1] == root
    ensures forall m: nat :: m in fuseSet <==>
              m == root || (m < |succ| && PostDominates(succ, root, m) && LegalPaths(succ, legal, m, root))
    ensures Distinct(edges)
    ensures forall c: nat :: c in edges <==> c < |succ| && dom[c].Some? && dom[c].value in fuseSet && c !in fuseSet
  {
    hide IsRegion, TreeFor, InRegion;
    fuseSet, edges := [], [];
    var q := [root];
    GrowStart(succ, dom, legal, root);
    while q != []
      invariant Growing(succ, dom, legal, root, fuseSet, q, edges)
      invariant if fuseSet == [] then q == [root] else fuseSet[|fuseSet| - 1] == root
      decreases |succ| - |fuseSet|
    {
      hide Distinct, Parted;
      GrowingLength(succ, dom, legal, root, fuseSet, q, edges);
      var node := q[0];
      var kept, dropped := PartChildren(succ, dom, domSucc, legal, root, node);
      GrowStep(succ, dom, legal, root, fuseSet, q, edges, kept, dropped);
      fuseSet, q, edges := [node] + fuseSet, q[1..] + kept, edges + dropped;
    }
    GrownIsRegion(succ, dom, legal, root, fuseSet, edges);
    MembersByPaths(succ, dom, legal, fuseSet);
  }

  lemma MembersByPaths(succ: Graph, dom: Parents, legal: seq<bool>, members: seq<nat>)
    requires TreeFor(succ, dom, 0) && |legal| == |succ| && IsRegion(succ, dom, legal, members)
    ensures var root := members[|members| - 1];
            forall m: nat :: m in members <==>
              m == root || (m < |succ| && PostDominates(succ, root, m) && LegalPaths(succ, legal, m, root))
  {
    hide TreeFor, Distinct, InRegion;
    var root := members[|members| - 1];
    assert root in members;
    InRange(succ, dom, legal, root, root);
    forall m: nat ensures m in members <==>
      m == root || (m < |succ| && PostDominates(succ, root, m) && LegalPaths(succ, legal, m, root)) {
      RegionByPaths(succ, dom, legal, root, m);
    }
  }

  lemma InRange(succ: Graph, dom: Parents, legal: seq<bool>, root: nat, m: nat)
    requires TreeFor(succ, dom, 0) && |legal| == |succ| && InRegion(succ, dom, legal, root, m)
    ensures m < |succ|
  {
  }

  lemma GrownIsRegion(succ: Graph, dom: Parents, legal: seq<bool>, root: nat, done: seq<nat>, edges: seq<nat>)
    requires TreeFor(succ, dom, 0) && |legal| == |succ|
    requires Growing(succ, dom, legal, root, done, [], edges) && done != [] && done[|done| - 1] == root
    ensures IsRegion(succ, dom, legal, done) && Distinct(edges)
    ensures forall c: nat :: c in edges <==> c < |succ| && dom[c].Some? && dom[c].value in done && c !in done
  {
    forall m | InRegion(succ, dom, legal, root, m) ensures m in done {
      ClosedIsRegion(succ, dom, legal, root, done, edges, m);
    }
  }

  // ---- all the regions ----

  /** The root of the region that the greedy choice puts `c` into: that of its parent if everything
      in between is legal, and a region of its own otherwise. */
  ghost function Unit(succ: Graph, dom: Parents, legal: seq<bool>, c: nat): (r: nat)
    requires TreeFor(succ, dom, 0) && |legal| == |succ| && c < |succ|
    ensures c <= r < |succ|
    decreases |succ| - c
  {
    if dom[c].None? then c
    else
      var r := Unit(succ, dom, legal, dom[c].value);
      if legal[r] && AllLegal(succ, legal, c, r) then r else c
  }

  lemma {:induction false} UnitOfRoot(succ: Graph, dom: Parents, legal: seq<bool>, c: nat)
    requires TreeFor(succ, dom, 0) && |legal| == |succ| && c < |succ|
    ensures var r := Unit(succ, dom, legal, c);
            Unit(succ, dom, legal, r) == r
            && (r != c ==> legal[r] && dom[c].Some? && Unit(succ, dom, legal, dom[c].value) == r)
    decreases |succ| - c
  {
    if dom[c].Some? { UnitOfRoot(succ, dom, legal, dom[c].value); }
  }

  // ---- the greedy choice by paths ----

  /** Node `m` may go into a kernel at `r`: `r` is legal and on every path from `m`, and all that comes before it. */
  ghost predicate Joins(succ: Graph, legal: seq<bool>, m: nat, r: nat) {
    && r < |succ| && r < |legal| && r != m && legal[r]
    && PostDominates(succ, r, m) && LegalPaths(succ, legal, m, r)
  }

  /** `r` is as far down as `m` can go. */
  ghost predicate FarthestRoot(succ: Graph, legal: seq<bool>, m: nat, r: nat) {
    (r == m || Joins(succ, legal, m, r)) && forall q: nat :: Joins(succ, legal, m, q) ==> q <= r
  }

  lemma JoinsIs(succ: Graph, dom: Parents, legal: seq<bool>, m: nat, r: nat)
    requires TreeFor(succ, dom, 0) && |legal| == |succ| && m < |succ|
    ensures Joins(succ, legal, m, r)
            <==> r < |succ| && legal[r] && r in Chain(dom, dom[m]) && AllLegal(succ, legal, m, r)
  {
    if r < |succ| {
      assert Chain(dom, Some(m)) == {m} + Chain(dom, dom[m]);
      PostDomsExact(succ, m, r);
      AllLegalExact(succ, legal, m, r);
    }
  }

  /** Legal up to `q`, and legal from there on. */
  lemma {:induction false} LegalThrough(succ: Graph, dom: Parents, legal: seq<bool>, c: nat, q: nat, r: nat)
    requires TreeFor(succ, dom, 0) && |legal| == |succ| && c < |succ| && q < |succ|
    requires q in Chain(dom, Some(c)) && (c != q ==> AllLegal(succ, legal, c, q)) && AllLegal(succ, legal, q, r)
    ensures AllLegal(succ, legal, c, r)
    decreases |succ| - c
  {
    if c != q {
      forall k | 0 <= k < |succ[c]| && succ[c][k] != r ensures AllLegal(succ, legal, succ[c][k], r) {
        ChainOfSuccessor(succ, dom, c, k, q);
        LegalThrough(succ, dom, legal, succ[c][k], q, r);
      }
    }
  }

  /** Of two ancestors one is the other or above it. */
  lemma {:induction false} ChainLinear(dom: Parents, x: nat, a: nat, b: nat)
    requires Upward(dom) && x < |dom| && a in Chain(dom, Some(x)) && b in Chain(dom, Some(x)) && a < b
    ensures b in Chain(dom, dom[a])
    decreases |dom| - x
  {
    if a != x { ChainLinear(dom, dom[x].value, a, b); }
  }

  lemma {:induction false} UnitJoins(succ: Graph, dom: Parents, legal: seq<bool>, c: nat)
    requires TreeFor(succ, dom, 0) && |legal| == |succ| && c < |succ|
    ensures var r := Unit(succ, dom, legal, c);
            r in Chain(dom, Some(c)) && (r != c ==> Joins(succ, legal, c, r))
    decreases |succ| - c
  {
    assert Chain(dom, Some(c)) == {c} + Chain(dom, dom[c]);
    if dom[c].Some? { UnitJoins(succ, dom, legal, dom[c].value); }
    var r := Unit(succ, dom, legal, c);
    if r != c { JoinsIs(succ, dom, legal, c, r); }
  }

  lemma {:induction false} UnitFarthest(succ: Graph, dom: Parents, legal: seq<bool>, c: nat, q: nat)
    requires TreeFor(succ, dom, 0) && |legal| == |succ| && c < |succ| && Joins(succ, legal, c, q)
    ensures q <= Unit(succ, dom, legal, c)
    decreases |succ| - c
  {
    JoinsIs(succ, dom, legal, c, q);
    var p := dom[c].value;
    var r := Unit(succ, dom, legal, p);
    UnitJoins(succ, dom, legal, p);
    assert Chain(dom, Some(c)) == {c} + Chain(dom, Some(p));
    if q != p {
      assert Chain(dom, Some(p)) == {p} + Chain(dom, dom[p]);
      AncestorLegal(succ, dom, legal, q, c, p);
      JoinsIs(succ, dom, legal, p, q);
      UnitFarthest(succ, dom, legal, p, q);
    }
    if r > q {
      JoinsIs(succ, dom, legal, p, r);
      ChainLinear(dom, p, q, r);
      AncestorLegal(succ, dom, legal, r, p, q);
      LegalThrough(succ, dom, legal, c, q, r);
    }
  }

  /** The greedy choice sends every node as far as it can go. */
  lemma UnitIsFarthest(succ: Graph, dom: Parents, legal: seq<bool>, c: nat, r: nat)
    requires TreeFor(succ, dom, 0) && |legal| == |succ| && c < |succ|
    ensures FarthestRoot(succ, legal, c, r) <==> Unit(succ, dom, legal, c) == r
  {
    var u := Unit(succ, dom, legal, c);
    UnitJoins(succ, dom, legal, c);
    forall q: nat | Joins(succ, legal, c, q) ensures c < q <= u {
      UnitFarthest(succ, dom, legal, c, q);
      JoinsIs(succ, dom, legal, c, q);
    }
  }

  /** `sets` are the classes of nodes with the same farthest root, those of one node left out. */
  ghost predicate FusesAll(succ: Graph, legal: seq<bool>, sets: seq<seq<nat>>) {
    && (forall a, m: nat :: 0 <= a < |sets| ==>
          (m in sets[a] <==> m < |succ| && FarthestRoot(succ, legal, m, Root(sets[a]))))
    && (forall a :: 0 <= a < |sets| ==> Distinct(sets[a]) && |sets[a]| > 1)
    && (forall a, b :: 0 <= a < b < |sets| ==> Root(sets[a]) != Root(sets[b]))
    && (forall m: nat, r: nat :: m < |succ| && m != r && FarthestRoot(succ, legal, m, r) ==>
          exists a :: 0 <= a < |sets| && Root(sets[a]) == r)
  }

  /** A chain of two legal nodes before one that is not: they are fused, and that one ends no path too early. */
  lemma ChainFused(sets: seq<seq<nat>>)
    requires FusesAll([[1], [2], []], [true, true, false], sets)
    ensures exists a :: 0 <= a < |sets| && forall m :: m in sets[a] <==> m == 0 || m == 1
  {
    var succ, legal: seq<bool> := [[1], [2], []], [true, true, false];
    forall p | Path(succ, p) && p[0] == 1 ensures p == [1, 2] { ChainEnd(p); }
    forall p | Path(succ, p) && p[0] == 0 ensures p == [0, 1, 2] {
      PathTail(succ, p);
      ChainEnd(p[1..]);
      assert p == [p[0]] + p[1..];
    }
    assert Path(succ, [0, 1, 2]) && Path(succ, [1, 2]) && Path(succ, [2]);
    assert 1 in [0, 1, 2][1..2];
    assert FarthestRoot(succ, legal, 0, 1) by {
      assert LegalUntil(legal, [0, 1, 2], 1);
    }
    assert FarthestRoot(succ, legal, 1, 1);
    assert !FarthestRoot(succ, legal, 2, 1);
  }

  lemma ChainEnd(p: seq<nat>)
    requires Path([[1], [2], []], p) && p[0] == 1
    ensures p == [1, 2]
  {
    PathTail([[1], [2], []], p);
    if |p| > 2 { PathTail([[1], [2], []], p[1..]); }
  }

  lemma FoundAreAll(succ: Graph, dom: Parents, legal: seq<bool>, sets: seq<seq<nat>>)
    requires TreeFor(succ, dom, 0) && |legal| == |succ| && AreUnits(succ, dom, legal, sets)
    requires AllFound(succ, dom, legal, sets, NodesBelow(|succ|))
    ensures FusesAll(succ, legal, sets)
  {
    hide TreeFor, Unit, FarthestRoot, Distinct;
    forall m: nat, r: nat | m < |succ|
      ensures FarthestRoot(succ, legal, m, r) <==> Unit(succ, dom, legal, m) == r
    {
      UnitIsFarthest(succ, dom, legal, m, r);
    }
    forall a | 0 <= a < |sets| ensures IsUnit(succ, dom, legal, sets[a]) {}
    forall m: nat, r: nat | m < |succ| && m != r && FarthestRoot(succ, legal, m, r)
      ensures exists a :: 0 <= a < |sets| && Root(sets[a]) == r
    {
      assert Unit(succ, dom, legal, m) == r && r in NodesBelow(|succ|);
    }
  }

  /** Around a legal root, the greedy choice takes exactly the region. */
  lemma {:induction false} RegionIsUnit(succ: Graph, dom: Parents, legal: seq<bool>, root: nat, m: nat)
    requires TreeFor(succ, dom, 0) && |legal| == |succ| && m < |succ| && root < |succ|
    requires legal[root] && Unit(succ, dom, legal, root) == root
    ensures InRegion(succ, dom, legal, root, m) <==> Unit(succ, dom, legal, m) == root
    decreases |succ| - m
  {
    if m != root {
      if InRegion(succ, dom, legal, root, m) {
        ParentInRegion(succ, dom, legal, root, m);
        RegionIsUnit(succ, dom, legal, root, dom[m].value);
      }
      if Unit(succ, dom, legal, m) == root {
        RegionIsUnit(succ, dom, legal, root, dom[m].value);
        ChildInRegion(succ, dom, legal, root, dom[m].value, m);
      }
    }
  }

  /** A root with followers has a child among them. */
  lemma {:induction false} UnitChild(succ: Graph, dom: Parents, legal: seq<bool>, m: nat) returns (c: nat)
    requires TreeFor(succ, dom, 0) && |legal| == |succ| && m < |succ| && Unit(succ, dom, legal, m) != m
    ensures c < |succ| && dom[c] == Some(Unit(succ, dom, legal, m))
    decreases |succ| - m
  {
    UnitOfRoot(succ, dom, legal, m);
    if dom[m].value == Unit(succ, dom, legal, m) { c := m; } else { c := UnitChild(succ, dom, legal, dom[m].value); }
  }

  /** The last element of a list of members. */
  ghost function Root(members: seq<nat>): nat {
    if members == [] then 0 else members[|members| - 1]
  }

  /** `members` lists one region of the greedy choice, which has more than one member. */
  ghost predicate IsUnit(succ: Graph, dom: Parents, legal: seq<bool>, members: seq<nat>)
    requires TreeFor(succ, dom, 0) && |legal| == |succ|
  {
    && |members| > 1 && Distinct(members) && Root(members) < |succ| && legal[Root(members)]
    && forall m: nat :: m in members <==> m < |succ| && Unit(succ, dom, legal, m) == Root(members)
  }

  /** All `sets` are different regions of the greedy choice. */
  ghost predicate AreUnits(succ: Graph, dom: Parents, legal: seq<bool>, sets: seq<seq<nat>>)
    requires TreeFor(succ, dom, 0) && |legal| == |succ|
  {
    && (forall a :: 0 <= a < |sets| ==> IsUnit(succ, dom, legal, sets[a]))
    && (forall a, b :: 0 <= a < b < |sets| ==> Root(sets[a]) != Root(sets[b]))
  }

  /** The region of every member of `roots` that has followers is among `sets`. */
  ghost predicate AllFound(succ: Graph, dom: Parents, legal: seq<bool>, sets: seq<seq<nat>>, roots: set<nat>)
    requires TreeFor(succ, dom, 0) && |legal| == |succ| && AreUnits(succ, dom, legal, sets)
  {
    forall m: nat :: m < |succ| && Unit(succ, dom, legal, m) != m && Unit(succ, dom, legal, m) in roots ==>
      exists a :: 0 <= a < |sets| && Root(sets[a]) == Unit(succ, dom, legal, m)
  }

  ghost function NodesBelow(n: nat): (s: set<nat>)
    ensures forall i: nat :: i in s <==> i < n
  {
    if n == 0 then {} else NodesBelow(n - 1) + {n - 1}
  }

  /** The work list: `seen` holds the roots that have been taken from it, `q` those that wait. */
  ghost predicate Working(succ: Graph, dom: Parents, legal: seq<bool>, seen: set<nat>, q: seq<nat>)
    requires TreeFor(succ, dom, 0) && |legal| == |succ|
  {
    && Distinct(q) && (forall r :: r in q ==> r !in seen)
    && (forall r :: r in q || r in seen ==> r < |succ| && Unit(succ, dom, legal, r) == r)
    && (forall r :: (r in q || r in seen) && dom[r].Some? ==> Unit(succ, dom, legal, dom[r].value) in seen)
    && (forall r: nat ::
          (r < |succ| && Unit(succ, dom, legal, r) == r
           && (dom[r].None? || Unit(succ, dom, legal, dom[r].value) in seen)) ==> r in seen || r in q)
  }

  /** When nothing waits, every root has been taken. */
  lemma {:induction false} AllSeen(succ: Graph, dom: Parents, legal: seq<bool>, seen: set<nat>, r: nat)
    requires TreeFor(succ, dom, 0) && |legal| == |succ| && Working(succ, dom, legal, seen, [])
    requires r < |succ| && Unit(succ, dom, legal, r) == r
    ensures r in seen
    decreases |succ| - r
  {
    if dom[r].Some? {
      UnitOfRoot(succ, dom, legal, dom[r].value);
      AllSeen(succ, dom, legal, seen, Unit(succ, dom, legal, dom[r].value));
    }
  }

  /** `edges` are the children of the region of `root` that begin regions of their own. */
  ghost predicate EdgesOf(succ: Graph, dom: Parents, legal: seq<bool>, root: nat, edges: seq<nat>)
    requires TreeFor(succ, dom, 0) && |legal| == |succ|
  {
    && Distinct(edges)
    && forall c: nat :: c in edges <==> c < |succ| && Unit(succ, dom, legal, c) == c
                                        && dom[c].Some? && Unit(succ, dom, legal, dom[c].value) == root
  }

  lemma WorkStep(succ: Graph, dom: Parents, legal: seq<bool>, seen: set<nat>, q: seq<nat>, edges: seq<nat>)
    requires TreeFor(succ, dom, 0) && |legal| == |succ|
    requires Working(succ, dom, legal, seen, q) && q != [] && EdgesOf(succ, dom, legal, q[0], edges)
    ensures Working(succ, dom, legal, seen + {q[0]}, q[1..] + edges)
  {
    assert |dom| == |succ|;
    hide TreeFor, Unit;
    var root, rest := q[0], q[1..];
    assert q == [root] + rest;
    InAppend([root], rest);
    assert root in q && root !in rest && Distinct(rest);
    forall c: nat | c in edges ensures c !in q && c !in seen {
      assert dom[c].Some? && Unit(succ, dom, legal, dom[c].value) == root;
    }
    DistinctAppend(rest, edges);
    InAppend(rest, edges);
    hide Distinct;
  }

  /** The region around one root and the children where the work goes on. */
  method FuseRoot(succ: Graph, dom: Parents, domSucc: Graph, legal: seq<bool>, root: nat)
    returns (fuseSet: seq<nat>, edges: seq<nat>)
    requires Built(succ, dom, domSucc, legal) && root < |succ| && Unit(succ, dom, legal, root) == root
    ensures EdgesOf(succ, dom, legal, root, edges)
    ensures fuseSet != [] ==> IsUnit(succ, dom, legal, fuseSet) && Root(fuseSet) == root
    ensures fuseSet == [] ==> forall m: nat :: m < |succ| && m != root ==> Unit(succ, dom, legal, m) != root
  {
    assert |domSucc| == |succ|;
    hide TreeFor, ChildrenOf, IsRegion, EdgesOf, Distinct, Unit, IsUnit;
    Followers(succ, dom, domSucc, legal, root);
    if domSucc[root] == [] {
      LeafEdges(succ, dom, domSucc, legal, root);
      return [], [];
    }
    if !legal[root] {
      LeafEdges(succ, dom, domSucc, legal, root);
      return [], domSucc[root];
    }
    fuseSet, edges := FuseNode(succ, dom, domSucc, legal, root);
    RegionEdges(succ, dom, legal, root, fuseSet, edges);
    if |fuseSet| <= 1 { fuseSet := []; }
  }

  /** Only a legal root with children has followers. */
  lemma Followers(succ: Graph, dom: Parents, domSucc: Graph, legal: seq<bool>, root: nat)
    requires Built(succ, dom, domSucc, legal) && root < |succ| && Unit(succ, dom, legal, root) == root
    ensures domSucc[root] == [] || !legal[root] ==>
              forall m: nat :: m < |succ| && m != root ==> Unit(succ, dom, legal, m) != root
  {
    forall m: nat | m < |succ| && Unit(succ, dom, legal, m) == root && m != root
      ensures domSucc[root] != [] && legal[root]
    {
      UnitOfRoot(succ, dom, legal, m);
      var c := UnitChild(succ, dom, legal, m);
      assert c in domSucc[root];
    }
  }

  /** If nothing follows the root, all its children begin regions of their own. */
  lemma LeafEdges(succ: Graph, dom: Parents, domSucc: Graph, legal: seq<bool>, root: nat)
    requires Built(succ, dom, domSucc, legal) && root < |succ| && Unit(succ, dom, legal, root) == root
    requires forall m: nat :: m < |succ| && m != root ==> Unit(succ, dom, legal, m) != root
    ensures EdgesOf(succ, dom, legal, root, domSucc[root])
  {
    forall c: nat | c < |succ| && dom[c].Some? && Unit(succ, dom, legal, dom[c].value) == root
      ensures Unit(succ, dom, legal, c) == c && c in domSucc[root]
    {
      assert dom[c].value == root;
      UnitOfRoot(succ, dom, legal, c);
    }
  }

  lemma RegionEdges(succ: Graph, dom: Parents, legal: seq<bool>, root: nat, fuseSet: seq<nat>, edges: seq<nat>)
    requires TreeFor(succ, dom, 0) && |legal| == |succ| && root < |succ|
    requires Unit(succ, dom, legal, root) == root && legal[root]
    requires IsRegion(succ, dom, legal, fuseSet) && Root(fuseSet) == root && Distinct(edges)
    requires forall c: nat :: c in edges <==> c < |succ| && dom[c].Some? && dom[c].value in fuseSet && c !in fuseSet
    ensures if |fuseSet| > 1 then IsUnit(succ, dom, legal, fuseSet)
            else forall m: nat :: m < |succ| && m != root ==> Unit(succ, dom, legal, m) != root
    ensures EdgesOf(succ, dom, legal, root, edges)
  {
    forall m: nat ensures m in fuseSet <==> m < |succ| && Unit(succ, dom, legal, m) == root {
      if m < |succ| { RegionIsUnit(succ, dom, legal, root, m); }
    }
    forall c: nat | c < |succ| ensures Unit(succ, dom, legal, c) == c || c !in edges {
      UnitOfRoot(succ, dom, legal, c);
    }
  }

  /** Works through the tree from the nodes without a parent, and collects the regions of more
      than one node. */
  method FindFuseSets(succ: Graph, dom: Parents, domSucc: Graph, legal: seq<bool>, roots: seq<nat>)
    returns (fuseSets: seq<seq<nat>>)
    requires Built(succ, dom, domSucc, legal) && Distinct(roots)
    requires forall r: nat :: r in roots <==> r < |succ| && dom[r].None?
    ensures AreUnits(succ, dom, legal, fuseSets)
    ensures AllFound(succ, dom, legal, fuseSets, NodesBelow(|succ|))
    ensures FusesAll(succ, legal, fuseSets)
  {
    fuseSets := [];
    var q := roots;
    ghost var seen: set<nat> := {};
    while q != []
      invariant Working(succ, dom, legal, seen, q)
      invariant AreUnits(succ, dom, legal, fuseSets) && AllFound(succ, dom, legal, fuseSets, seen)
      invariant forall a :: 0 <= a < |fuseSets| ==> Root(fuseSets[a]) in seen
      decreases NodesBelow(|succ|) - seen
    {
      var root := q[0];
      assert root in q;
      var fuseSet, edges := FuseRoot(succ, dom, domSucc, legal, root);
      WorkStep(succ, dom, legal, seen, q, edges);
      ghost var before := fuseSets;
      if |fuseSet| > 1 { fuseSets := fuseSets + [fuseSet]; }
      FoundStep(succ, dom, legal, before, seen, root, fuseSet);
      seen := seen + {root};
      q := q[1..] + edges;
    }
    forall m: nat | m < |succ| ensures Unit(succ, dom, legal, m) in seen {
      UnitOfRoot(succ, dom, legal, m);
      AllSeen(succ, dom, legal, seen, Unit(succ, dom, legal, m));
    }
    FoundAreAll(succ, dom, legal, fuseSets);
  }

  lemma FoundStep(succ: Graph, dom: Parents, legal: seq<bool>, sets: seq<seq<nat>>, seen: set<nat>, root: nat,
      fuseSet: seq<nat>)
    requires TreeFor(succ, dom, 0) && |legal| == |succ| && AreUnits(succ, dom, legal, sets) && root !in seen
    requires AllFound(succ, dom, legal, sets, seen) && forall a :: 0 <= a < |sets| ==> Root(sets[a]) in seen
    requires fuseSet != [] ==> IsUnit(succ, dom, legal, fuseSet) && Root(fuseSet) == root
    requires fuseSet == [] ==> forall m: nat :: m < |succ| && m != root ==> Unit(succ, dom, legal, m) != root
    ensures var after := if |fuseSet| > 1 then sets + [fuseSet] else sets;
            AreUnits(succ, dom, legal, after) && AllFound(succ, dom, legal, after, seen + {root})
            && forall a :: 0 <= a < |after| ==> Root(after[a]) in seen + {root}
  {
    var after := if |fuseSet| > 1 then sets + [fuseSet] else sets;
    assert forall a :: 0 <= a < |sets| ==> after[a] == sets[a];
    assert fuseSet != [] ==> after[|sets|] == fuseSet;
  }
}
