/**
The lazy evaluation of express/: reading an expression makes a cache for it when it has none, brings
the caches that it reads from up to date and takes the value out of its session; writing a leaf
marks the caches that depend on it. Expressions and caches are numbered in the order in which they
were made.
 */
module Express {
  import opened Wrappers
  import opened Bits
  import opened ExprGraph
  import opened Sessions
  import opened Linearise

  // ---- marking ----

  /** Caches that were dirty or belong to a marked expression. */
  ghost predicate Marked(before: seq<bool>, cacheOf: seq<Option<nat>>, hit: set<nat>, dirty: seq<bool>) {
    && |dirty| == |before|
    && forall c: nat :: c < |dirty| ==> (dirty[c] <==> before[c] || HitCache(cacheOf, hit, c))
  }

  ghost predicate HitCache(cacheOf: seq<Option<nat>>, hit: set<nat>, c: nat) {
    exists n :: n in hit && n < |cacheOf| && cacheOf[n] == Some(c)
  }

  ghost predicate InRange(cacheOf: seq<Option<nat>>, n: nat) {
    forall e: nat :: e < |cacheOf| && cacheOf[e].Some? ==> cacheOf[e].value < n
  }

  lemma MarkedMore(before: seq<bool>, cacheOf: seq<Option<nat>>, hit: set<nat>, dirty: seq<bool>, e: nat)
    requires Marked(before, cacheOf, hit, dirty) && e < |cacheOf| && InRange(cacheOf, |dirty|)
    ensures Marked(before, cacheOf, hit + {e}, if cacheOf[e].Some? then dirty[cacheOf[e].value := true] else dirty)
  {
    forall c: nat ensures HitCache(cacheOf, hit + {e}, c) <==> HitCache(cacheOf, hit, c) || cacheOf[e] == Some(c) {
      if HitCache(cacheOf, hit, c) {
        var n :| n in hit && n < |cacheOf| && cacheOf[n] == Some(c);
        assert n in hit + {e};
      }
    }
  }

  lemma MarkedNone(dirty: seq<bool>, cacheOf: seq<Option<nat>>)
    ensures Marked(dirty, cacheOf, {}, dirty)
  {
  }

  // ---- the stack-driven searches over caches ----

  /** Every cache on the stack weighs the more the later it was made; one that waits for its inputs
      weighs nearly nothing. */
  ghost function Cost(stack: seq<nat>, waiting: seq<bool>): nat
    requires |waiting| == |stack|
  {
    if stack == [] then 0
    else
      var top := |stack| - 1;
      Cost(stack[..top], waiting[..top]) + if waiting[top] then 1 else 2 * Pow2(stack[top])
  }

  ghost function SetCost(s: set<nat>, n: nat): nat {
    if n == 0 then 0 else SetCost(s, n - 1) + if n - 1 in s then Pow2(n - 1) else 0
  }

  lemma {:induction false} SetCostBound(s: set<nat>, n: nat)
    ensures SetCost(s, n) < Pow2(n)
  {
    if n > 0 { SetCostBound(s, n - 1); }
  }

  lemma {:induction false} SetCostLess(s: set<nat>, n: nat, d: nat)
    requires d in s
    ensures SetCost(s, n) == SetCost(s - {d}, n) + if d < n then Pow2(d) else 0
  {
    if n > 0 { SetCostLess(s, n - 1, d); }
  }

  lemma CostMore(stack: seq<nat>, waiting: seq<bool>, d: nat)
    requires |waiting| == |stack|
    ensures Cost(stack + [d], waiting + [false]) == Cost(stack, waiting) + 2 * Pow2(d)
  {
    assert (stack + [d])[..|stack|] == stack && (waiting + [false])[..|stack|] == waiting;
  }

  lemma CostTop(stack: seq<nat>, waiting: seq<bool>)
    requires |waiting| == |stack| > 0 && !waiting[|stack| - 1]
    ensures var last := |stack| - 1;
            Cost(stack, waiting) == Cost(stack[..last], waiting[..last]) + 2 * Pow2(stack[last])
            && Cost(stack, waiting[last := true]) == Cost(stack[..last], waiting[..last]) + 1
  {
    var last := |stack| - 1;
    assert waiting[last := true][..last] == waiting[..last];
  }

  lemma {:induction false} CostFalls(stack: seq<nat>, waiting: seq<bool>)
    requires |waiting| == |stack| > 0
    ensures Cost(stack[..|stack| - 1], waiting[..|stack| - 1]) < Cost(stack, waiting)
  {
    SetCostBound({}, stack[|stack| - 1]);
  }

  /** Pushes a set of caches, in any order. */
  method PushInputs(stack: seq<nat>, inputs: set<nat>, ghost waiting: seq<bool>, ghost c: nat)
    returns (r: seq<nat>, ghost w: seq<bool>)
    requires |waiting| == |stack| && forall d :: d in inputs ==> d < c
    ensures |w| == |r| && stack <= r && waiting <= w
    ensures forall d :: d in inputs <==> d in r[|stack|..]
    ensures forall p :: |stack| <= p < |r| ==> !w[p]
    ensures Cost(r, w) + 2 <= Cost(stack, waiting) + 2 * Pow2(c)
  {
    hide Cost, SetCost, Pow2;
    r, w := stack, waiting;
    var rest := inputs;
    SetCostBound(inputs, c);
    while rest != {}
      invariant rest <= inputs && |w| == |r| && stack <= r && waiting <= w
      invariant forall d :: d in inputs <==> d in rest || d in r[|stack|..]
      invariant forall p :: |stack| <= p < |r| ==> !w[p]
      invariant Cost(r, w) + 2 * SetCost(rest, c) == Cost(stack, waiting) + 2 * SetCost(inputs, c)
      decreases rest
    {
      var d :| d in rest;
      SetCostLess(rest, c, d);
      CostMore(r, w, d);
      assert (r + [d])[|stack|..] == r[|stack|..] + [d];
      r, w, rest := r + [d], w + [false], rest - {d};
    }
  }

  /** The inputs of every waiting cache have been visited or are above it. */
  ghost predicate Searching(plans: seq<Plan>, visited: set<nat>, stack: seq<nat>, waiting: seq<bool>) {
    && |waiting| == |stack|
    && (forall p :: 0 <= p < |stack| ==> stack[p] < |plans|)
    && (forall p, d :: 0 <= p < |stack| && waiting[p] && d in plans[stack[p]].inputs ==>
                         d in visited || d in stack[p + 1..])
  }

  lemma SearchStart(plans: seq<Plan>, c: nat)
    requires c < |plans|
    ensures Searching(plans, {}, [c], [false])
  {
  }

  lemma SearchPop(plans: seq<Plan>, visited: set<nat>, stack: seq<nat>, waiting: seq<bool>)
    requires Searching(plans, visited, stack, waiting) && stack != []
    ensures Searching(plans, visited + {stack[|stack| - 1]}, stack[..|stack| - 1], waiting[..|stack| - 1])
  {
    var last := |stack| - 1;
    forall p, d | 0 <= p < last && waiting[p] && d in plans[stack[p]].inputs
      ensures d in visited + {stack[last]} || d in stack[..last][p + 1..]
    {
      assert stack[p + 1..] == stack[..last][p + 1..] + [stack[last]];
    }
  }

  lemma SearchPush(plans: seq<Plan>, visited: set<nat>, stack: seq<nat>, waiting: seq<bool>, inputs: set<nat>,
      r: seq<nat>, w: seq<bool>)
    requires Searching(plans, visited, stack, waiting) && stack != [] && inputs == plans[stack[|stack| - 1]].inputs
    requires |w| == |r| && stack <= r
    requires waiting[|stack| - 1 := true] <= w && forall p :: |stack| <= p < |r| ==> !w[p]
    requires forall d :: d in inputs <==> d in r[|stack|..]
    requires forall d :: d in inputs ==> d < |plans|
    ensures Searching(plans, visited, r, w)
  {
    forall p | |stack| <= p < |r| ensures r[p] < |plans| {
      assert r[p] == r[|stack|..][p - |stack|] && r[p] in r[|stack|..];
    }
    forall p, d | 0 <= p < |r| && w[p] && d in plans[r[p]].inputs ensures d in visited || d in r[p + 1..] {
      assert p < |stack| && r[p] == stack[p];
      assert r[p + 1..] == stack[p + 1..] + r[|stack|..];
      if p < |stack| - 1 { assert waiting[p]; }
    }
  }

  lemma SearchTop(plans: seq<Plan>, visited: set<nat>, stack: seq<nat>, waiting: seq<bool>)
    requires Searching(plans, visited, stack, waiting) && stack != []
    ensures stack[|stack| - 1] < |plans| && (waiting[|stack| - 1] ==> plans[stack[|stack| - 1]].inputs <= visited)
  {
    assert stack[|stack| - 1 + 1..] == [];
  }

  /** All caches on the stack are ready. */
  ghost predicate AllReady(plans: seq<Plan>, unwritten: seq<bool>, stack: seq<nat>) {
    forall p :: 0 <= p < |stack| ==> Ready(plans, unwritten, stack[p])
  }

  lemma ReadyStep(plans: seq<Plan>, unwritten: seq<bool>, stack: seq<nat>, c: nat, r: seq<nat>)
    requires c < |plans|
    requires forall l :: l in plans[c].leaves ==> l < |unwritten| && !unwritten[l]
    requires forall d :: d in plans[c].inputs ==> d < c
    requires stack <= r && forall d :: d in plans[c].inputs <==> d in r[|stack|..]
    ensures AllReady(plans, unwritten, stack + [c]) <==> AllReady(plans, unwritten, r)
  {
    var last := |stack|;
    assert r == stack + r[last..];
    if AllReady(plans, unwritten, r) {
      forall d | d in plans[c].inputs ensures Ready(plans, unwritten, d) {
        assert d in r[last..];
        var p :| 0 <= p < |r[last..]| && r[last..][p] == d;
        assert r[last + p] == d;
      }
      assert Ready(plans, unwritten, c);
      forall p | 0 <= p < last ensures Ready(plans, unwritten, stack[p]) { assert r[p] == stack[p]; }
    }
    if AllReady(plans, unwritten, stack + [c]) {
      assert Ready(plans, unwritten, (stack + [c])[last]);
      forall p | 0 <= p < |r| ensures Ready(plans, unwritten, r[p]) {
        if p < last { assert r[p] == (stack + [c])[p]; } else {
          assert r[p] == r[last..][p - last] && r[p] in r[last..];
        }
      }
    }
  }

  // ---- changes to the graph ----

  ghost predicate ShapesFirst(dirty: seq<bool>, shapeDirty: seq<bool>) {
    |shapeDirty| == |dirty| && forall c :: 0 <= c < |dirty| && shapeDirty[c] ==> dirty[c]
  }

  lemma WrittenExtended(nodes: Nodes, more: Nodes, plans: seq<Plan>, plan: Plan, k: nat)
    requires PlanFor(nodes, plans, plan) && nodes <= more && k <= |plan.pipeline|
    ensures Written(more, plan.pipeline, k) == Written(nodes, plan.pipeline, k)
  {
    hide *;
    if k > 0 { EntryNode(nodes, plans, plan, k - 1); }
    SameWritten(nodes, more, plan.pipeline, k);
  }

  lemma SameWritten(nodes: Nodes, more: Nodes, pipeline: seq<Entry>, k: nat)
    requires nodes <= more && k <= |pipeline| && (k > 0 ==> pipeline[k - 1].node < |nodes|)
    ensures Written(more, pipeline, k) == Written(nodes, pipeline, k)
  {
  }

  lemma EntryExtended(nodes: Nodes, more: Nodes, plans: seq<Plan>, plan: Plan, e: Entry)
    requires EntryFor(nodes, plans, plan, e) && nodes <= more
    ensures EntryFor(more, plans, plan, e)
  {
    forall i | 0 <= i < |e.args| && nodes[e.node].needs[i]
      ensures SourceFor(more, plans, plan, e.start, nodes[e.node].inputs[i], e.args[i])
    {
      assert SourceFor(nodes, plans, plan, e.start, nodes[e.node].inputs[i], e.args[i]);
    }
    hide SourceFor;
  }

  lemma PlanExtended(nodes: Nodes, more: Nodes, plans: seq<Plan>, plan: Plan)
    requires PlanFor(nodes, plans, plan) && nodes <= more
    ensures PlanFor(more, plans, plan)
  {
    hide EntryFor, Written;
    forall k | 0 <= k < |plan.pipeline|
      ensures EntryFor(more, plans, plan, plan.pipeline[k]) && plan.pipeline[k].start == Written(more, plan.pipeline, k)
    {
      EntryExtended(nodes, more, plans, plan, plan.pipeline[k]);
      WrittenExtended(nodes, more, plans, plan, k);
    }
    WrittenExtended(nodes, more, plans, plan, |plan.pipeline|);
  }

  lemma AllPlansExtended(nodes: Nodes, more: Nodes, plans: seq<Plan>)
    requires AllPlans(nodes, plans) && nodes <= more
    ensures AllPlans(more, plans)
  {
    hide PlanFor;
    forall c: nat | c < |plans| ensures PlanFor(more, plans[..c], plans[c]) {
      PlanExtended(nodes, more, plans[..c], plans[c]);
    }
  }

  lemma PlanTensor(nodes: Nodes, plans: seq<Plan>, c: nat, t: nat)
    requires AllPlans(nodes, plans) && c < |plans| && t < |plans[c].tensors|
    ensures plans[c].tensors[t].node < |nodes| && nodes[plans[c].tensors[t].node].Apply?
    ensures plans[c].tensors[t].index < Outputs(nodes[plans[c].tensors[t].node])
  {
    assert PlanFor(nodes, plans[..c], plans[c]);
    hide EntryFor, Written;
  }

  lemma CoherentExtended(nodes: Nodes, content: seq<Tensor>, more: Nodes, moreContent: seq<Tensor>,
                         plans: seq<Plan>, dirty: seq<bool>, tensors: seq<seq<Tensor>>)
    requires Acyclic(nodes) && |content| == |nodes| && Acyclic(more) && |moreContent| == |more|
    requires nodes <= more && content <= moreContent
    requires AllPlans(nodes, plans) && Coherent(nodes, content, plans, dirty, tensors)
    ensures Coherent(more, moreContent, plans, dirty, tensors)
  {
    hide Acyclic, AllPlans, Eval;
    forall c: nat, t | c < |plans| && !dirty[c] && 0 <= t < |tensors[c]|
      ensures |tensors[c]| == |plans[c].tensors| && tensors[c][t] == Value(more, moreContent, plans[c].tensors[t])
    {
      assert Correct(nodes, content, plans[c], tensors[c]);
      PlanTensor(nodes, plans, c, t);
      EvalExtended(nodes, content, more, moreContent, plans[c].tensors[t].node);
    }
    forall c: nat | c < |plans| && !dirty[c] ensures Correct(more, moreContent, plans[c], tensors[c]) {
      assert Correct(nodes, content, plans[c], tensors[c]);
    }
  }

  lemma TargetExtended(nodes: Nodes, more: Nodes, cacheOf: seq<Option<nat>>, moreCaches: seq<Option<nat>>, c: nat,
      n: nat)
    requires Acyclic(nodes) && Acyclic(more) && |cacheOf| == |nodes| && |moreCaches| == |more|
    requires nodes <= more && cacheOf <= moreCaches && HasTarget(nodes, cacheOf, c, n)
    ensures HasTarget(more, moreCaches, c, n)
  {
    hide Acyclic, DependsOn;
    var target: nat :| target < |nodes| && cacheOf[target] == Some(c) && Feeds(nodes, target, n);
    DependsExtended(nodes, more, target, n);
    assert Feeds(more, target, n) && moreCaches[target] == Some(c);
  }

  /** Writing leaf `l` and marking what depends on it keeps clean caches correct. */
  lemma CoherentWritten(nodes: Nodes, content: seq<Tensor>, plans: seq<Plan>, cacheOf: seq<Option<nat>>,
                        before: seq<bool>, dirty: seq<bool>, tensors: seq<seq<Tensor>>, to: Links, l: nat, v: Tensor)
    requires Acyclic(nodes) && Linked(nodes, to) && Straight(nodes, l) && |content| == |cacheOf| == |nodes|
    requires AllPlans(nodes, plans) && Anchored(nodes, plans, cacheOf)
    requires Coherent(nodes, content, plans, before, tensors)
    requires l < |nodes| && nodes[l].Leaf? && Marked(before, cacheOf, Informed(nodes, to, l), dirty)
    ensures Coherent(nodes, content[l := v], plans, dirty, tensors)
  {
    hide *;
    CoherentSizes(nodes, content, plans, before, tensors);
    MarkedExactly(nodes, to, before, cacheOf, l, dirty);
    forall c: nat | c < |plans| && !dirty[c] ensures Correct(nodes, content[l := v], plans[c], tensors[c]) {
      CoherentAt(nodes, content, plans, before, tensors, c);
      CorrectWritten(nodes, content, plans, cacheOf, tensors, l, v, c);
    }
    CoherentOf(nodes, content[l := v], plans, dirty, tensors);
  }

  /** A cache of which no target depends on leaf `l` stays correct when that is written. */
  lemma CorrectWritten(nodes: Nodes, content: seq<Tensor>, plans: seq<Plan>, cacheOf: seq<Option<nat>>,
      tensors: seq<seq<Tensor>>, l: nat, v: Tensor, c: nat)
    requires Acyclic(nodes) && |content| == |cacheOf| == |nodes| && l < |nodes| && nodes[l].Leaf?
    requires AllPlans(nodes, plans) && Anchored(nodes, plans, cacheOf)
    requires c < |plans| == |tensors| && Correct(nodes, content, plans[c], tensors[c])
    requires !HasDependent(nodes, cacheOf, c, l)
    ensures Correct(nodes, content[l := v], plans[c], tensors[c])
  {
    hide *;
    forall t: nat | t < |plans[c].tensors|
      ensures Value(nodes, content[l := v], plans[c].tensors[t]) == Value(nodes, content, plans[c].tensors[t])
    {
      PlanTensor(nodes, plans, c, t);
      AnchorOf(nodes, plans, cacheOf, c, t);
      NotDependent(nodes, cacheOf, l, c, plans[c].tensors[t].node);
      ValueUnchanged(nodes, content, plans[c].tensors[t], l, v);
    }
    CorrectStays(nodes, content, content[l := v], plans[c], tensors[c]);
  }

  lemma CoherentSizes(nodes: Nodes, content: seq<Tensor>, plans: seq<Plan>, dirty: seq<bool>, tensors: seq<seq<Tensor>>)
    requires Acyclic(nodes) && |content| == |nodes| && Coherent(nodes, content, plans, dirty, tensors)
    ensures |dirty| == |plans| == |tensors|
  {
    hide Correct, Acyclic;
  }

  lemma CoherentAt(nodes: Nodes, content: seq<Tensor>, plans: seq<Plan>, dirty: seq<bool>, tensors: seq<seq<Tensor>>,
      c: nat)
    requires Acyclic(nodes) && |content| == |nodes| && Coherent(nodes, content, plans, dirty, tensors) && c < |plans|
    ensures |dirty| == |plans| == |tensors| && (!dirty[c] ==> Correct(nodes, content, plans[c], tensors[c]))
  {
    hide Correct, Acyclic;
  }

  lemma CoherentOf(nodes: Nodes, content: seq<Tensor>, plans: seq<Plan>, dirty: seq<bool>, tensors: seq<seq<Tensor>>)
    requires Acyclic(nodes) && |content| == |nodes| && |dirty| == |plans| == |tensors|
    requires forall c: nat :: c < |plans| && !dirty[c] ==> Correct(nodes, content, plans[c], tensors[c])
    ensures Coherent(nodes, content, plans, dirty, tensors)
  {
    hide Correct, Acyclic;
  }

  lemma MarkedSizes(before: seq<bool>, cacheOf: seq<Option<nat>>, hit: set<nat>, dirty: seq<bool>)
    requires Marked(before, cacheOf, hit, dirty)
    ensures |dirty| == |before|
  {
  }

  lemma MarkedOnly(before: seq<bool>, cacheOf: seq<Option<nat>>, hit: set<nat>, dirty: seq<bool>, c: nat)
    requires Marked(before, cacheOf, hit, dirty) && c < |dirty| && !dirty[c]
    ensures |before| == |dirty| && !before[c] && !HitCache(cacheOf, hit, c)
  {
    hide HitCache;
  }

  lemma AnchorOf(nodes: Nodes, plans: seq<Plan>, cacheOf: seq<Option<nat>>, c: nat, t: nat)
    requires Acyclic(nodes) && |cacheOf| == |nodes| && Anchored(nodes, plans, cacheOf) && c < |plans|
    requires t < |plans[c].tensors|
    ensures HasTarget(nodes, cacheOf, c, plans[c].tensors[t].node)
  {
    hide Acyclic, HasTarget;
  }

  /** What takes part in the targets of a cache does not depend on the leaf if they do not. */
  lemma NotDependent(nodes: Nodes, cacheOf: seq<Option<nat>>, l: nat, c: nat, n: nat)
    requires Acyclic(nodes) && |cacheOf| == |nodes| && l < |nodes| && n < |nodes|
    requires HasTarget(nodes, cacheOf, c, n) && !HasDependent(nodes, cacheOf, c, l)
    ensures !DependsOn(nodes, n, l)
  {
    hide Acyclic, DependsOn;
    var target: nat :| target < |nodes| && cacheOf[target] == Some(c) && Feeds(nodes, target, n);
    if DependsOn(nodes, n, l) && target != n { DependsTransitive(nodes, target, n, l); }
  }

  lemma ValueUnchanged(nodes: Nodes, content: seq<Tensor>, o: Operand, l: nat, v: Tensor)
    requires Acyclic(nodes) && |content| == |nodes| && o.node < |nodes| && l < |nodes|
    requires nodes[l].Leaf? && nodes[o.node].Apply? && !DependsOn(nodes, o.node, l)
    ensures Value(nodes, content[l := v], o) == Value(nodes, content, o)
  {
    hide Acyclic, DependsOn, Eval;
    EvalUnchanged(nodes, content, o.node, l, v);
  }

  lemma CorrectStays(nodes: Nodes, content: seq<Tensor>, next: seq<Tensor>, plan: Plan, tensors: seq<Tensor>)
    requires Acyclic(nodes) && |content| == |next| == |nodes| && Correct(nodes, content, plan, tensors)
    requires forall t: nat :: t < |plan.tensors| ==>
                                Value(nodes, next, plan.tensors[t]) == Value(nodes, content, plan.tensors[t])
    ensures Correct(nodes, next, plan, tensors)
  {
    hide Acyclic, Value;
  }

  // ---- new caches ----

  /** The targets of a new cache have been told about it. */
  ghost predicate Told(cacheOf: seq<Option<nat>>, offset: seq<nat>, dst: map<nat, Option<nat>>, c: nat,
                       newCaches: seq<Option<nat>>, newOffsets: seq<nat>)
  {
    && |newCaches| == |cacheOf| == |offset| == |newOffsets|
    && forall n: nat :: n < |cacheOf| ==>
         if n in dst then newCaches[n] == Some(c) && dst[n].Some? && newOffsets[n] == dst[n].value
         else newCaches[n] == cacheOf[n] && newOffsets[n] == offset[n]
  }

  lemma PlansMore(nodes: Nodes, plans: seq<Plan>, plan: Plan)
    requires AllPlans(nodes, plans) && PlanFor(nodes, plans, plan)
    ensures AllPlans(nodes, plans + [plan])
  {
    hide PlanFor;
    var more := plans + [plan];
    forall c: nat | c < |more| ensures PlanFor(nodes, more[..c], more[c]) {
      if c < |plans| { assert more[..c] == plans[..c]; } else { assert more[..c] == plans; }
    }
  }

  lemma TargetsMore(nodes: Nodes, plans: seq<Plan>, plan: Plan, cacheOf: seq<Option<nat>>, offset: seq<nat>,
                    dst: map<nat, Option<nat>>, newCaches: seq<Option<nat>>, newOffsets: seq<nat>)
    requires Targets(nodes, plans, cacheOf, offset) && Told(cacheOf, offset, dst, |plans|, newCaches, newOffsets)
    requires forall e :: e in dst ==> e < |nodes| && nodes[e].Apply? && dst[e].Some?
                                      && HasOutputs(nodes[e], e, plan.tensors, dst[e].value)
    ensures Targets(nodes, plans + [plan], newCaches, newOffsets)
  {
    hide HasOutputs;
  }

  lemma AnchoredMore(nodes: Nodes, plans: seq<Plan>, plan: Plan, cacheOf: seq<Option<nat>>, offset: seq<nat>,
                     dst: map<nat, Option<nat>>, newCaches: seq<Option<nat>>, newOffsets: seq<nat>, w: World,
                     targets: seq<nat>)
    requires Acyclic(nodes) && |cacheOf| == |nodes| && Anchored(nodes, plans, cacheOf)
    requires Told(cacheOf, offset, dst, |plans|, newCaches, newOffsets)
    requires w.nodes == nodes && (forall e :: e in dst <==> e in targets)
    requires forall e :: e in dst ==> e < |nodes| && cacheOf[e].None?
    requires forall t :: 0 <= t < |plan.tensors| ==> Fed(w, targets, plan.tensors[t].node)
    ensures Anchored(nodes, plans + [plan], newCaches)
  {
    hide Acyclic, Feeds;
    forall c: nat, t: nat | c < |plans + [plan]| && t < |(plans + [plan])[c].tensors|
      ensures HasTarget(nodes, newCaches, c, (plans + [plan])[c].tensors[t].node)
    {
      var n := (plans + [plan])[c].tensors[t].node;
      if c < |plans| {
        assert HasTarget(nodes, cacheOf, c, n);
        var target: nat :| target < |nodes| && cacheOf[target] == Some(c) && Feeds(nodes, target, n);
        assert newCaches[target] == Some(c);
      } else {
        assert Fed(w, targets, n);
        var p :| 0 <= p < |targets| && Feeds(nodes, targets[p], n);
        assert targets[p] in targets;
        assert newCaches[targets[p]] == Some(c);
      }
    }
  }

  lemma CoherentMore(nodes: Nodes, content: seq<Tensor>, plans: seq<Plan>, dirty: seq<bool>, tensors: seq<seq<Tensor>>,
      plan: Plan)
    requires Acyclic(nodes) && |content| == |nodes| && Coherent(nodes, content, plans, dirty, tensors)
    ensures Coherent(nodes, content, plans + [plan], dirty + [true], tensors + [[]])
  {
    hide Acyclic, Correct;
  }

  /** Every input leaf that a cache waits for, and every expression whose cache it reads from, is for one of its
      targets. */
  ghost predicate AllSourced(nodes: Nodes, plans: seq<Plan>, cacheOf: seq<Option<nat>>)
    requires Acyclic(nodes) && |cacheOf| == |nodes|
  {
    forall c: nat :: c < |plans| ==> PlanSourced(nodes, plans[c], cacheOf, c)
  }

  ghost predicate PlanSourced(nodes: Nodes, plan: Plan, cacheOf: seq<Option<nat>>, c: nat)
    requires Acyclic(nodes) && |cacheOf| == |nodes|
  {
    && (forall l :: l in plan.leaves ==> l < |nodes| && nodes[l] == Leaf(true) && HasDependent(nodes, cacheOf, c, l))
    && (forall d :: d in plan.inputs ==> ReadsFrom(nodes, cacheOf, c, d))
  }

  /** Some target of cache `c` depends on a target of cache `d`. */
  ghost predicate ReadsFrom(nodes: Nodes, cacheOf: seq<Option<nat>>, c: nat, d: nat)
    requires Acyclic(nodes) && |cacheOf| == |nodes|
  {
    exists x: nat :: x < |nodes| && cacheOf[x] == Some(d) && HasDependent(nodes, cacheOf, c, x)
  }

  lemma DependentStays(nodes: Nodes, cacheOf: seq<Option<nat>>, more: Nodes, caches: seq<Option<nat>>, c: nat, l: nat)
    requires Acyclic(nodes) && |cacheOf| == |nodes| && Acyclic(more) && |caches| == |more| && nodes <= more
    requires forall n: nat :: n < |nodes| && cacheOf[n] == Some(c) ==> caches[n] == Some(c)
    requires HasDependent(nodes, cacheOf, c, l)
    ensures HasDependent(more, caches, c, l)
  {
    hide Acyclic, DependsOn;
    var n: nat :| n < |nodes| && cacheOf[n] == Some(c) && DependsOn(nodes, n, l);
    DependsExtended(nodes, more, n, l);
    assert caches[n] == Some(c) && DependsOn(more, n, l);
  }

  /** Caches that are there stay as they are. */
  lemma SourcedStays(nodes: Nodes, plans: seq<Plan>, cacheOf: seq<Option<nat>>, more: Nodes, caches: seq<Option<nat>>)
    requires Acyclic(nodes) && |cacheOf| == |nodes| && Acyclic(more) && |caches| == |more| && nodes <= more
    requires forall n: nat :: n < |nodes| && cacheOf[n].Some? ==> caches[n] == cacheOf[n]
    requires AllSourced(nodes, plans, cacheOf)
    ensures AllSourced(more, plans, caches)
  {
    hide Acyclic, HasDependent;
    forall c: nat | c < |plans| ensures PlanSourced(more, plans[c], caches, c) {
      assert PlanSourced(nodes, plans[c], cacheOf, c);
      forall l | l in plans[c].leaves ensures HasDependent(more, caches, c, l) {
        DependentStays(nodes, cacheOf, more, caches, c, l);
      }
      forall d | d in plans[c].inputs ensures ReadsFrom(more, caches, c, d) {
        assert ReadsFrom(nodes, cacheOf, c, d);
        var x: nat :| x < |nodes| && cacheOf[x] == Some(d) && HasDependent(nodes, cacheOf, c, x);
        DependentStays(nodes, cacheOf, more, caches, c, x);
        assert caches[x] == Some(d);
      }
    }
  }

  /** A new cache waits for what its targets need. */
  lemma SourcedWith(w: World, targets: seq<nat>, plan: Plan, caches: seq<Option<nat>>, c: nat)
    requires Acyclic(w.nodes) && |w.cacheOf| == |caches| == |w.nodes| && Linearise.Sourced(w, targets, plan)
    requires AllSourced(w.nodes, w.plans, caches) && c == |w.plans|
    requires forall n: nat :: n < |w.nodes| && w.cacheOf[n].Some? ==> caches[n] == w.cacheOf[n]
    requires forall p :: 0 <= p < |targets| && targets[p] < |w.nodes| ==> caches[targets[p]] == Some(c)
    ensures AllSourced(w.nodes, w.plans + [plan], caches)
  {
    hide Acyclic, DependsOn;
    var plans := w.plans + [plan];
    forall x: nat | FedBelow(w, targets, x) ensures HasDependent(w.nodes, caches, c, x) {
      var p :| 0 <= p < |targets| && targets[p] < |w.nodes| && DependsOn(w.nodes, targets[p], x);
      assert caches[targets[p]] == Some(c);
    }
    forall d | d in plan.inputs ensures ReadsFrom(w.nodes, caches, c, d) {
      var x: nat :| x < |w.nodes| && x < |w.cacheOf| && w.cacheOf[x] == Some(d) && FedBelow(w, targets, x);
      assert caches[x] == Some(d) && HasDependent(w.nodes, caches, c, x);
    }
    assert PlanSourced(w.nodes, plan, caches, c);
    forall b: nat | b < |plans| ensures PlanSourced(w.nodes, plans[b], caches, b) {
      if b < c { assert plans[b] == w.plans[b]; }
    }
  }

  // ---- the engine ----

  class Executor {
    var nodes: Nodes
    var content: seq<Tensor>
    var unwritten: seq<bool>
    var to: Links
    var visited: set<nat>
    var cacheOf: seq<Option<nat>>
    var offset: seq<nat>
    var plans: seq<Plan>
    var dirty: seq<bool>
    var shapeDirty: seq<bool>
    var tensors: seq<seq<Tensor>>
    /** Which operators fail in which run of a session; and how many runs there have been. */
    const fault: nat -> nat -> bool
    var attempts: nat

    ghost predicate GraphValid()
      reads this
    {
      && Acyclic(nodes) && Linked(nodes, to) && visited == {}
      && |content| == |unwritten| == |cacheOf| == |offset| == |nodes|
    }

    /** The caches compute what they are for, whether or not their tensors are up to date. */
    ghost predicate CachesPlanned()
      requires GraphValid()
      reads this
    {
      && AllPlans(nodes, plans) && Targets(nodes, plans, cacheOf, offset) && Anchored(nodes, plans, cacheOf)
      && ShapesFirst(dirty, shapeDirty) && AllSourced(nodes, plans, cacheOf)
    }

    /** And a clean cache holds correct tensors. */
    ghost predicate Valid()
      reads this
    {
      GraphValid() && CachesPlanned() && Coherent(nodes, content, plans, dirty, tensors)
    }

    constructor (faults: nat -> nat -> bool)
      ensures Valid() && nodes == [] && fault == faults && attempts == 0
    {
      fault, attempts := faults, 0;
      nodes, content, unwritten, to, visited := [], [], [], [], {};
      cacheOf, offset, plans, dirty, shapeDirty, tensors := [], [], [], [], [], [];
    }

    /** One call of the visitor of informDirty, from expression `n` over operand `i` of its user `e`. */
    method VisitUser(e: nat, i: nat, ghost n: nat, ghost before: seq<bool>, ghost hit: set<nat>)
      returns (recurse: bool, ghost now: set<nat>)
      requires |cacheOf| == |nodes| && e < |nodes| && nodes[e].Apply? && i < |nodes[e].needs|
      requires i == FirstOperand(nodes[e].inputs, n) || e in visited
      requires InRange(cacheOf, |dirty|) && Marked(before, cacheOf, hit, dirty)
      modifies this`visited, this`dirty
      ensures Marks(visited, now) == Mark(nodes[e], n, e, Marks(old(visited), hit))
      ensures recurse <==> e !in old(visited) && nodes[e].needs[i]
      ensures |dirty| == old(|dirty|) && Marked(before, cacheOf, now, dirty)
    {
      hide InRange, Marked;
      now := hit;
      if e in visited { return false, now; }
      visited := visited + {e};
      if nodes[e].needs[i] {
        MarkedMore(before, cacheOf, hit, dirty, e);
        now := hit + {e};
        CacheBound(cacheOf, |dirty|, e);
        if cacheOf[e].Some? { dirty := dirty[cacheOf[e].value := true]; }
        return true, now;
      }
      recurse := false;
    }

    lemma CacheBound(caches: seq<Option<nat>>, n: nat, e: nat)
      requires InRange(caches, n) && e < |caches|
      ensures caches[e].Some? ==> caches[e].value < n
    {
    }

    /** Goes over the back links of expression `n`. */
    method VisitOutputs(n: nat, ghost before: seq<bool>, ghost hit: set<nat>) returns (ghost now: set<nat>)
      requires Acyclic(nodes) && Linked(nodes, to) && |cacheOf| == |nodes| && n < |nodes|
      requires InRange(cacheOf, |dirty|) && Marked(before, cacheOf, hit, dirty)
      modifies this`visited, this`dirty
      ensures Marks(visited, now) == Visit(nodes, to, n, 0, Marks(old(visited), hit))
      ensures |dirty| == old(|dirty|) && Marked(before, cacheOf, now, dirty)
      decreases |nodes| - n
    {
      hide Acyclic, Linked, Marked, InRange, Mark, FirstOperand;
      now := hit;
      ghost var start := Marks(visited, hit);
      ghost var size := |dirty|;
      SameSizes(nodes, to);
      for k := 0 to |to[n]|
        invariant |dirty| == size && Marked(before, cacheOf, now, dirty)
        invariant Visit(nodes, to, n, k, Marks(visited, now)) == Visit(nodes, to, n, 0, start)
      {
        var e := to[n][k];
        UserIsLater(nodes, to, n, e);
        ghost var m := Marks(visited, now);
        var inputs := nodes[e].inputs;
        FirstNeeded(nodes, n, e);
        var recurse := false;
        for i := 0 to |inputs|
          invariant |dirty| == size && Marked(before, cacheOf, now, dirty)
          invariant i <= FirstOperand(inputs, n) ==> Marks(visited, now) == m && !recurse
          invariant i > FirstOperand(inputs, n) ==>
                      Marks(visited, now) == Mark(nodes[e], n, e, m)
                      && (recurse <==> e !in m.visited && GoesOn(nodes[e], n))
        {
          FirstIs(inputs, n, i);
          MarkTwice(nodes[e], n, e, m);
          if inputs[i].node == n && !recurse { recurse, now := VisitUser(e, i, n, before, now); }
        }
        if recurse { now := VisitOutputs(e, before, now); }
        VisitStep(nodes, to, n, k, m);
      }
      VisitLast(nodes, to, n, Marks(visited, now));
    }

    /** Marks the caches of everything that reads what depends on expression `l`. */
    method InformDirty(l: nat)
      requires GraphValid() && InRange(cacheOf, |dirty|) && l < |nodes|
      modifies this`visited, this`dirty
      ensures visited == {} && Marked(old(dirty), cacheOf, Informed(nodes, to, l), dirty)
    {
      hide Acyclic, Linked, InRange, Marked, Visit;
      ghost var before := dirty;
      MarkedNone(dirty, cacheOf);
      ghost var hit := VisitOutputs(l, before, {});
      visited := {};
    }

    /** Writes a leaf: afterwards the caches of what the traversal has marked, and those that were dirty, are dirty. If
        the traversal stops nowhere, those are the caches with a target that depends on the leaf, and clean caches stay
        correct; where it stops, those without such a target do, and `Stale.StaleWhereStopped` says what can happen to
        the others. */
    method Write(l: nat, v: Tensor) returns (ok: bool)
      requires Valid() && l < |nodes|
      modifies this`visited, this`dirty, this`unwritten, this`content
      ensures GraphValid() && CachesPlanned() && ok == nodes[l].Leaf?
      ensures Straight(nodes, l) || !ok ==> Valid()
      ensures content == if ok then old(content)[l := v] else old(content)
      ensures unwritten == if ok then old(unwritten)[l := false] else old(unwritten)
      ensures |dirty| == old(|dirty|)
      ensures Marked(old(dirty), cacheOf, if ok then Informed(nodes, to, l) else {}, dirty)
      ensures Straight(nodes, l) ==>
                forall c: nat :: c < |dirty| ==>
                  (dirty[c] <==> old(dirty)[c] || (ok && HasDependent(nodes, cacheOf, c, l)))
      ensures forall c: nat :: c < |dirty| && !dirty[c] && !HasDependent(nodes, cacheOf, c, l) ==>
                Correct(nodes, content, plans[c], tensors[c])
    {
      hide *;
      ValidParts();
      if nodes[l].Apply? {
        MarkedNone(dirty, cacheOf);
        ValidWhole();
        AllCorrect();
        return false;
      }
      ghost var before, was := dirty, content;
      InformDirty(l);
      if Straight(nodes, l) {
        CoherentWritten(nodes, content, plans, cacheOf, before, dirty, tensors, to, l, v);
        MarkedExactly(nodes, to, before, cacheOf, l, dirty);
      }
      MarkedSizes(before, cacheOf, Informed(nodes, to, l), dirty);
      forall c: nat | c < |dirty| && !dirty[c] && !HasDependent(nodes, cacheOf, c, l)
        ensures Correct(nodes, was[l := v], plans[c], tensors[c])
      {
        MarkedOnly(before, cacheOf, Informed(nodes, to, l), dirty, c);
        CoherentAt(nodes, was, plans, before, tensors, c);
        CorrectWritten(nodes, was, plans, cacheOf, tensors, l, v, c);
      }
      ShapesStay(before, dirty, shapeDirty, cacheOf, Informed(nodes, to, l));
      unwritten := unwritten[l := false];
      content := content[l := v];
      ok := true;
      ValidWhole();
    }

    lemma ValidParts()
      requires Valid()
      ensures GraphValid() && Acyclic(nodes) && Linked(nodes, to) && visited == {}
      ensures |content| == |unwritten| == |cacheOf| == |offset| == |nodes| == |to|
      ensures AllPlans(nodes, plans) && Targets(nodes, plans, cacheOf, offset) && Anchored(nodes, plans, cacheOf)
      ensures ShapesFirst(dirty, shapeDirty) && Coherent(nodes, content, plans, dirty, tensors)
      ensures AllSourced(nodes, plans, cacheOf)
      ensures |dirty| == |shapeDirty| == |tensors| == |plans| && InRange(cacheOf, |dirty|)
    {
      hide Acyclic, AllPlans, Anchored, HasOutputs, Correct, AllSourced;
    }

    lemma AllCorrect()
      requires Valid()
      ensures forall c: nat :: c < |dirty| && !dirty[c] ==> Correct(nodes, content, plans[c], tensors[c])
    {
    }

    lemma ValidWhole()
      requires Acyclic(nodes) && Linked(nodes, to) && visited == {}
      requires |content| == |unwritten| == |cacheOf| == |offset| == |nodes|
      requires AllPlans(nodes, plans) && Targets(nodes, plans, cacheOf, offset) && Anchored(nodes, plans, cacheOf)
      requires ShapesFirst(dirty, shapeDirty) && AllSourced(nodes, plans, cacheOf)
      ensures GraphValid() && CachesPlanned()
      ensures Coherent(nodes, content, plans, dirty, tensors) ==> Valid()
    {
      hide Acyclic, Linked, AllPlans, Targets, Anchored, ShapesFirst, Coherent, AllSourced;
    }

    /** A new leaf, with or without data. */
    method CreateLeaf(input: bool, data: Option<Tensor>) returns (n: nat)
      requires Valid()
      modifies this
      ensures Valid() && n == old(|nodes|) && nodes == old(nodes) + [Leaf(input)]
      ensures content == old(content) + [if data.Some? then data.value else []]
      ensures unwritten == old(unwritten) + [data.None?]
      ensures cacheOf == old(cacheOf) + [None] && plans == old(plans) && dirty == old(dirty) && tensors == old(tensors)
    {
      n := Add(Leaf(input), if data.Some? then data.value else [], data.None?);
    }

    /** A new operator; `needs` says which operands' content it needs. */
    method CreateOp(op: Op, inputs: seq<Operand>, needs: seq<bool>) returns (n: nat)
      requires Valid() && |needs| == |inputs|
      requires forall i :: 0 <= i < |inputs| ==>
                             inputs[i].node < |nodes| && inputs[i].index < Outputs(nodes[inputs[i].node])
      modifies this
      ensures Valid() && n == old(|nodes|) && nodes == old(nodes) + [Apply(op, inputs, needs)]
      ensures content == old(content) + [[]] && unwritten == old(unwritten) + [true]
      ensures cacheOf == old(cacheOf) + [None] && plans == old(plans) && dirty == old(dirty) && tensors == old(tensors)
    {
      n := Add(Apply(op, inputs, needs), [], true);
    }

    /** Adds an expression and links its operands to it. */
    method Add(node: Node, v: Tensor, empty: bool) returns (n: nat)
      requires Valid() && NewNode(nodes, node)
      modifies this
      ensures Valid() && n == old(|nodes|) && nodes == old(nodes) + [node]
      ensures content == old(content) + [v] && unwritten == old(unwritten) + [empty]
      ensures cacheOf == old(cacheOf) + [None] && plans == old(plans) && dirty == old(dirty) && tensors == old(tensors)
    {
      hide *;
      ValidParts();
      n := |nodes|;
      ghost var before, oldContent, links, caches := nodes, content, to, cacheOf;
      var inputs := if node.Apply? then node.inputs else [];
      to := to + [[]];
      LinksBegin(before, node, links, inputs);
      NewInputs(before, node);
      for i := 0 to |inputs|
        invariant |to| == n + 1 && LinksUpTo(before, links, inputs, i, to)
        modifies this`to
      {
        var x := inputs[i].node;
        LinksMore(before, links, inputs, i, to, x);
        to := to[x := to[x] + [n]];
      }
      nodes, content, unwritten := nodes + [node], content + [v], unwritten + [empty];
      cacheOf, offset := cacheOf + [None], offset + [0];
      LinksEnd(before, node, links, inputs, to);
      GraphMore(before, node);
      AllPlansExtended(before, nodes, plans);
      TargetsExtended(before, nodes, plans, caches, cacheOf, old(offset), offset);
      AnchoredExtended(before, nodes, plans, caches, cacheOf);
      SourcedStays(before, plans, caches, nodes, cacheOf);
      CoherentExtended(before, oldContent, nodes, content, plans, dirty, tensors);
      ValidWhole();
    }

    /** Makes a cache for the operators among `exprs`. */
    method MakeCache(exprs: seq<nat>)
      requires Valid() && forall p :: 0 <= p < |exprs| ==> exprs[p] < |nodes| && cacheOf[exprs[p]].None?
      modifies this`cacheOf, this`offset, this`plans, this`dirty, this`shapeDirty, this`tensors
      ensures Valid() && old(plans) <= plans && old(dirty) <= dirty && old(tensors) <= tensors
      ensures |plans| <= |old(plans)| + 1
      ensures forall n: nat :: n < |nodes| ==>
                if n in exprs && nodes[n].Apply? then cacheOf[n] == Some(|old(plans)|)
                else cacheOf[n] == old(cacheOf)[n] && offset[n] == old(offset)[n]
    {
      hide *;
      ValidParts();
      var w := World(nodes, plans, cacheOf, offset);
      var targets := Operators(w, exprs);
      if targets == [] { return; }
      SoundOf(w);
      var plan, dst := MakePipeline(w, targets);
      TargetsOpen(w, targets, dst);
      Tell(dst, |plans|);
      WorldMore(w, content, dirty, shapeDirty, tensors, targets, dst, plan, cacheOf, offset);
      SourcedAgain(w, targets, dst, plan, cacheOf, offset);
      plans, dirty, shapeDirty, tensors := plans + [plan], dirty + [true], shapeDirty + [true], tensors + [[]];
      ValidWhole();
    }

    /** The operators among `exprs`. */
    method Operators(w: World, exprs: seq<nat>) returns (targets: seq<nat>)
      requires forall p :: 0 <= p < |exprs| ==>
                             exprs[p] < |w.nodes| && exprs[p] < |w.cacheOf| && w.cacheOf[exprs[p]].None?
      ensures forall q :: 0 <= q < |targets| ==> Open(w, targets[q])
      ensures forall n: nat :: n in targets <==> n in exprs && n < |w.nodes| && w.nodes[n].Apply?
    {
      hide Open;
      targets := [];
      for p := 0 to |exprs|
        invariant forall q :: 0 <= q < |targets| ==> Open(w, targets[q])
        invariant forall n: nat :: n in targets <==> n in exprs[..p] && n < |w.nodes| && w.nodes[n].Apply?
      {
        assert exprs[..p + 1] == exprs[..p] + [exprs[p]];
        IsOpen(w, exprs[p]);
        if w.nodes[exprs[p]].Apply? { targets := targets + [exprs[p]]; }
      }
      assert exprs[..|exprs|] == exprs;
    }

    /** Gives every target its cache and offset. */
    method Tell(dst: map<nat, Option<nat>>, c: nat)
      requires |offset| == |cacheOf| && forall e :: e in dst ==> e < |cacheOf| && dst[e].Some?
      modifies this`cacheOf, this`offset
      ensures Told(old(cacheOf), old(offset), dst, c, cacheOf, offset)
      ensures |cacheOf| == |offset| == old(|cacheOf|)
      ensures forall n: nat :: n < |cacheOf| ==>
                if n in dst then cacheOf[n] == Some(c) else cacheOf[n] == old(cacheOf)[n] && offset[n] == old(offset)[n]
    {
      hide Told;
      ghost var caches, offsets := cacheOf, offset;
      var rest := dst.Keys;
      ToldNone(caches, offsets, dst, c);
      while rest != {}
        invariant rest <= dst.Keys && |cacheOf| == |offset| == |caches|
        invariant Told(caches, offsets, dst - rest, c, cacheOf, offset)
        decreases rest
      {
        var e :| e in rest;
        ToldMore(caches, offsets, dst, rest, c, cacheOf, offset, e);
        cacheOf, offset, rest := cacheOf[e := Some(c)], offset[e := dst[e].value], rest - {e};
      }
      assert dst - rest == dst;
      ToldIs(caches, offsets, dst, c, cacheOf, offset);
    }

    /** Runs the session of cache `c`, all of whose inputs are clean. If an operator fails what the session holds is of
        no use. */
    method Run(c: nat) returns (ok: bool)
      requires Valid() && c < |plans|
      requires forall d :: d in plans[c].inputs ==> d < |plans| && !dirty[d]
      modifies this`tensors, this`attempts
      ensures |tensors| == |plans| && forall d :: 0 <= d < |plans| && d != c ==> tensors[d] == old(tensors)[d]
      ensures ok ==> Correct(nodes, content, plans[c], tensors[c])
      ensures attempts == old(attempts) + 1 && (ok <==> !Faulty(fault, old(attempts), plans[c]))
    {
      hide *;
      ValidParts();
      var plan := plans[c];
      PlanOf(nodes, plans, c);
      InputsCorrect(c);
      var outs: seq<Tensor> := [];
      ok := true;
      FirstStart(nodes, plan);
      for k := 0 to |plan.pipeline|
        invariant ok && forall j :: 0 <= j < k ==> !fault(attempts)(j)
        invariant |outs| == Written(nodes, plan.pipeline, k) <= |plan.tensors|
        invariant forall t :: 0 <= t < |outs| ==> outs[t] == Value(nodes, content, plan.tensors[t])
        modifies {}
      {
        if fault(attempts)(k) {
          ok := false;
          break;
        }
        var e := plan.pipeline[k];
        EntryNode(nodes, plans[..c], plan, k);
        var args := FetchAll(e, outs);
        EntryComputes(nodes, content, plans[..c], plan, tensors, outs, e, args);
        outs := outs + Results(nodes[e.node].op, args);
      }
      if ok {
        LastStart(nodes, plans[..c], plan);
        CorrectOf(nodes, content, plan, outs);
      }
      FaultyIs(fault, attempts, plan, ok);
      tensors, attempts := tensors[c := outs], attempts + 1;
    }

    method FetchAll(e: Entry, outs: seq<Tensor>) returns (args: seq<Tensor>)
      ensures |args| == |e.args| && forall i :: 0 <= i < |args| ==> args[i] == Fetch(content, tensors, outs, e.args[i])
    {
      hide Fetch;
      args := [];
      for i := 0 to |e.args|
        invariant |args| == i && forall j :: 0 <= j < i ==> args[j] == Fetch(content, tensors, outs, e.args[j])
      {
        args := args + [Fetch(content, tensors, outs, e.args[i])];
      }
    }

    lemma InputsCorrect(c: nat)
      requires Valid() && c < |plans| && forall d :: d in plans[c].inputs ==> d < |plans| && !dirty[d]
      ensures Acyclic(nodes) && |content| == |nodes| && |tensors| == |plans|
      ensures forall d :: d in plans[c].inputs ==>
                            d < |plans[..c]| && Correct(nodes, content, plans[..c][d], tensors[d])
    {
      hide *;
      ValidParts();
      PlanOf(nodes, plans, c);
      forall d | d in plans[c].inputs ensures d < |plans[..c]| && Correct(nodes, content, plans[..c][d], tensors[d]) {
        CoherentAt(nodes, content, plans, dirty, tensors, d);
      }
    }

    /** Whether all input leaves behind cache `c` have been written. */
    method Check(c: nat) returns (ok: bool)
      requires Valid() && c < |plans|
      ensures ok <==> Ready(plans, unwritten, c)
    {
      hide *;
      ValidParts();
      var stack: seq<nat> := [c];
      ghost var waiting := [false];
      ReadyAlone(plans, unwritten, c);
      while stack != []
        invariant |waiting| == |stack| && forall p :: 0 <= p < |stack| ==> stack[p] < |plans| && !waiting[p]
        invariant AllReady(plans, unwritten, [c]) <==> AllReady(plans, unwritten, stack)
        decreases Cost(stack, waiting)
      {
        var last := |stack| - 1;
        var cache := stack[last];
        PlanOf(nodes, plans, cache);
        CostTop(stack, waiting);
        CostFalls(stack, waiting);
        ghost var before := stack;
        stack, waiting := stack[..last], waiting[..last];
        assert before == stack + [cache];
        NotReady(plans, unwritten, stack, cache);
        if exists l :: l in plans[cache].leaves && unwritten[l] { return false; }
        ghost var rest := stack;
        if plans[cache].inputs != {} {
          stack, waiting := PushInputs(stack, plans[cache].inputs, waiting, cache);
        }
        PushedBound(rest, stack, plans[cache].inputs, |plans|);
        ReadyStep(plans, unwritten, rest, cache, stack);
      }
      NoneReady(plans, unwritten);
      ok := true;
    }

    /** Lays out the sessions of `c` and of the caches that it reads, as far as that has not been done. What
        such a session holds is lost. */
    method Resize(c: nat)
      requires Valid() && c < |plans|
      modifies this`shapeDirty, this`dirty, this`tensors
      ensures Valid() && dirty == old(dirty) && !shapeDirty[c]
      ensures forall d :: 0 <= d < |plans| && shapeDirty[d] ==> old(shapeDirty)[d]
      ensures forall d :: 0 <= d < |plans| && !old(shapeDirty)[d] ==> tensors[d] == old(tensors)[d]
    {
      hide *;
      ValidParts();
      var stack: seq<nat>, visited: set<nat> := [c], {};
      ghost var waiting := [false];
      ghost var shapes, held := shapeDirty, tensors;
      SearchStart(plans, c);
      while stack != []
        invariant Searching(plans, visited, stack, waiting) && |waiting| == |stack|
        invariant |shapeDirty| == |dirty| == |tensors| == |plans| && dirty == old(dirty)
        invariant ShapesFirst(dirty, shapeDirty)
        invariant forall d :: d in visited ==> d < |plans| && !shapeDirty[d]
        invariant forall d :: 0 <= d < |plans| && shapeDirty[d] ==> shapes[d]
        invariant forall d :: 0 <= d < |plans| && !shapes[d] ==> tensors[d] == held[d]
        invariant if stack == [] then c in visited else stack[0] == c
        decreases Cost(stack, waiting)
        modifies this`shapeDirty, this`dirty, this`tensors
      {
        var last := |stack| - 1;
        var cache := stack[last];
        SearchTop(plans, visited, stack, waiting);
        PlanOf(nodes, plans, cache);
        if !shapeDirty[cache] {
          CostFalls(stack, waiting);
          SearchPop(plans, visited, stack, waiting);
          visited, stack, waiting := visited + {cache}, stack[..last], waiting[..last];
          continue;
        }
        if !(plans[cache].inputs <= visited) {
          CostTop(stack, waiting);
          ghost var before, waits := stack, waiting;
          stack, waiting := PushInputs(stack, plans[cache].inputs, waiting[last := true], cache);
          SearchPush(plans, visited, before, waits, plans[cache].inputs, stack, waiting);
        } else {
          CostFalls(stack, waiting);
          SearchPop(plans, visited, stack, waiting);
          visited, stack, waiting := visited + {cache}, stack[..last], waiting[..last];
          ResizeImpl(cache);
        }
      }
      Relaid(nodes, content, plans, dirty, shapes, held, tensors);
      ValidWhole();
    }

    /** Lays out the session of one cache. */
    method ResizeImpl(c: nat)
      requires |shapeDirty| == |dirty| == |tensors| == |plans| && c < |plans| && shapeDirty[c]
      requires ShapesFirst(dirty, shapeDirty)
      modifies this`shapeDirty, this`dirty, this`tensors
      ensures shapeDirty == old(shapeDirty)[c := false] && dirty == old(dirty) && ShapesFirst(dirty, shapeDirty)
      ensures |tensors| == |plans| && forall d :: 0 <= d < |plans| && d != c ==> tensors[d] == old(tensors)[d]
    {
      shapeDirty := shapeDirty[c := false];
      var anything: seq<Tensor> := *;
      tensors := tensors[c := anything];
      dirty := dirty[c := true];
    }

    /** Brings cache `c` up to date: every session that has to be run for it is run once, after the sessions
        that it reads from, and no other; nothing is marked dirty again. `failed` is the cache whose session failed to
        run, which ends it. */
    method Compute(c: nat) returns (ok: bool, ghost failed: Option<nat>, ghost runs: seq<nat>)
      requires Valid() && c < |plans|
      modifies this`shapeDirty, this`dirty, this`tensors, this`attempts
      ensures Valid() && (ok ==> !dirty[c])
      ensures ok <==> Ready(plans, unwritten, c) && failed.None?
      ensures Progress(old(dirty), dirty, runs)
      ensures Tried(fault, plans, c, old(attempts), attempts, runs, failed)
    {
      hide *;
      ValidParts();
      failed, runs := None, [];
      ghost var start := attempts;
      ProgressNone(dirty);
      TriedNone(fault, plans, c, attempts);
      ok := Check(c);
      if !ok { return; }
      var stack: seq<nat>, visited: set<nat> := [c], {};
      ghost var waiting, marks := [false], dirty;
      SearchStart(plans, c);
      CleanNone(dirty, shapeDirty);
      while stack != []
        invariant Valid() && |dirty| == |plans| == |shapeDirty|
        invariant Searching(plans, visited, stack, waiting) && |waiting| == |stack|
        invariant Clean(visited, dirty, shapeDirty) && Progress(marks, dirty, runs)
        invariant ok && Tried(fault, plans, c, start, attempts, runs, None) && AllBehind(plans, c, stack)
        invariant if stack == [] then c in visited else stack[0] == c
        decreases Cost(stack, waiting)
        modifies this`shapeDirty, this`dirty, this`tensors, this`attempts
      {
        var last := |stack| - 1;
        var cache := stack[last];
        SearchTop(plans, visited, stack, waiting);
        BehindTop(plans, c, stack);
        Prepare(cache, visited);
        if !dirty[cache] {
          CostFalls(stack, waiting);
          SearchPop(plans, visited, stack, waiting);
          CleanMore(visited, dirty, shapeDirty, cache);
          CleanSame(dirty, cache);
          visited, stack, waiting := visited + {cache}, stack[..last], waiting[..last];
          continue;
        }
        if !(plans[cache].inputs <= visited) {
          CostTop(stack, waiting);
          ghost var before, waits := stack, waiting;
          stack, waiting := PushInputs(stack, plans[cache].inputs, waiting[last := true], cache);
          SearchPush(plans, visited, before, waits, plans[cache].inputs, stack, waiting);
          BehindPushed(plans, c, before, cache, stack);
        } else {
          CostFalls(stack, waiting);
          SearchPop(plans, visited, stack, waiting);
          CleanInputs(visited, dirty, shapeDirty, plans[cache].inputs);
          CleanMore(visited, dirty, shapeDirty, cache);
          ProgressMore(marks, dirty, runs, cache);
          visited, stack, waiting := visited + {cache}, stack[..last], waiting[..last];
          ok := Refresh(cache);
          TriedMore(fault, plans, c, start, attempts - 1, runs, cache);
          if !ok {
            failed := Some(cache);
            return;
          }
          runs := runs + [cache];
        }
      }
      CleanInputs(visited, dirty, shapeDirty, {c});
    }

    /** Lays out the session of `c` if that is needed; the visited caches stay as they are. */
    method Prepare(c: nat, ghost visited: set<nat>)
      requires Valid() && c < |plans| && Clean(visited, dirty, shapeDirty)
      modifies this`shapeDirty, this`dirty, this`tensors
      ensures Valid() && dirty == old(dirty) && Clean(visited, dirty, shapeDirty)
      ensures |dirty| == |shapeDirty| == |plans| && !shapeDirty[c]
      ensures forall d :: d in plans[c].inputs ==> d < c
    {
      hide *;
      ValidParts();
      PlanOf(nodes, plans, c);
      if shapeDirty[c] {
        Resize(c);
        ValidParts();
        CleanStays(visited, dirty, old(shapeDirty), shapeDirty);
      }
    }

    /** Runs the session of a dirty cache; it is clean if the run does not fail. */
    method Refresh(c: nat) returns (ok: bool)
      requires Valid() && c < |plans| == |dirty| == |shapeDirty| && dirty[c] && !shapeDirty[c]
      requires forall d :: d in plans[c].inputs ==> d < |dirty| && !dirty[d]
      modifies this`dirty, this`tensors, this`attempts
      ensures Valid() && dirty == if ok then old(dirty)[c := false] else old(dirty)
      ensures attempts == old(attempts) + 1 && (ok <==> !Faulty(fault, old(attempts), plans[c]))
    {
      hide *;
      ValidParts();
      ok := Run(c);
      Rerun(nodes, content, plans, dirty, shapeDirty, old(tensors), tensors, c, ok);
      if ok { dirty := dirty[c := false]; }
      ValidWhole();
    }

    /** Reads an output of an expression. What is returned is the recursive evaluation of the expression on
        what the leaves hold now. Nothing is returned only if an input leaf behind the expression's
        cache has not been written or a session failed to run. */
    method Read(o: Operand) returns (r: Option<Tensor>, ghost failed: Option<nat>)
      requires Valid() && o.node < |nodes| && o.index < Outputs(nodes[o.node])
      modifies this`cacheOf, this`offset, this`plans, this`shapeDirty, this`dirty, this`tensors, this`attempts
      ensures Valid()
      ensures r.Some? ==> r.value == Value(nodes, content, o)
      ensures r.Some? ==> forall l: nat :: l < |nodes| && nodes[l] == Leaf(true)
                                           && (l == o.node || DependsOn(nodes, o.node, l)) ==>
                            !unwritten[l]
      ensures nodes[o.node].Leaf? ==> (r.Some? <==> !(nodes[o.node].input && unwritten[o.node]))
      ensures nodes[o.node].Apply? ==> cacheOf[o.node].Some?
                                       && (r.Some? <==> Ready(plans, unwritten, cacheOf[o.node].value) && failed.None?)
      ensures nodes[o.node].Apply? && failed.Some? ==>
                Blamed(fault, plans, cacheOf[o.node].value, old(attempts), attempts, failed.value)
      ensures nodes[o.node].Apply? && r.None? && failed.None? ==>
                Waits(nodes, plans, cacheOf, unwritten, cacheOf[o.node].value)
      ensures forall n: nat :: n < |nodes| && n != o.node ==> cacheOf[n] == old(cacheOf)[n]
      ensures old(cacheOf)[o.node].Some? ==> cacheOf[o.node] == old(cacheOf)[o.node] && plans == old(plans)
    {
      hide *;
      failed := None;
      ValidParts();
      if nodes[o.node].Leaf? {
        LeafValue(nodes, content, o);
        forall l: nat ensures !DependsOn(nodes, o.node, l) { LeafDepends(nodes, o.node, l); }
        if nodes[o.node].input && unwritten[o.node] { return None, failed; }
        return Some(content[o.node]), failed;
      }
      if cacheOf[o.node].None? {
        MakeCache([o.node]);
        ValidParts();
      }
      assert o.node in [o.node];
      var cache := cacheOf[o.node].value;
      OperandTensor(nodes, plans, cacheOf, offset, o);
      var ok;
      ghost var runs;
      ghost var start := attempts;
      ok, failed, runs := Compute(cache);
      BlamedOf(fault, plans, cache, start, attempts, runs, failed);
      if !Ready(plans, unwritten, cache) { NotReadyWaits(nodes, plans, cacheOf, unwritten, cache); }
      if !ok { return None, failed; }
      ValidParts();
      CoherentAt(nodes, content, plans, dirty, tensors, cache);
      CorrectAt(nodes, content, plans[cache], tensors[cache], offset[o.node] + o.index);
      forall l: nat | l < |nodes| && nodes[l] == Leaf(true) && DependsOn(nodes, o.node, l) ensures !unwritten[l] {
        ReadyWritten(nodes, plans, unwritten, cache, offset[o.node] + o.index, l);
      }
      r := Some(tensors[cache][offset[o.node] + o.index]);
    }

    /** Makes one cache for all the expressions among `vars` that have none. */
    method PrepareCompute(vars: seq<nat>)
      requires Valid() && forall p :: 0 <= p < |vars| ==> vars[p] < |nodes|
      modifies this`visited, this`cacheOf, this`offset, this`plans, this`shapeDirty, this`dirty, this`tensors
      ensures Valid()
      ensures forall p :: 0 <= p < |vars| && nodes[vars[p]].Apply? ==> cacheOf[vars[p]].Some?
      ensures forall n: nat :: n < |nodes| && old(cacheOf)[n].Some? ==> cacheOf[n] == old(cacheOf)[n]
      ensures old(plans) <= plans && |plans| <= |old(plans)| + 1
    {
      hide *;
      ValidParts();
      var exprs: seq<nat> := [];
      for p := 0 to |vars|
        invariant forall q :: 0 <= q < |exprs| ==>
                                exprs[q] < |nodes| && nodes[exprs[q]].Apply? && cacheOf[exprs[q]].None?
        invariant forall n: nat :: n in exprs <==> n in visited
        invariant forall n: nat :: n in exprs <==> n in vars[..p] && nodes[n].Apply? && cacheOf[n].None?
        modifies this`visited
      {
        assert vars[..p + 1] == vars[..p] + [vars[p]];
        var v := vars[p];
        if nodes[v].Apply? && v !in visited && cacheOf[v].None? {
          visited := visited + {v};
          exprs := exprs + [v];
        }
      }
      assert vars[..|vars|] == vars;
      visited := {};
      ValidWhole();
      if exprs != [] { MakeCache(exprs); }
    }

    /** Brings the caches of all the expressions among `vars` up to date, after making one cache for those that
        have none. */
    method ComputeAll(vars: seq<nat>)
      requires Valid() && forall p :: 0 <= p < |vars| ==> vars[p] < |nodes|
      modifies this`visited, this`cacheOf, this`offset, this`plans, this`shapeDirty, this`dirty, this`tensors,
      this`attempts
      ensures Valid()
      ensures forall p :: 0 <= p < |vars| && nodes[vars[p]].Apply? ==> cacheOf[vars[p]].Some?
      ensures forall n: nat :: n < |nodes| && old(cacheOf)[n].Some? ==> cacheOf[n] == old(cacheOf)[n]
      ensures forall p :: 0 <= p < |vars| && nodes[vars[p]].Apply? ==>
                Settled(fault, plans, unwritten, dirty, cacheOf[vars[p]].value, old(attempts), attempts)
    {
      hide *;
      ValidParts();
      PrepareCompute(vars);
      ValidParts();
      ghost var start := attempts;
      for p := 0 to |vars|
        invariant Valid() && |dirty| == |plans| && start <= attempts
        invariant forall q :: 0 <= q < p && nodes[vars[q]].Apply? ==>
                    Settled(fault, plans, unwritten, dirty, cacheOf[vars[q]].value, start, attempts)
        modifies this`shapeDirty, this`dirty, this`tensors, this`attempts
      {
        ValidParts();
        CacheBound(cacheOf, |dirty|, vars[p]);
        if nodes[vars[p]].Apply? && cacheOf[vars[p]].Some? {
          var ok;
          ghost var failed, runs;
          var c := cacheOf[vars[p]].value;
          ghost var before, tried := dirty, attempts;
          ok, failed, runs := Compute(c);
          ValidParts();
          BlamedOf(fault, plans, c, tried, attempts, runs, failed);
          SettledNow(fault, plans, unwritten, dirty, c, start, tried, attempts, failed);
          forall q | 0 <= q < p && nodes[vars[q]].Apply?
            ensures Settled(fault, plans, unwritten, dirty, cacheOf[vars[q]].value, start, attempts)
          {
            SettledStays(fault, plans, unwritten, before, dirty, runs, cacheOf[vars[q]].value, start, tried, attempts);
          }
        }
      }
    }
  }

  // ---- failing ----

  /** Run number `t`, of the session of `plan`, fails at some operator. */
  ghost predicate Faulty(fault: nat -> nat -> bool, t: nat, plan: Plan) {
    exists k: nat :: k < |plan.pipeline| && fault(t)(k)
  }

  lemma FaultyIs(fault: nat -> nat -> bool, t: nat, plan: Plan, ok: bool)
    requires ok ==> forall k :: 0 <= k < |plan.pipeline| ==> !fault(t)(k)
    requires !ok ==> exists k: nat :: k < |plan.pipeline| && fault(t)(k)
    ensures ok <==> !Faulty(fault, t, plan)
  {
  }

  /** Cache `c` is `d` or reads it, directly or not. */
  ghost predicate UsesCache(plans: seq<Plan>, c: nat, d: nat)
    decreases c
  {
    c == d || (c < |plans| && exists e :: e in plans[c].inputs && e < c && UsesCache(plans, e, d))
  }

  lemma {:induction false} UsesNext(plans: seq<Plan>, c: nat, d: nat, e: nat)
    requires UsesCache(plans, c, d) && d < |plans| && e in plans[d].inputs && e < d
    ensures UsesCache(plans, c, e)
    decreases c
  {
    if c != d {
      var x :| x in plans[c].inputs && x < c && UsesCache(plans, x, d);
      UsesNext(plans, x, d, e);
    } else {
      assert UsesCache(plans, e, e);
    }
  }

  ghost predicate AllBehind(plans: seq<Plan>, c: nat, stack: seq<nat>) {
    forall p :: 0 <= p < |stack| ==> UsesCache(plans, c, stack[p])
  }

  lemma BehindTop(plans: seq<Plan>, c: nat, stack: seq<nat>)
    requires AllBehind(plans, c, stack) && stack != []
    ensures UsesCache(plans, c, stack[|stack| - 1]) && AllBehind(plans, c, stack[..|stack| - 1])
  {
    hide UsesCache;
  }

  lemma BehindPushed(plans: seq<Plan>, c: nat, stack: seq<nat>, cache: nat, r: seq<nat>)
    requires AllBehind(plans, c, stack) && stack <= r && cache < |plans| && UsesCache(plans, c, cache)
    requires forall d :: d in plans[cache].inputs <==> d in r[|stack|..]
    requires forall d :: d in plans[cache].inputs ==> d < cache
    ensures AllBehind(plans, c, r)
  {
    forall p | 0 <= p < |r| ensures UsesCache(plans, c, r[p]) {
      if p >= |stack| {
        assert r[p] == r[|stack|..][p - |stack|] && r[p] in r[|stack|..];
        UsesNext(plans, c, cache, r[p]);
      } else {
        assert r[p] == stack[p];
      }
    }
  }

  /** The runs since run number `from` were those of the caches `runs`, which `c` uses, none of which failed; and of
      cache `failed`, which did. */
  ghost predicate Tried(fault: nat -> nat -> bool, plans: seq<Plan>, c: nat, from: nat, until: nat, runs: seq<nat>,
      failed: Option<nat>)
  {
    && until == from + |runs| + (if failed.Some? then 1 else 0)
    && (forall j :: 0 <= j < |runs| ==>
          runs[j] < |plans| && UsesCache(plans, c, runs[j]) && !Faulty(fault, from + j, plans[runs[j]]))
    && (failed.Some? ==> failed.value < |plans| && UsesCache(plans, c, failed.value)
                         && Faulty(fault, from + |runs|, plans[failed.value]))
  }

  lemma TriedNone(fault: nat -> nat -> bool, plans: seq<Plan>, c: nat, from: nat)
    ensures Tried(fault, plans, c, from, from, [], None) && AllBehind(plans, c, [c])
  {
  }

  lemma TriedMore(fault: nat -> nat -> bool, plans: seq<Plan>, c: nat, from: nat, until: nat, runs: seq<nat>, d: nat)
    requires Tried(fault, plans, c, from, until, runs, None) && d < |plans| && UsesCache(plans, c, d)
    ensures if Faulty(fault, until, plans[d]) then Tried(fault, plans, c, from, until + 1, runs, Some(d))
            else Tried(fault, plans, c, from, until + 1, runs + [d], None)
  {
    hide UsesCache, Faulty;
  }

  /** An input leaf has not been written on which a target of `c`, or of a cache that it uses, depends. */
  ghost predicate Waits(nodes: Nodes, plans: seq<Plan>, cacheOf: seq<Option<nat>>, unwritten: seq<bool>, c: nat)
    requires Acyclic(nodes) && |cacheOf| == |unwritten| == |nodes|
  {
    exists d: nat, l: nat :: UsesCache(plans, c, d) && WaitsFor(nodes, cacheOf, unwritten, d, l)
  }

  ghost predicate WaitsFor(nodes: Nodes, cacheOf: seq<Option<nat>>, unwritten: seq<bool>, d: nat, l: nat)
    requires Acyclic(nodes) && |cacheOf| == |unwritten| == |nodes|
  {
    l < |nodes| && nodes[l] == Leaf(true) && unwritten[l] && HasDependent(nodes, cacheOf, d, l)
  }

  /** A cache that is not ready waits for such a leaf. */
  lemma {:induction false} NotReadyWaits(nodes: Nodes, plans: seq<Plan>, cacheOf: seq<Option<nat>>,
      unwritten: seq<bool>, c: nat)
    requires Acyclic(nodes) && |cacheOf| == |unwritten| == |nodes| && AllPlans(nodes, plans) && c < |plans|
    requires AllSourced(nodes, plans, cacheOf) && !Ready(plans, unwritten, c)
    ensures Waits(nodes, plans, cacheOf, unwritten, c)
    decreases c
  {
    hide Acyclic, HasDependent, AllPlans, ReadsFrom;
    PlanOf(nodes, plans, c);
    assert PlanSourced(nodes, plans[c], cacheOf, c);
    if l :| l in plans[c].leaves && unwritten[l] {
      assert UsesCache(plans, c, c) && WaitsFor(nodes, cacheOf, unwritten, c, l);
    } else {
      var e :| e in plans[c].inputs && !Ready(plans, unwritten, e);
      NotReadyWaits(nodes, plans, cacheOf, unwritten, e);
      var d: nat, l: nat :| UsesCache(plans, e, d) && WaitsFor(nodes, cacheOf, unwritten, d, l);
      assert UsesCache(plans, c, d);
    }
  }

  /** Between these runs there was one of the session of `d`, which `c` uses, and it failed. */
  ghost predicate Blamed(fault: nat -> nat -> bool, plans: seq<Plan>, c: nat, from: nat, until: nat, d: nat) {
    d < |plans| && UsesCache(plans, c, d) && exists t: nat :: from <= t < until && Faulty(fault, t, plans[d])
  }

  lemma BlamedOf(fault: nat -> nat -> bool, plans: seq<Plan>, c: nat, from: nat, until: nat, runs: seq<nat>,
      failed: Option<nat>)
    requires Tried(fault, plans, c, from, until, runs, failed)
    ensures failed.Some? ==> Blamed(fault, plans, c, from, until, failed.value)
    ensures from <= until
  {
    hide UsesCache, Faulty;
  }

  /** A cache is clean, or not ready, or a session that it uses has failed to run. */
  ghost predicate Settled(fault: nat -> nat -> bool, plans: seq<Plan>, unwritten: seq<bool>, dirty: seq<bool>, c: nat,
      from: nat, until: nat)
  {
    && c < |dirty| == |plans|
    && (!dirty[c] || !Ready(plans, unwritten, c) || exists d: nat :: Blamed(fault, plans, c, from, until, d))
  }

  lemma SettledNow(fault: nat -> nat -> bool, plans: seq<Plan>, unwritten: seq<bool>, dirty: seq<bool>, c: nat,
      from: nat, tried: nat, until: nat, failed: Option<nat>)
    requires c < |dirty| == |plans| && from <= tried <= until
    requires failed.Some? ==> Blamed(fault, plans, c, tried, until, failed.value)
    requires !dirty[c] || !Ready(plans, unwritten, c) || failed.Some?
    ensures Settled(fault, plans, unwritten, dirty, c, from, until)
  {
    hide UsesCache, Faulty, Ready;
    if failed.Some? { assert Blamed(fault, plans, c, from, until, failed.value); }
  }

  lemma SettledStays(fault: nat -> nat -> bool, plans: seq<Plan>, unwritten: seq<bool>, before: seq<bool>,
      dirty: seq<bool>, runs: seq<nat>, c: nat, from: nat, tried: nat, until: nat)
    requires Settled(fault, plans, unwritten, before, c, from, tried) && tried <= until && Progress(before, dirty, runs)
    ensures Settled(fault, plans, unwritten, dirty, c, from, until)
  {
    hide UsesCache, Faulty, Ready;
    ProgressClean(before, dirty, runs);
    if d: nat :| Blamed(fault, plans, c, from, tried, d) { assert Blamed(fault, plans, c, from, until, d); }
  }

  lemma ProgressClean(before: seq<bool>, dirty: seq<bool>, runs: seq<nat>)
    requires Progress(before, dirty, runs)
    ensures |dirty| == |before| && forall c: nat :: c < |dirty| && !before[c] ==> !dirty[c]
  {
  }

  lemma SameSizes(nodes: Nodes, to: Links)
    requires Linked(nodes, to)
    ensures |to| == |nodes|
  {
  }

  lemma FirstIs(inputs: seq<Operand>, n: nat, i: nat)
    requires i < |inputs|
    ensures i < FirstOperand(inputs, n) ==> inputs[i].node != n
    ensures i == FirstOperand(inputs, n) ==> inputs[i].node == n
  {
  }

  lemma FirstNeeded(nodes: Nodes, n: nat, e: nat)
    requires e < |nodes| && nodes[e].Apply? && Placed(nodes, e) && FirstOperand(nodes[e].inputs, n) < |nodes[e].inputs|
    ensures |nodes[e].needs| == |nodes[e].inputs|
    ensures GoesOn(nodes[e], n) <==> nodes[e].needs[FirstOperand(nodes[e].inputs, n)]
  {
  }

  lemma MarkTwice(node: Node, n: nat, e: nat, m: Marks)
    ensures e in Mark(node, n, e, m).visited
    ensures Mark(node, n, e, Mark(node, n, e, m)) == Mark(node, n, e, m)
  {
  }

  lemma VisitStep(nodes: Nodes, to: Links, n: nat, k: nat, m: Marks)
    requires Acyclic(nodes) && Linked(nodes, to) && n < |nodes| && k < |to[n]|
    ensures var e := to[n][k];
            n < e < |nodes| &&
            Visit(nodes, to, n, k, m) == Visit(nodes, to, n, k + 1,
              if e !in m.visited && GoesOn(nodes[e], n) then Visit(nodes, to, e, 0, Mark(nodes[e], n, e, m))
              else Mark(nodes[e], n, e, m))
  {
    UserIsLater(nodes, to, n, to[n][k]);
  }

  lemma VisitLast(nodes: Nodes, to: Links, n: nat, m: Marks)
    requires Acyclic(nodes) && Linked(nodes, to) && n < |nodes|
    ensures Visit(nodes, to, n, |to[n]|, m) == m
  {
  }

  /** A target of cache `c` depends on leaf `l`. */
  ghost predicate HasDependent(nodes: Nodes, cacheOf: seq<Option<nat>>, c: nat, l: nat)
    requires Acyclic(nodes) && |cacheOf| == |nodes|
  {
    exists n: nat :: n < |nodes| && cacheOf[n] == Some(c) && DependsOn(nodes, n, l)
  }

  lemma MarkedExactly(nodes: Nodes, to: Links, before: seq<bool>, cacheOf: seq<Option<nat>>, l: nat, dirty: seq<bool>)
    requires Acyclic(nodes) && Linked(nodes, to) && Straight(nodes, l) && |cacheOf| == |nodes| && l < |nodes|
    requires Marked(before, cacheOf, Informed(nodes, to, l), dirty)
    ensures |dirty| == |before|
    ensures forall c: nat :: c < |dirty| ==>
              (dirty[c] <==> before[c] || HasDependent(nodes, cacheOf, c, l))
  {
    hide Acyclic, Linked, Straight, Informed, DependsOn;
    forall n: nat | n < |nodes| ensures n in Informed(nodes, to, l) <==> DependsOn(nodes, n, l) {
      InformedExactly(nodes, to, l, n);
    }
    forall c: nat | c < |dirty|
      ensures HitCache(cacheOf, Informed(nodes, to, l), c) <==> HasDependent(nodes, cacheOf, c, l)
    {
      if n: nat :| n < |nodes| && cacheOf[n] == Some(c) && DependsOn(nodes, n, l) {
        assert n in Informed(nodes, to, l);
      }
    }
  }

  lemma ShapesStay(before: seq<bool>, dirty: seq<bool>, shapeDirty: seq<bool>, cacheOf: seq<Option<nat>>, hit: set<nat>)
    requires ShapesFirst(before, shapeDirty) && Marked(before, cacheOf, hit, dirty)
    ensures ShapesFirst(dirty, shapeDirty)
  {
  }

  // ---- adding an expression ----

  predicate NewNode(nodes: Nodes, node: Node) {
    node.Apply? ==>
      && |node.needs| == |node.inputs|
      && (forall i :: 0 <= i < |node.inputs| ==>
            node.inputs[i].node < |nodes| && node.inputs[i].index < Outputs(nodes[node.inputs[i].node]))
  }

  lemma NewInputs(nodes: Nodes, node: Node)
    requires NewNode(nodes, node)
    ensures node.Apply? ==> forall i :: 0 <= i < |node.inputs| ==> node.inputs[i].node < |nodes|
  {
  }

  /** The links once the first `i` operands know the new expression. */
  ghost predicate LinksUpTo(nodes: Nodes, links: Links, inputs: seq<Operand>, i: nat, to: Links) {
    && |links| == |nodes| && |to| == |nodes| + 1 && i <= |inputs| && to[|nodes|] == []
    && forall n: nat, e: nat :: n < |nodes| ==>
         (e in to[n] <==> e in links[n] || (e == |nodes| && exists j :: 0 <= j < i && inputs[j].node == n))
  }

  lemma LinksBegin(nodes: Nodes, node: Node, links: Links, inputs: seq<Operand>)
    requires |links| == |nodes|
    ensures LinksUpTo(nodes, links, inputs, 0, links + [[]])
  {
  }

  lemma LinksMore(nodes: Nodes, links: Links, inputs: seq<Operand>, i: nat, to: Links, x: nat)
    requires LinksUpTo(nodes, links, inputs, i, to) && i < |inputs| && inputs[i].node == x < |nodes|
    ensures |to| == |nodes| + 1
    ensures LinksUpTo(nodes, links, inputs, i + 1, to[x := to[x] + [|nodes|]])
  {
    forall n: nat, e: nat | n < |nodes|
      ensures e in to[x := to[x] + [|nodes|]][n]
              <==> e in links[n] || (e == |nodes| && exists j :: 0 <= j < i + 1 && inputs[j].node == n)
    {
      assert e in to[n] <==> e in links[n] || (e == |nodes| && exists j :: 0 <= j < i && inputs[j].node == n);
    }
  }

  lemma LinksEnd(nodes: Nodes, node: Node, links: Links, inputs: seq<Operand>, to: Links)
    requires Acyclic(nodes) && Linked(nodes, links) && LinksUpTo(nodes, links, inputs, |inputs|, to)
    requires NewNode(nodes, node) && inputs == if node.Apply? then node.inputs else []
    ensures Linked(nodes + [node], to)
  {
    hide Acyclic;
    var more := nodes + [node];
    forall n: nat, e: nat | n < |more| ensures e in to[n] <==> e < |more| && Uses(more[e], n) {
      if n < |nodes| {
        assert e in to[n] <==> e in links[n] || (e == |nodes| && exists j :: 0 <= j < |inputs| && inputs[j].node == n);
      } else if e < |nodes| {
        NotUsedBefore(nodes, e);
      }
    }
  }

  lemma NotUsedBefore(nodes: Nodes, e: nat)
    requires Acyclic(nodes) && e < |nodes|
    ensures !Uses(nodes[e], |nodes|)
  {
    assert Placed(nodes, e);
  }

  lemma GraphMore(nodes: Nodes, node: Node)
    requires Acyclic(nodes) && NewNode(nodes, node)
    ensures Acyclic(nodes + [node])
  {
    var more := nodes + [node];
    forall n: nat | n < |more| ensures Placed(more, n) {
      if n < |nodes| { assert Placed(nodes, n); }
    }
  }

  lemma TargetsExtended(nodes: Nodes, more: Nodes, plans: seq<Plan>, cacheOf: seq<Option<nat>>,
      caches: seq<Option<nat>>, offset: seq<nat>, offsets: seq<nat>)
    requires Targets(nodes, plans, cacheOf, offset) && nodes <= more && |more| == |nodes| + 1
    requires caches == cacheOf + [None] && offsets == offset + [0]
    ensures Targets(more, plans, caches, offsets)
  {
    hide HasOutputs;
  }

  lemma AnchoredExtended(nodes: Nodes, more: Nodes, plans: seq<Plan>, cacheOf: seq<Option<nat>>,
      caches: seq<Option<nat>>)
    requires Acyclic(nodes) && Acyclic(more) && |cacheOf| == |nodes| && |caches| == |more|
    requires nodes <= more && cacheOf <= caches && Anchored(nodes, plans, cacheOf)
    ensures Anchored(more, plans, caches)
  {
    hide Acyclic, HasTarget;
    forall c: nat, t | c < |plans| && 0 <= t < |plans[c].tensors|
      ensures HasTarget(more, caches, c, plans[c].tensors[t].node)
    {
      TargetExtended(nodes, more, cacheOf, caches, c, plans[c].tensors[t].node);
    }
  }

  // ---- making a cache ----

  lemma IsOpen(w: World, n: nat)
    requires n < |w.nodes| && n < |w.cacheOf| && w.cacheOf[n].None?
    ensures w.nodes[n].Apply? ==> Open(w, n)
  {
  }

  lemma SoundOf(w: World)
    requires Acyclic(w.nodes) && Targets(w.nodes, w.plans, w.cacheOf, w.offset)
    ensures Sound(w)
  {
  }

  lemma TargetsOpen(w: World, targets: seq<nat>, dst: map<nat, Option<nat>>)
    requires (forall q :: 0 <= q < |targets| ==> Open(w, targets[q])) && forall e :: e in dst <==> e in targets
    ensures forall e :: e in dst ==> e < |w.nodes| && e < |w.cacheOf| && w.nodes[e].Apply? && w.cacheOf[e].None?
  {
    forall e | e in dst ensures Open(w, e) { assert e in targets; }
  }

  lemma ToldNone(cacheOf: seq<Option<nat>>, offset: seq<nat>, dst: map<nat, Option<nat>>, c: nat)
    requires |offset| == |cacheOf|
    ensures Told(cacheOf, offset, dst - dst.Keys, c, cacheOf, offset)
  {
  }

  lemma ToldMore(cacheOf: seq<Option<nat>>, offset: seq<nat>, dst: map<nat, Option<nat>>, rest: set<nat>, c: nat,
                 caches: seq<Option<nat>>, offsets: seq<nat>, e: nat)
    requires Told(cacheOf, offset, dst - rest, c, caches, offsets)
    requires e in rest && rest <= dst.Keys && e < |cacheOf| && dst[e].Some?
    ensures |caches| == |offsets| == |cacheOf|
    ensures Told(cacheOf, offset, dst - (rest - {e}), c, caches[e := Some(c)], offsets[e := dst[e].value])
  {
  }

  lemma ToldIs(cacheOf: seq<Option<nat>>, offset: seq<nat>, dst: map<nat, Option<nat>>, c: nat,
      caches: seq<Option<nat>>, offsets: seq<nat>)
    requires Told(cacheOf, offset, dst, c, caches, offsets)
    ensures |caches| == |offsets| == |cacheOf| == |offset|
    ensures forall n: nat :: n < |cacheOf| ==>
              if n in dst then caches[n] == Some(c) else caches[n] == cacheOf[n] && offsets[n] == offset[n]
  {
  }

  /** Everything stays valid when a cache is added. */
  lemma WorldMore(w: World, content: seq<Tensor>, dirty: seq<bool>, shapeDirty: seq<bool>, tensors: seq<seq<Tensor>>,
                  targets: seq<nat>, dst: map<nat, Option<nat>>, plan: Plan, caches: seq<Option<nat>>,
                  offsets: seq<nat>)
    requires Acyclic(w.nodes) && |content| == |w.cacheOf| == |w.nodes| && AllPlans(w.nodes, w.plans)
    requires Targets(w.nodes, w.plans, w.cacheOf, w.offset) && Anchored(w.nodes, w.plans, w.cacheOf)
    requires ShapesFirst(dirty, shapeDirty) && Coherent(w.nodes, content, w.plans, dirty, tensors)
    requires PlanFor(w.nodes, w.plans, plan) && Told(w.cacheOf, w.offset, dst, |w.plans|, caches, offsets)
    requires |caches| == |w.nodes|
    requires forall e :: e in dst <==> e in targets
    requires forall e :: e in dst ==> e < |w.nodes| && w.nodes[e].Apply? && w.cacheOf[e].None?
    requires forall e :: e in dst ==> dst[e].Some? && HasOutputs(w.nodes[e], e, plan.tensors, dst[e].value)
    requires forall t :: 0 <= t < |plan.tensors| ==> Fed(w, targets, plan.tensors[t].node)
    ensures AllPlans(w.nodes, w.plans + [plan]) && Targets(w.nodes, w.plans + [plan], caches, offsets)
    ensures Anchored(w.nodes, w.plans + [plan], caches) && ShapesFirst(dirty + [true], shapeDirty + [true])
    ensures Coherent(w.nodes, content, w.plans + [plan], dirty + [true], tensors + [[]])
  {
    hide *;
    PlansMore(w.nodes, w.plans, plan);
    TargetsMore(w.nodes, w.plans, plan, w.cacheOf, w.offset, dst, caches, offsets);
    AnchoredMore(w.nodes, w.plans, plan, w.cacheOf, w.offset, dst, caches, offsets, w, targets);
    CoherentMore(w.nodes, content, w.plans, dirty, tensors, plan);
    ShapesMore(dirty, shapeDirty);
  }

  lemma SourcedAgain(w: World, targets: seq<nat>, dst: map<nat, Option<nat>>, plan: Plan, caches: seq<Option<nat>>,
      offsets: seq<nat>)
    requires Acyclic(w.nodes) && |w.cacheOf| == |caches| == |w.nodes| && Linearise.Sourced(w, targets, plan)
    requires AllSourced(w.nodes, w.plans, w.cacheOf) && Told(w.cacheOf, w.offset, dst, |w.plans|, caches, offsets)
    requires forall e :: e in dst <==> e in targets
    requires forall e :: e in dst ==> e < |w.nodes| && w.nodes[e].Apply? && w.cacheOf[e].None?
    ensures AllSourced(w.nodes, w.plans + [plan], caches)
  {
    hide Acyclic, AllSourced, Linearise.Sourced;
    forall n: nat | n < |w.nodes| && w.cacheOf[n].Some? ensures caches[n] == w.cacheOf[n] { assert n !in dst; }
    forall p | 0 <= p < |targets| && targets[p] < |w.nodes| ensures caches[targets[p]] == Some(|w.plans|) {
      assert targets[p] in targets;
    }
    SourcedStays(w.nodes, w.plans, w.cacheOf, w.nodes, caches);
    SourcedWith(w, targets, plan, caches, |w.plans|);
  }

  lemma ShapesMore(dirty: seq<bool>, shapeDirty: seq<bool>)
    requires ShapesFirst(dirty, shapeDirty)
    ensures ShapesFirst(dirty + [true], shapeDirty + [true])
  {
  }

  // ---- running ----

  lemma PlanOf(nodes: Nodes, plans: seq<Plan>, c: nat)
    requires AllPlans(nodes, plans) && c < |plans|
    ensures PlanFor(nodes, plans[..c], plans[c])
    ensures forall d :: d in plans[c].inputs ==> d < c
    ensures forall l :: l in plans[c].leaves ==> l < |nodes|
  {
    assert PlanFor(nodes, plans[..c], plans[c]);
    hide EntryFor, Written;
  }

  lemma FirstStart(nodes: Nodes, plan: Plan)
    ensures Written(nodes, plan.pipeline, 0) == 0
  {
  }

  lemma LastStart(nodes: Nodes, plans: seq<Plan>, plan: Plan)
    requires PlanFor(nodes, plans, plan)
    ensures |plan.tensors| == Written(nodes, plan.pipeline, |plan.pipeline|)
  {
    hide EntryFor, Written;
  }

  lemma CorrectOf(nodes: Nodes, content: seq<Tensor>, plan: Plan, outs: seq<Tensor>)
    requires Acyclic(nodes) && |content| == |nodes| && |outs| == |plan.tensors|
    requires forall t :: 0 <= t < |outs| ==> outs[t] == Value(nodes, content, plan.tensors[t])
    ensures Correct(nodes, content, plan, outs)
  {
    hide Acyclic, Value;
  }

  lemma PushedBound(stack: seq<nat>, r: seq<nat>, inputs: set<nat>, n: nat)
    requires stack <= r && (forall p :: 0 <= p < |stack| ==> stack[p] < n)
    requires (forall d :: d in inputs ==> d < n) && forall d :: d in inputs <==> d in r[|stack|..]
    ensures forall p :: 0 <= p < |r| ==> r[p] < n
  {
    forall p | |stack| <= p < |r| ensures r[p] < n { assert r[p] == r[|stack|..][p - |stack|] && r[p] in r[|stack|..]; }
  }

  /** The caches run so far are those that were dirty and no longer are, each of them once. */
  ghost predicate Progress(marks: seq<bool>, dirty: seq<bool>, runs: seq<nat>) {
    && |dirty| == |marks|
    && (forall d :: 0 <= d < |dirty| && dirty[d] ==> marks[d])
    && (forall d: nat :: d in runs <==> d < |dirty| && marks[d] && !dirty[d])
    && (forall j, k :: 0 <= j < k < |runs| ==> runs[j] != runs[k])
  }

  lemma ProgressNone(dirty: seq<bool>)
    ensures Progress(dirty, dirty, [])
  {
  }

  lemma ProgressMore(marks: seq<bool>, dirty: seq<bool>, runs: seq<nat>, c: nat)
    requires Progress(marks, dirty, runs) && c < |dirty| && dirty[c]
    ensures Progress(marks, dirty[c := false], runs + [c])
  {
    assert c !in runs;
  }

  /** Visited caches are up to date. */
  ghost predicate Clean(visited: set<nat>, dirty: seq<bool>, shapeDirty: seq<bool>) {
    forall d :: d in visited ==> d < |dirty| && d < |shapeDirty| && !dirty[d] && !shapeDirty[d]
  }

  lemma CleanMore(visited: set<nat>, dirty: seq<bool>, shapeDirty: seq<bool>, c: nat)
    requires Clean(visited, dirty, shapeDirty) && c < |dirty| == |shapeDirty| && !shapeDirty[c]
    ensures Clean(visited + {c}, dirty[c := false], shapeDirty)
  {
  }

  lemma CleanStays(visited: set<nat>, dirty: seq<bool>, shapeDirty: seq<bool>, next: seq<bool>)
    requires Clean(visited, dirty, shapeDirty) && |next| == |shapeDirty|
    requires forall d :: 0 <= d < |next| && next[d] ==> shapeDirty[d]
    ensures Clean(visited, dirty, next)
  {
  }

  lemma CleanInputs(visited: set<nat>, dirty: seq<bool>, shapeDirty: seq<bool>, inputs: set<nat>)
    requires Clean(visited, dirty, shapeDirty) && inputs <= visited
    ensures forall d :: d in inputs ==> d < |dirty| && !dirty[d]
  {
  }

  lemma CleanNone(dirty: seq<bool>, shapeDirty: seq<bool>)
    ensures Clean({}, dirty, shapeDirty)
  {
  }

  lemma CleanSame(dirty: seq<bool>, c: nat)
    requires c < |dirty| && !dirty[c]
    ensures dirty[c := false] == dirty
  {
  }

  lemma ReadyAlone(plans: seq<Plan>, unwritten: seq<bool>, c: nat)
    ensures AllReady(plans, unwritten, [c]) <==> Ready(plans, unwritten, c)
  {
    assert [c][0] == c;
  }

  lemma NoneReady(plans: seq<Plan>, unwritten: seq<bool>)
    ensures AllReady(plans, unwritten, [])
  {
  }

  lemma NotReady(plans: seq<Plan>, unwritten: seq<bool>, stack: seq<nat>, c: nat)
    requires c < |plans|
    ensures (exists l :: l in plans[c].leaves && l < |unwritten| && unwritten[l]) ==>
              !AllReady(plans, unwritten, stack + [c])
  {
    assert (stack + [c])[|stack|] == c;
  }

  /** Laying out sessions of dirty caches keeps clean ones correct. */
  lemma Relaid(nodes: Nodes, content: seq<Tensor>, plans: seq<Plan>, dirty: seq<bool>, shapes: seq<bool>,
               held: seq<seq<Tensor>>, tensors: seq<seq<Tensor>>)
    requires Acyclic(nodes) && |content| == |nodes| && Coherent(nodes, content, plans, dirty, held)
    requires ShapesFirst(dirty, shapes)
    requires |tensors| == |plans| && forall d :: 0 <= d < |plans| && d < |shapes| && !shapes[d] && d < |held| ==>
                                                   tensors[d] == held[d]
    ensures Coherent(nodes, content, plans, dirty, tensors)
  {
    hide Acyclic, Correct;
  }

  /** So does running the session of a dirty cache, and after a run without failure it is correct itself. */
  lemma Rerun(nodes: Nodes, content: seq<Tensor>, plans: seq<Plan>, dirty: seq<bool>, shapeDirty: seq<bool>,
              held: seq<seq<Tensor>>, tensors: seq<seq<Tensor>>, c: nat, ok: bool)
    requires Acyclic(nodes) && |content| == |nodes| && Coherent(nodes, content, plans, dirty, held)
    requires ShapesFirst(dirty, shapeDirty) && c < |dirty| && dirty[c] && !shapeDirty[c]
    requires |dirty| == |plans| == |tensors| == |held| && forall d :: 0 <= d < |plans| && d != c ==>
              tensors[d] == held[d]
    requires ok ==> Correct(nodes, content, plans[c], tensors[c])
    ensures Coherent(nodes, content, plans, dirty, tensors)
    ensures ok ==> Coherent(nodes, content, plans, dirty[c := false], tensors)
                   && ShapesFirst(dirty[c := false], shapeDirty)
  {
    hide Acyclic, Correct;
  }

  lemma LeafValue(nodes: Nodes, content: seq<Tensor>, o: Operand)
    requires Acyclic(nodes) && |content| == |nodes| && o.node < |nodes| && o.index < Outputs(nodes[o.node])
    ensures nodes[o.node].Leaf? ==> Value(nodes, content, o) == content[o.node]
  {
    hide Acyclic;
  }

  lemma OperandTensor(nodes: Nodes, plans: seq<Plan>, cacheOf: seq<Option<nat>>, offset: seq<nat>, o: Operand)
    requires Targets(nodes, plans, cacheOf, offset)
    requires o.node < |nodes| && o.index < Outputs(nodes[o.node]) && cacheOf[o.node].Some?
    ensures var c := cacheOf[o.node].value;
            c < |plans| && offset[o.node] + o.index < |plans[c].tensors|
            && plans[c].tensors[offset[o.node] + o.index] == o
  {
    assert HasOutputs(nodes[o.node], o.node, plans[cacheOf[o.node].value].tensors, offset[o.node]);
  }

  lemma CorrectAt(nodes: Nodes, content: seq<Tensor>, plan: Plan, tensors: seq<Tensor>, t: nat)
    requires Acyclic(nodes) && |content| == |nodes| && Correct(nodes, content, plan, tensors) && t < |plan.tensors|
    ensures t < |tensors| && tensors[t] == Value(nodes, content, plan.tensors[t])
  {
    hide Acyclic, Value;
  }

  // ---- what readiness means for a value ----

  /** Every tensor of a session is an output of one of its operators. */
  lemma {:induction false} EntryOf(nodes: Nodes, plans: seq<Plan>, plan: Plan, t: nat, j: nat) returns (k: nat)
    requires PlanFor(nodes, plans, plan) && j <= |plan.pipeline| && t < Written(nodes, plan.pipeline, j)
    ensures k < |plan.pipeline| && t < |plan.tensors| && plan.pipeline[k].node == plan.tensors[t].node
  {
    hide *;
    FirstStart(nodes, plan);
    EntryNode(nodes, plans, plan, j - 1);
    if t < plan.pipeline[j - 1].start {
      k := EntryOf(nodes, plans, plan, t, j - 1);
    } else {
      k := j - 1;
      EntryOutputs(nodes, plans, plan, k, t - plan.pipeline[k].start);
    }
  }

  lemma EntryOutputs(nodes: Nodes, plans: seq<Plan>, plan: Plan, k: nat, i: nat)
    requires PlanFor(nodes, plans, plan) && k < |plan.pipeline| && EntryFor(nodes, plans, plan, plan.pipeline[k])
    requires plan.pipeline[k].node < |nodes| && i < Outputs(nodes[plan.pipeline[k].node])
    ensures plan.pipeline[k].start + i < |plan.tensors|
    ensures plan.tensors[plan.pipeline[k].start + i].node == plan.pipeline[k].node
  {
    hide PlanFor, SourceFor;
    assert plan.tensors[plan.pipeline[k].start + i] == Operand(plan.pipeline[k].node, i);
  }

  lemma SourceAt(nodes: Nodes, plans: seq<Plan>, plan: Plan, e: Entry, i: nat)
    requires EntryFor(nodes, plans, plan, e) && i < |e.args| && nodes[e.node].needs[i]
    ensures i < |nodes[e.node].inputs| && SourceFor(nodes, plans, plan, e.start, nodes[e.node].inputs[i], e.args[i])
  {
    hide SourceFor;
  }

  lemma ReadyAt(plans: seq<Plan>, unwritten: seq<bool>, c: nat)
    requires Ready(plans, unwritten, c)
    ensures c < |plans| && (forall l :: l in plans[c].leaves ==> l < |unwritten| && !unwritten[l])
    ensures forall d :: d in plans[c].inputs ==> d < c && Ready(plans, unwritten, d)
  {
  }

  lemma DependsAt(nodes: Nodes, n: nat, l: nat) returns (i: nat)
    requires Acyclic(nodes) && n < |nodes| && DependsOn(nodes, n, l)
    ensures nodes[n].Apply? && i < |nodes[n].inputs| == |nodes[n].needs| && nodes[n].needs[i]
    ensures nodes[n].inputs[i].node < n
    ensures nodes[n].inputs[i].node == l || DependsOn(nodes, nodes[n].inputs[i].node, l)
  {
    assert Placed(nodes, n);
    i :| 0 <= i < |nodes[n].inputs| && nodes[n].needs[i]
         && (nodes[n].inputs[i].node == l || DependsOn(nodes, nodes[n].inputs[i].node, l));
  }

  /** A ready cache computes nothing from an input leaf that has not been written. */
  lemma {:induction false} ReadyWritten(nodes: Nodes, plans: seq<Plan>, unwritten: seq<bool>, c: nat, t: nat, l: nat)
    requires Acyclic(nodes) && AllPlans(nodes, plans) && Ready(plans, unwritten, c) && c < |plans|
    requires t < |plans[c].tensors| && plans[c].tensors[t].node < |nodes|
    requires DependsOn(nodes, plans[c].tensors[t].node, l)
    requires l < |nodes| && nodes[l] == Leaf(true)
    ensures l < |unwritten| && !unwritten[l]
    decreases if t < |plans[c].tensors| then plans[c].tensors[t].node else 0, 1
  {
    hide *;
    var n := plans[c].tensors[t].node;
    PlanOf(nodes, plans, c);
    ReadyAt(plans, unwritten, c);
    LastStart(nodes, plans[..c], plans[c]);
    var k := EntryOf(nodes, plans[..c], plans[c], t, |plans[c].pipeline|);
    EntryNode(nodes, plans[..c], plans[c], k);
    var e := plans[c].pipeline[k];
    var i := DependsAt(nodes, n, l);
    EntryArgs(nodes, plans[..c], plans[c], e);
    SourceAt(nodes, plans[..c], plans[c], e, i);
    SourceCases(nodes, plans[..c], plans[c], e.start, nodes[n].inputs[i], e.args[i]);
    LeafDepends(nodes, nodes[n].inputs[i].node, l);
    match e.args[i]
    case FromLeaf(_) =>
    case FromCache(d, u) => ReadyNext(nodes, plans, unwritten, d, u, n, l);
    case Own(u) => ReadyNext(nodes, plans, unwritten, c, u, n, l);
    case Unread =>
  }

  lemma ReadyNext(nodes: Nodes, plans: seq<Plan>, unwritten: seq<bool>, c: nat, t: nat, n: nat, l: nat)
    requires Acyclic(nodes) && AllPlans(nodes, plans) && Ready(plans, unwritten, c) && c < |plans|
    requires t < |plans[c].tensors| && plans[c].tensors[t].node < n && n < |nodes|
    requires plans[c].tensors[t].node == l || DependsOn(nodes, plans[c].tensors[t].node, l)
    requires l < |nodes| && nodes[l] == Leaf(true)
    ensures l < |unwritten| && !unwritten[l]
    decreases n, 0
  {
    hide *;
    PlanTensor(nodes, plans, c, t);
    ReadyWritten(nodes, plans, unwritten, c, t, l);
  }

  lemma EntryArgs(nodes: Nodes, plans: seq<Plan>, plan: Plan, e: Entry)
    requires EntryFor(nodes, plans, plan, e)
    ensures e.node < |nodes| && nodes[e.node].Apply? && |e.args| == |nodes[e.node].inputs| == |nodes[e.node].needs|
  {
    hide SourceFor;
  }

  lemma SourceCases(nodes: Nodes, plans: seq<Plan>, plan: Plan, start: nat, o: Operand, s: Source)
    requires SourceFor(nodes, plans, plan, start, o, s)
    ensures match s
            case FromLeaf(l) => l == o.node && l < |nodes| && nodes[l].Leaf? && (nodes[l].input ==> l in plan.leaves)
            case FromCache(d, t) => d in plan.inputs && d < |plans| && t < |plans[d].tensors|
            && plans[d].tensors[t] == o
            case Own(t) => t < |plan.tensors| && plan.tensors[t] == o
            case Unread => false
  {
  }

  lemma LeafDepends(nodes: Nodes, n: nat, l: nat)
    requires Acyclic(nodes) && n < |nodes|
    ensures nodes[n].Leaf? ==> !DependsOn(nodes, n, l)
  {
  }
}
