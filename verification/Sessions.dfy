/**
What express/Executor.cpp compiles a set of expressions into: a pipeline of operators with the
tensors they read and write. A cache keeps one such session; it may read the tensors of caches
that were made before it.
 */
module Sessions {
  import opened Wrappers
  import opened ExprGraph

  /** Where an operator in a pipeline reads an operand. */
  datatype Source =
    | FromLeaf(node: nat)
    | FromCache(cache: nat, tensor: nat)
    | Own(tensor: nat)
    | Unread

  /** One operator of a pipeline; its outputs are the tensors from `start` on. */
  datatype Entry = Entry(node: nat, args: seq<Source>, start: nat)

  /** The fixed part of a ComputeCache: the pipeline, which output every tensor of the session is for,
      the caches that are read (mInputs) and the input leaves that are read (mInputInside). */
  datatype Plan = Plan(pipeline: seq<Entry>, tensors: seq<Operand>, inputs: set<nat>, leaves: set<nat>)

  // ---- what makes a plan right ----

  /** Source `s` of an operator whose outputs begin at `start` is for operand `o`. */
  ghost predicate SourceFor(nodes: Nodes, plans: seq<Plan>, plan: Plan, start: nat, o: Operand, s: Source) {
    match s
    case FromLeaf(l) => l == o.node && l < |nodes| && nodes[l].Leaf? && (nodes[l].input ==> l in plan.leaves)
    case FromCache(d, t) => d in plan.inputs && d < |plans| && t < |plans[d].tensors| && plans[d].tensors[t] == o
    case Own(t) => t < start && t < |plan.tensors| && plan.tensors[t] == o
    case Unread => false
  }

  ghost predicate EntryFor(nodes: Nodes, plans: seq<Plan>, plan: Plan, e: Entry) {
    && e.node < |nodes| && nodes[e.node].Apply?
    && |e.args| == |nodes[e.node].inputs| == |nodes[e.node].needs|
    && e.start + nodes[e.node].op.outputs <= |plan.tensors|
    && (forall i :: 0 <= i < nodes[e.node].op.outputs ==> plan.tensors[e.start + i] == Operand(e.node, i))
    && (forall i :: 0 <= i < |e.args| ==>
          if nodes[e.node].needs[i] then SourceFor(nodes, plans, plan, e.start, nodes[e.node].inputs[i], e.args[i])
          else e.args[i] == Unread)
  }

  /** The number of tensors that the first `k` operators write. */
  ghost function Written(nodes: Nodes, pipeline: seq<Entry>, k: nat): nat
    requires k <= |pipeline|
  {
    if k == 0 then 0
    else pipeline[k - 1].start + if pipeline[k - 1].node < |nodes| then Outputs(nodes[pipeline[k - 1].node]) else 0
  }

  /** The tensors belong to the operators in order, and only earlier caches are read. */
  ghost predicate PlanFor(nodes: Nodes, plans: seq<Plan>, plan: Plan) {
    && (forall k :: 0 <= k < |plan.pipeline| ==> EntryFor(nodes, plans, plan, plan.pipeline[k]))
    && (forall k :: 0 <= k < |plan.pipeline| ==> plan.pipeline[k].start == Written(nodes, plan.pipeline, k))
    && |plan.tensors| == Written(nodes, plan.pipeline, |plan.pipeline|)
    && (forall t :: 0 <= t < |plan.tensors| ==>
          && plan.tensors[t].node < |nodes| && nodes[plan.tensors[t].node].Apply?
          && plan.tensors[t].index < Outputs(nodes[plan.tensors[t].node]))
    && (forall d :: d in plan.inputs ==> d < |plans|)
    && (forall l :: l in plan.leaves ==> l < |nodes|)
  }

  ghost predicate AllPlans(nodes: Nodes, plans: seq<Plan>) {
    forall c: nat :: c < |plans| ==> PlanFor(nodes, plans[..c], plans[c])
  }

  /** The tensors of a session hold the values of the outputs that they are for. */
  ghost predicate Correct(nodes: Nodes, content: seq<Tensor>, plan: Plan, tensors: seq<Tensor>)
    requires Acyclic(nodes) && |content| == |nodes|
  {
    |tensors| == |plan.tensors| && forall t :: 0 <= t < |tensors| ==>
                                                 tensors[t] == Value(nodes, content, plan.tensors[t])
  }

  /** A clean cache stores correct values. */
  ghost predicate Coherent(nodes: Nodes, content: seq<Tensor>, plans: seq<Plan>, dirty: seq<bool>,
      tensors: seq<seq<Tensor>>)
    requires Acyclic(nodes) && |content| == |nodes|
  {
    |dirty| == |plans| == |tensors|
    && forall c: nat :: c < |plans| && !dirty[c] ==> Correct(nodes, content, plans[c], tensors[c])
  }

  /** Every target knows its tensors. */
  ghost predicate Targets(nodes: Nodes, plans: seq<Plan>, cacheOf: seq<Option<nat>>, offset: seq<nat>) {
    && |cacheOf| == |offset| == |nodes|
    && forall n: nat :: n < |nodes| && cacheOf[n].Some? ==>
         && cacheOf[n].value < |plans| && nodes[n].Apply?
         && HasOutputs(nodes[n], n, plans[cacheOf[n].value].tensors, offset[n])
  }

  /** The outputs of expression `n` are the tensors from `offset` on. */
  ghost predicate HasOutputs(node: Node, n: nat, tensors: seq<Operand>, offset: nat) {
    && offset + Outputs(node) <= |tensors|
    && forall i: nat :: i < Outputs(node) ==> tensors[offset + i] == Operand(n, i)
  }

  /** Expression `n` is `target` or takes part in its value. */
  ghost predicate Feeds(nodes: Nodes, target: nat, n: nat)
    requires Acyclic(nodes)
  {
    target < |nodes| && (target == n || DependsOn(nodes, target, n))
  }

  /** Everything that a cache computes is for one of its targets. */
  ghost predicate Anchored(nodes: Nodes, plans: seq<Plan>, cacheOf: seq<Option<nat>>)
    requires Acyclic(nodes) && |cacheOf| == |nodes|
  {
    forall c: nat, t :: c < |plans| && 0 <= t < |plans[c].tensors| ==>
      HasTarget(nodes, cacheOf, c, plans[c].tensors[t].node)
  }

  ghost predicate HasTarget(nodes: Nodes, cacheOf: seq<Option<nat>>, c: nat, n: nat)
    requires Acyclic(nodes) && |cacheOf| == |nodes|
  {
    exists target: nat :: target < |nodes| && cacheOf[target] == Some(c) && Feeds(nodes, target, n)
  }

  /** All input leaves that a cache reads, or that the caches it reads from read, have been written. */
  ghost predicate Ready(plans: seq<Plan>, unwritten: seq<bool>, c: nat)
    decreases c
  {
    c < |plans|
    && (forall l :: l in plans[c].leaves ==> l < |unwritten| && !unwritten[l])
    && (forall d :: d in plans[c].inputs ==> d < c && Ready(plans, unwritten, d))
  }

  // ---- running ----

  /** The argument that an operator gets from a source. */
  function Fetch(content: seq<Tensor>, tensors: seq<seq<Tensor>>, outs: seq<Tensor>, s: Source): Tensor {
    match s
    case FromLeaf(l) => if l < |content| then content[l] else []
    case FromCache(d, t) => if d < |tensors| && t < |tensors[d]| then tensors[d][t] else []
    case Own(t) => if t < |outs| then outs[t] else []
    case Unread => []
  }

  lemma FetchIsValue(nodes: Nodes, content: seq<Tensor>, plans: seq<Plan>, plan: Plan, tensors: seq<seq<Tensor>>,
                     outs: seq<Tensor>, o: Operand, s: Source)
    requires Acyclic(nodes) && |content| == |nodes| && |tensors| >= |plans|
    requires SourceFor(nodes, plans, plan, |outs|, o, s) && o.node < |nodes| && o.index < Outputs(nodes[o.node])
    requires forall d :: d in plan.inputs ==> d < |plans| && Correct(nodes, content, plans[d], tensors[d])
    requires |outs| <= |plan.tensors| && forall t :: 0 <= t < |outs| ==>
                                                       outs[t] == Value(nodes, content, plan.tensors[t])
    ensures Fetch(content, tensors, outs, s) == Value(nodes, content, o)
  {
    match s
    case FromLeaf(l) =>
    case FromCache(d, t) => assert Correct(nodes, content, plans[d], tensors[d]);
    case Own(t) =>
    case Unread =>
  }

  /** One operator of the pipeline computes the outputs of its expression. */
  lemma EntryComputes(nodes: Nodes, content: seq<Tensor>, plans: seq<Plan>, plan: Plan, tensors: seq<seq<Tensor>>,
                      outs: seq<Tensor>, e: Entry, args: seq<Tensor>)
    requires Acyclic(nodes) && |content| == |nodes| && |tensors| >= |plans|
    requires EntryFor(nodes, plans, plan, e) && e.start == |outs|
    requires forall d :: d in plan.inputs ==> d < |plans| && Correct(nodes, content, plans[d], tensors[d])
    requires |outs| <= |plan.tensors| && forall t :: 0 <= t < |outs| ==>
                                                       outs[t] == Value(nodes, content, plan.tensors[t])
    requires |args| == |e.args| && forall i :: 0 <= i < |args| ==> args[i] == Fetch(content, tensors, outs, e.args[i])
    ensures var more := outs + Results(nodes[e.node].op, args);
            && |more| == e.start + nodes[e.node].op.outputs <= |plan.tensors|
            && forall t :: 0 <= t < |more| ==> more[t] == Value(nodes, content, plan.tensors[t])
  {
    assert Placed(nodes, e.node);
    var node := nodes[e.node];
    hide Acyclic, Correct, Fetch, SourceFor, Results, Placed;
    var expected := Args(nodes, content, e.node, |node.inputs|);
    forall i | 0 <= i < |args| ensures args[i] == expected[i] {
      ArgIs(nodes, content, plans, plan, tensors, outs, e, i);
    }
    assert args == expected;
    forall t | |outs| <= t < |outs| + node.op.outputs
      ensures (outs + Results(node.op, args))[t] == Value(nodes, content, plan.tensors[t])
    {
      assert plan.tensors[e.start + (t - e.start)] == Operand(e.node, t - e.start);
    }
  }

  lemma ArgIs(nodes: Nodes, content: seq<Tensor>, plans: seq<Plan>, plan: Plan, tensors: seq<seq<Tensor>>,
              outs: seq<Tensor>, e: Entry, i: nat)
    requires Acyclic(nodes) && |content| == |nodes| && |tensors| >= |plans|
    requires EntryFor(nodes, plans, plan, e) && e.start == |outs| && i < |e.args| && Placed(nodes, e.node)
    requires forall d :: d in plan.inputs ==> d < |plans| && Correct(nodes, content, plans[d], tensors[d])
    requires |outs| <= |plan.tensors| && forall t :: 0 <= t < |outs| ==>
                                                       outs[t] == Value(nodes, content, plan.tensors[t])
    ensures Fetch(content, tensors, outs, e.args[i]) == Args(nodes, content, e.node, |nodes[e.node].inputs|)[i]
  {
    hide Acyclic, Correct, SourceFor, Args, Eval;
    var node := nodes[e.node];
    ArgsAt(nodes, content, e.node, |node.inputs|, i);
    if node.needs[i] {
      FetchIsValue(nodes, content, plans, plan, tensors, outs, node.inputs[i], e.args[i]);
    }
  }
}
