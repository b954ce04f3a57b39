/**
The depth-first search with which express/Executor.cpp turns expressions into a pipeline: an
operator is appended once all its operands are leaves, tensors of existing caches or outputs of
operators that have been appended before.
 */
module Linearise {
  import opened Wrappers
  import opened ExprGraph
  import opened Sessions

  /** The expressions as they are when a cache is made. */
  datatype World = World(nodes: Nodes, plans: seq<Plan>, cacheOf: seq<Option<nat>>, offset: seq<nat>)

  ghost predicate Sound(w: World) {
    Acyclic(w.nodes) && Targets(w.nodes, w.plans, w.cacheOf, w.offset)
  }

  /** An expression that must be computed: an operator without a cache. */
  predicate Open(w: World, n: nat) {
    n < |w.nodes| && n < |w.cacheOf| && w.nodes[n].Apply? && w.cacheOf[n].None?
  }

  /** The search: the stack, of which the first `low` elements are targets that have not been looked
      at, where every expression was appended, the targets' offsets and the plan so far. */
  datatype State = State(stack: seq<nat>, low: nat, done: map<nat, nat>, dst: map<nat, Option<nat>>, plan: Plan)

  // ---- invariants ----

  ghost predicate Fed(w: World, targets: seq<nat>, n: nat)
    requires Acyclic(w.nodes)
  {
    exists p :: 0 <= p < |targets| && Feeds(w.nodes, targets[p], n)
  }

  ghost predicate FedBelow(w: World, targets: seq<nat>, n: nat)
    requires Acyclic(w.nodes)
  {
    exists p :: 0 <= p < |targets| && targets[p] < |w.nodes| && DependsOn(w.nodes, targets[p], n)
  }

  /** Above the targets there is one descending chain of expressions that wait for each other. */
  ghost predicate StackOk(w: World, targets: seq<nat>, s: State)
    requires Acyclic(w.nodes)
  {
    && s.low <= |s.stack| && s.low <= |targets| && s.stack[..s.low] == targets[..s.low]
    && (forall p :: 0 <= p < |s.stack| ==> Open(w, s.stack[p]) && Fed(w, targets, s.stack[p]))
    && (forall p :: s.low <= p < |s.stack| ==> s.stack[p] !in s.done && FedBelow(w, targets, s.stack[p]))
    && (forall p, q :: 0 <= p < q < |s.stack| && s.low <= p + 1 ==> s.stack[q] < s.stack[p])
  }

  ghost predicate Appended(w: World, targets: seq<nat>, s: State)
    requires Acyclic(w.nodes)
  {
    && PlanFor(w.nodes, w.plans, s.plan)
    && (forall x :: x in s.done ==> s.done[x] < |s.plan.pipeline| && s.plan.pipeline[s.done[x]].node == x)
    && (forall k :: 0 <= k < |s.plan.pipeline| ==> s.plan.pipeline[k].node in s.done)
    && (forall t :: 0 <= t < |s.plan.tensors| ==> Fed(w, targets, s.plan.tensors[t].node))
  }

  ghost predicate OffsetsOk(w: World, targets: seq<nat>, s: State) {
    && (forall e :: e in s.dst <==> e in targets)
    && (forall e :: e in s.dst && s.dst[e].Some? ==>
                      e < |w.nodes| && HasOutputs(w.nodes[e], e, s.plan.tensors, s.dst[e].value))
    && (forall e :: e in s.dst && s.dst[e].None? ==> e in s.stack[..if s.low <= |s.stack| then s.low else 0])
  }

  /** No target is given twice or takes part in another one's value. */
  ghost predicate Apart(w: World, targets: seq<nat>)
    requires Acyclic(w.nodes)
  {
    && (forall p, q :: 0 <= p < q < |targets| ==> targets[p] != targets[q])
    && (forall p, q :: 0 <= p < |targets| && 0 <= q < |targets| && targets[p] < |w.nodes| ==>
          !DependsOn(w.nodes, targets[p], targets[q]))
  }

  /** No expression is computed twice. */
  ghost predicate Once(pipeline: seq<Entry>) {
    forall j, k :: 0 <= j < k < |pipeline| ==> pipeline[j].node != pipeline[k].node
  }

  ghost predicate OnceOk(w: World, targets: seq<nat>, s: State)
    requires Acyclic(w.nodes)
  {
    Apart(w, targets) ==> Once(s.plan.pipeline) && forall p :: 0 <= p < s.low && p < |s.stack| ==> s.stack[p] !in s.done
  }

  ghost predicate Building(w: World, targets: seq<nat>, s: State) {
    Sound(w) && StackOk(w, targets, s) && Appended(w, targets, s) && OffsetsOk(w, targets, s) && OnceOk(w, targets, s)
  }

  // ---- the steps ----

  lemma TargetFed(w: World, targets: seq<nat>, p: nat)
    requires Acyclic(w.nodes) && p < |targets| && Open(w, targets[p])
    ensures Fed(w, targets, targets[p])
  {
    hide Acyclic, DependsOn;
    assert Feeds(w.nodes, targets[p], targets[p]);
  }

  lemma EmptyPlan(w: World)
    ensures PlanFor(w.nodes, w.plans, Plan([], [], {}, {}))
  {
  }

  lemma BuildStart(w: World, targets: seq<nat>, dst: map<nat, Option<nat>>)
    requires Sound(w) && forall p :: 0 <= p < |targets| ==> Open(w, targets[p])
    requires forall e :: e in dst <==> e in targets
    requires forall e :: e in dst ==> dst[e].None?
    ensures Building(w, targets, State(targets, |targets|, map[], dst, Plan([], [], {}, {})))
  {
    hide Acyclic, Targets, DependsOn, HasOutputs, Fed, FedBelow, Open, PlanFor, Apart;
    var s := State(targets, |targets|, map[], dst, Plan([], [], {}, {}));
    assert s.stack[..s.low] == targets;
    forall p | 0 <= p < |targets| ensures Fed(w, targets, targets[p]) { TargetFed(w, targets, p); }
    EmptyPlan(w);
  }

  /** An operand that is not ready goes on top of its user. */
  lemma StackPush(w: World, targets: seq<nat>, s: State, x: nat)
    requires Acyclic(w.nodes) && StackOk(w, targets, s) && s.stack != []
    requires x < s.stack[|s.stack| - 1] && Open(w, x) && x !in s.done && Fed(w, targets, x) && FedBelow(w, targets, x)
    ensures StackOk(w, targets, s.(stack := s.stack + [x]))
  {
    hide Acyclic, Fed, FedBelow, Open;
    assert (s.stack + [x])[..s.low] == s.stack[..s.low];
  }

  lemma OperandFed(w: World, targets: seq<nat>, e: nat, i: nat)
    requires Acyclic(w.nodes) && Fed(w, targets, e) && e < |w.nodes| && w.nodes[e].Apply?
    requires i < |w.nodes[e].inputs| == |w.nodes[e].needs| && w.nodes[e].needs[i]
    ensures w.nodes[e].inputs[i].node < e
    ensures Fed(w, targets, w.nodes[e].inputs[i].node) && FedBelow(w, targets, w.nodes[e].inputs[i].node)
  {
    hide Fed, FedBelow;
    assert Placed(w.nodes, e);
    assert DependsOn(w.nodes, e, w.nodes[e].inputs[i].node);
    FedThrough(w, targets, e, w.nodes[e].inputs[i].node);
  }

  lemma FedThrough(w: World, targets: seq<nat>, e: nat, x: nat)
    requires Acyclic(w.nodes) && Fed(w, targets, e) && e < |w.nodes| && x < |w.nodes| && DependsOn(w.nodes, e, x)
    ensures Fed(w, targets, x) && FedBelow(w, targets, x)
  {
    hide Acyclic, DependsOn;
    var p :| 0 <= p < |targets| && Feeds(w.nodes, targets[p], e);
    if targets[p] != e { DependsTransitive(w.nodes, targets[p], e, x); }
    assert DependsOn(w.nodes, targets[p], x);
    assert Feeds(w.nodes, targets[p], x);
  }

  lemma BuildPush(w: World, targets: seq<nat>, s: State, i: nat)
    requires Building(w, targets, s) && s.stack != []
    requires var e := s.stack[|s.stack| - 1];
             e < |w.nodes| && w.nodes[e].Apply? && i < |w.nodes[e].inputs| == |w.nodes[e].needs| && w.nodes[e].needs[i]
             && Open(w, w.nodes[e].inputs[i].node) && w.nodes[e].inputs[i].node !in s.done
    ensures Building(w, targets, s.(stack := s.stack + [w.nodes[s.stack[|s.stack| - 1]].inputs[i].node]))
  {
    hide *;
    var e := s.stack[|s.stack| - 1];
    var x := w.nodes[e].inputs[i].node;
    BuildParts(w, targets, s);
    OperandFed(w, targets, e, i);
    StackPush(w, targets, s, x);
    OffsetsPush(w, targets, s, x);
    OncePush(w, targets, s, x);
    BuildWhole(w, targets, s.(stack := s.stack + [x]));
  }

  lemma BuildParts(w: World, targets: seq<nat>, s: State)
    requires Building(w, targets, s)
    ensures Sound(w) && Acyclic(w.nodes) && StackOk(w, targets, s) && Appended(w, targets, s)
    ensures OffsetsOk(w, targets, s) && OnceOk(w, targets, s) && PlanFor(w.nodes, w.plans, s.plan)
    ensures s.low <= |s.stack|
    ensures s.stack != [] ==> Open(w, s.stack[|s.stack| - 1]) && Fed(w, targets, s.stack[|s.stack| - 1])
    ensures s.low < |s.stack| ==> s.stack[|s.stack| - 1] !in s.done
  {
    hide Acyclic, OffsetsOk, OnceOk, Open, Fed, FedBelow, PlanFor, Targets;
  }

  lemma BuildWhole(w: World, targets: seq<nat>, s: State)
    requires Sound(w) && Acyclic(w.nodes) && StackOk(w, targets, s) && Appended(w, targets, s)
    requires OffsetsOk(w, targets, s) && OnceOk(w, targets, s)
    ensures Building(w, targets, s)
  {
    hide Sound, Acyclic, StackOk, Appended, OffsetsOk, OnceOk;
  }

  lemma OffsetsPush(w: World, targets: seq<nat>, s: State, x: nat)
    requires OffsetsOk(w, targets, s) && s.low <= |s.stack|
    ensures OffsetsOk(w, targets, s.(stack := s.stack + [x]))
  {
    hide HasOutputs;
    assert (s.stack + [x])[..s.low] == s.stack[..s.low];
  }

  lemma OncePush(w: World, targets: seq<nat>, s: State, x: nat)
    requires Acyclic(w.nodes) && OnceOk(w, targets, s) && s.low <= |s.stack|
    ensures OnceOk(w, targets, s.(stack := s.stack + [x]))
    ensures (Appended(w, targets, s) ==> Appended(w, targets, s.(stack := s.stack + [x])))
  {
    hide Acyclic, Apart, Once, PlanFor, Fed;
  }

  /** Operand `i` of expression `e` can be read. */
  ghost predicate Available(w: World, done: map<nat, nat>, plan: Plan, e: nat, i: nat)
    requires e < |w.nodes| && w.nodes[e].Apply? && i < |w.nodes[e].inputs|
  {
    var x := w.nodes[e].inputs[i].node;
    && x < |w.nodes| && x < |w.cacheOf|
    && if w.nodes[x].Leaf? then w.nodes[x].input ==> x in plan.leaves
       else if w.cacheOf[x].Some? then w.cacheOf[x].value in plan.inputs
       else x in done
  }

  /** The source of operand `o`. */
  function SourceOf(w: World, done: map<nat, nat>, plan: Plan, o: Operand): Source {
    if o.node >= |w.nodes| then Unread
    else if w.nodes[o.node].Leaf? then FromLeaf(o.node)
    else if o.node < |w.cacheOf| && o.node < |w.offset| && w.cacheOf[o.node].Some?
      then FromCache(w.cacheOf[o.node].value, w.offset[o.node] + o.index)
    else if o.node in done && done[o.node] < |plan.pipeline| then Own(plan.pipeline[done[o.node]].start + o.index)
    else Unread
  }

  lemma {:induction false} WrittenBounds(nodes: Nodes, plans: seq<Plan>, plan: Plan, k: nat, j: nat)
    requires PlanFor(nodes, plans, plan) && k < j <= |plan.pipeline|
    ensures plan.pipeline[k].node < |nodes|
    ensures plan.pipeline[k].start + Outputs(nodes[plan.pipeline[k].node]) <= Written(nodes, plan.pipeline, j)
    decreases j
  {
    hide *;
    EntryNode(nodes, plans, plan, k);
    EntryNode(nodes, plans, plan, j - 1);
    if k < j - 1 { WrittenBounds(nodes, plans, plan, k, j - 1); }
  }

  lemma EntryNode(nodes: Nodes, plans: seq<Plan>, plan: Plan, k: nat)
    requires PlanFor(nodes, plans, plan) && k < |plan.pipeline|
    ensures EntryFor(nodes, plans, plan, plan.pipeline[k]) && plan.pipeline[k].start == Written(nodes, plan.pipeline, k)
    ensures plan.pipeline[k].node < |nodes| && nodes[plan.pipeline[k].node].Apply?
    ensures Outputs(nodes[plan.pipeline[k].node]) == nodes[plan.pipeline[k].node].op.outputs
    ensures |plan.tensors| == Written(nodes, plan.pipeline, |plan.pipeline|)
    ensures Written(nodes, plan.pipeline, k + 1) == plan.pipeline[k].start + Outputs(nodes[plan.pipeline[k].node])
  {
    hide SourceFor;
  }

  lemma SourceIsFor(w: World, targets: seq<nat>, s: State, e: nat, i: nat)
    requires Acyclic(w.nodes) && Targets(w.nodes, w.plans, w.cacheOf, w.offset) && |w.offset| == |w.nodes|
    requires Appended(w, targets, s) && e < |w.nodes| && w.nodes[e].Apply? && i < |w.nodes[e].inputs|
    requires Available(w, s.done, s.plan, e, i)
    ensures SourceFor(w.nodes, w.plans, s.plan, |s.plan.tensors|, w.nodes[e].inputs[i],
                      SourceOf(w, s.done, s.plan, w.nodes[e].inputs[i]))
  {
    hide Acyclic, Targets, Appended, Outputs;
    var o := w.nodes[e].inputs[i];
    OperandIs(w, e, i);
    if w.nodes[o.node].Apply? {
      if w.cacheOf[o.node].Some? {
        TargetIs(w, o);
      } else {
        OwnIs(w, targets, s, o);
      }
    }
  }

  lemma OperandIs(w: World, e: nat, i: nat)
    requires Acyclic(w.nodes) && e < |w.nodes| && w.nodes[e].Apply? && i < |w.nodes[e].inputs|
    ensures var o := w.nodes[e].inputs[i]; o.node < e && o.index < Outputs(w.nodes[o.node])
  {
    assert Placed(w.nodes, e);
  }

  lemma TargetIs(w: World, o: Operand)
    requires Targets(w.nodes, w.plans, w.cacheOf, w.offset)
    requires o.node < |w.nodes| && o.index < Outputs(w.nodes[o.node]) && w.cacheOf[o.node].Some?
    ensures w.cacheOf[o.node].value < |w.plans|
    ensures var tensors := w.plans[w.cacheOf[o.node].value].tensors;
            w.offset[o.node] + o.index < |tensors| && tensors[w.offset[o.node] + o.index] == o
  {
    assert HasOutputs(w.nodes[o.node], o.node, w.plans[w.cacheOf[o.node].value].tensors, w.offset[o.node]);
  }

  lemma OwnIs(w: World, targets: seq<nat>, s: State, o: Operand)
    requires Acyclic(w.nodes) && Appended(w, targets, s)
    requires o.node < |w.nodes| && o.index < Outputs(w.nodes[o.node]) && o.node in s.done
    ensures s.done[o.node] < |s.plan.pipeline|
    ensures var t := s.plan.pipeline[s.done[o.node]].start + o.index; t < |s.plan.tensors| && s.plan.tensors[t] == o
  {
    hide Acyclic, Fed, PlanFor;
    var k := s.done[o.node];
    EntryNode(w.nodes, w.plans, s.plan, k);
    WrittenBounds(w.nodes, w.plans, s.plan, k, |s.plan.pipeline|);
  }

  function OutputsOf(node: Node, e: nat): seq<Operand> {
    seq(Outputs(node), i requires 0 <= i < Outputs(node) => Operand(e, i))
  }

  /** The plan with expression `e` appended. */
  function WithEntry(w: World, plan: Plan, e: nat, args: seq<Source>): Plan
    requires e < |w.nodes|
  {
    plan.(pipeline := plan.pipeline + [Entry(e, args, |plan.tensors|)],
          tensors := plan.tensors + OutputsOf(w.nodes[e], e))
  }

  /** More tensors, caches and leaves do not make an entry wrong. */
  lemma EntryStays(nodes: Nodes, plans: seq<Plan>, plan: Plan, next: Plan, e: Entry)
    requires EntryFor(nodes, plans, plan, e)
    requires plan.tensors <= next.tensors && plan.inputs <= next.inputs && plan.leaves <= next.leaves
    ensures EntryFor(nodes, plans, next, e)
  {
    forall i | 0 <= i < |e.args| && nodes[e.node].needs[i]
      ensures SourceFor(nodes, plans, next, e.start, nodes[e.node].inputs[i], e.args[i])
    {
      assert SourceFor(nodes, plans, plan, e.start, nodes[e.node].inputs[i], e.args[i]);
    }
    hide SourceFor;
  }

  lemma WrittenStays(nodes: Nodes, pipeline: seq<Entry>, e: Entry, k: nat)
    requires k <= |pipeline|
    ensures Written(nodes, pipeline + [e], k) == Written(nodes, pipeline, k)
  {
  }

  lemma PlanAppend(w: World, targets: seq<nat>, s: State, e: nat, args: seq<Source>)
    requires Acyclic(w.nodes) && Targets(w.nodes, w.plans, w.cacheOf, w.offset) && |w.offset| == |w.nodes|
    requires Appended(w, targets, s) && PlanFor(w.nodes, w.plans, s.plan) && Open(w, e) && Placed(w.nodes, e)
    requires |args| == |w.nodes[e].inputs|
    requires forall i :: 0 <= i < |args| ==>
               args[i] == if w.nodes[e].needs[i] then SourceOf(w, s.done, s.plan, w.nodes[e].inputs[i]) else Unread
    requires forall i :: 0 <= i < |args| && w.nodes[e].needs[i] ==> Available(w, s.done, s.plan, e, i)
    ensures PlanFor(w.nodes, w.plans, WithEntry(w, s.plan, e, args))
  {
    hide Acyclic, Targets, Appended, SourceOf, Available, EntryFor, SourceFor;
    var plan, next := s.plan, WithEntry(w, s.plan, e, args);
    var entry := Entry(e, args, |plan.tensors|);
    forall i | 0 <= i < |args| && w.nodes[e].needs[i]
      ensures SourceFor(w.nodes, w.plans, plan, |plan.tensors|, w.nodes[e].inputs[i], args[i])
    {
      SourceIsFor(w, targets, s, e, i);
    }
    NewEntry(w, plan, e, args);
    forall k | 0 <= k < |next.pipeline|
      ensures EntryFor(w.nodes, w.plans, next, next.pipeline[k])
      ensures next.pipeline[k].start == Written(w.nodes, next.pipeline, k)
    {
      WrittenStays(w.nodes, plan.pipeline, entry, k);
      if k < |plan.pipeline| { EntryStays(w.nodes, w.plans, plan, next, plan.pipeline[k]); }
    }
  }

  lemma NewEntry(w: World, plan: Plan, e: nat, args: seq<Source>)
    requires Open(w, e) && Placed(w.nodes, e) && |args| == |w.nodes[e].inputs|
    requires forall i :: 0 <= i < |args| ==>
               if w.nodes[e].needs[i] then SourceFor(w.nodes, w.plans, plan, |plan.tensors|, w.nodes[e].inputs[i],
                                                     args[i])
               else args[i] == Unread
    ensures EntryFor(w.nodes, w.plans, WithEntry(w, plan, e, args), Entry(e, args, |plan.tensors|))
  {
  }

  /** The expression on top of the stack is appended. */
  ghost function Emitted(w: World, s: State, args: seq<Source>): State
    requires s.stack != [] && s.stack[|s.stack| - 1] < |w.nodes|
  {
    var e := s.stack[|s.stack| - 1];
    State(s.stack[..|s.stack| - 1], if s.low == |s.stack| then s.low - 1 else s.low,
          if e in s.done then s.done else s.done[e := |s.plan.pipeline|],
          if e in s.dst then s.dst[e := Some(|s.plan.tensors|)] else s.dst,
          WithEntry(w, s.plan, e, args))
  }

  lemma EmitStack(w: World, targets: seq<nat>, s: State, args: seq<Source>)
    requires Acyclic(w.nodes) && StackOk(w, targets, s) && s.stack != [] && s.stack[|s.stack| - 1] < |w.nodes|
    ensures StackOk(w, targets, Emitted(w, s, args))
  {
    hide Fed, FedBelow, WithEntry, Acyclic;
    var next := Emitted(w, s, args);
    assert next.stack[..next.low] == s.stack[..s.low][..next.low];
    assert targets[..s.low][..next.low] == targets[..next.low];
    forall p | next.low <= p < |next.stack| ensures next.stack[p] !in next.done {
      assert s.low <= p && s.stack[|s.stack| - 1] < s.stack[p];
    }
  }

  lemma EmitAppended(w: World, targets: seq<nat>, s: State, args: seq<Source>)
    requires Sound(w) && Appended(w, targets, s) && s.stack != []
    requires var e := s.stack[|s.stack| - 1];
             Open(w, e) && Placed(w.nodes, e) && Fed(w, targets, e) && |args| == |w.nodes[e].inputs|
             && (forall i :: 0 <= i < |args| ==>
                   args[i] == if w.nodes[e].needs[i] then SourceOf(w, s.done, s.plan, w.nodes[e].inputs[i]) else Unread)
             && (forall i :: 0 <= i < |args| && w.nodes[e].needs[i] ==> Available(w, s.done, s.plan, e, i))
    ensures Appended(w, targets, Emitted(w, s, args))
  {
    hide PlanFor, Fed, Available, SourceOf, Acyclic, HasOutputs, Open, Placed;
    var e := s.stack[|s.stack| - 1];
    PlanAppend(w, targets, s, e, args);
  }

  lemma EmitOffsets(w: World, targets: seq<nat>, s: State, args: seq<Source>)
    requires Acyclic(w.nodes) && StackOk(w, targets, s) && OffsetsOk(w, targets, s)
    requires s.stack != [] && s.stack[|s.stack| - 1] < |w.nodes|
    ensures OffsetsOk(w, targets, Emitted(w, s, args))
  {
    hide Fed, FedBelow, Acyclic, HasOutputs, StackOk;
    var e, next := s.stack[|s.stack| - 1], Emitted(w, s, args);
    forall t: nat, o: nat | t < |w.nodes| && HasOutputs(w.nodes[t], t, s.plan.tensors, o)
      ensures HasOutputs(w.nodes[t], t, next.plan.tensors, o)
    {
      OutputsStay(w.nodes[t], t, s.plan.tensors, next.plan.tensors, o);
    }
    OutputsAtEnd(w.nodes[e], e, s.plan.tensors);
    LowBound(w, targets, s);
    forall t | t in next.dst && next.dst[t].None? ensures t in next.stack[..next.low] {
      assert t in s.stack[..s.low] && t != e;
      StillBelow(s.stack, s.low, next.low, t);
    }
  }

  lemma LowBound(w: World, targets: seq<nat>, s: State)
    requires Acyclic(w.nodes) && StackOk(w, targets, s)
    ensures s.low <= |s.stack|
  {
    hide Acyclic, Fed, FedBelow, Open;
  }

  lemma StillBelow(stack: seq<nat>, low: nat, next: nat, t: nat)
    requires stack != [] && low <= |stack| && next == (if low == |stack| then low - 1 else low)
    requires t in stack[..low] && t != stack[|stack| - 1]
    ensures t in stack[..|stack| - 1][..next]
  {
    var p :| 0 <= p < low && stack[..low][p] == t;
    assert stack[p] == t && p < next;
    assert stack[..|stack| - 1][..next][p] == t;
  }

  lemma OutputsStay(node: Node, n: nat, tensors: seq<Operand>, more: seq<Operand>, offset: nat)
    requires HasOutputs(node, n, tensors, offset) && tensors <= more
    ensures HasOutputs(node, n, more, offset)
  {
    forall i: nat | i < Outputs(node) ensures more[offset + i] == Operand(n, i) {
      assert tensors[offset + i] == Operand(n, i);
    }
  }

  lemma OutputsAtEnd(node: Node, n: nat, tensors: seq<Operand>)
    ensures HasOutputs(node, n, tensors + OutputsOf(node, n), |tensors|)
  {
  }

  lemma EmitOnce(w: World, targets: seq<nat>, s: State, args: seq<Source>)
    requires Acyclic(w.nodes) && StackOk(w, targets, s) && Appended(w, targets, s) && OnceOk(w, targets, s)
    requires s.stack != [] && s.stack[|s.stack| - 1] < |w.nodes|
    ensures OnceOk(w, targets, Emitted(w, s, args))
  {
    hide Acyclic, Fed, PlanFor;
    var e, next := s.stack[|s.stack| - 1], Emitted(w, s, args);
    if Apart(w, targets) {
      assert e !in s.done;
      NotBelow(w, targets, s);
      hide StackOk, Apart;
    }
  }

  /** Without such targets the top of the stack is none of the targets below it. */
  lemma NotBelow(w: World, targets: seq<nat>, s: State)
    requires Acyclic(w.nodes) && StackOk(w, targets, s) && Apart(w, targets) && s.stack != []
    ensures forall p :: 0 <= p < s.low && p < |s.stack| - 1 ==> s.stack[p] != s.stack[|s.stack| - 1]
  {
    hide Acyclic, Fed;
    var e := s.stack[|s.stack| - 1];
    forall p | 0 <= p < s.low && p < |s.stack| - 1 ensures s.stack[p] != e {
      assert s.stack[..s.low][p] == targets[..s.low][p];
      if s.low < |s.stack| {
        var q :| 0 <= q < |targets| && targets[q] < |w.nodes| && DependsOn(w.nodes, targets[q], e);
      } else {
        assert s.stack[..s.low][s.low - 1] == targets[..s.low][s.low - 1];
      }
    }
  }

  lemma BuildEmit(w: World, targets: seq<nat>, s: State, args: seq<Source>)
    requires Building(w, targets, s) && s.stack != []
    requires var e := s.stack[|s.stack| - 1];
             Open(w, e) && Placed(w.nodes, e) && |args| == |w.nodes[e].inputs|
             && (forall i :: 0 <= i < |args| ==>
                   args[i] == if w.nodes[e].needs[i] then SourceOf(w, s.done, s.plan, w.nodes[e].inputs[i]) else Unread)
             && (forall i :: 0 <= i < |args| && w.nodes[e].needs[i] ==> Available(w, s.done, s.plan, e, i))
    ensures Building(w, targets, Emitted(w, s, args))
  {
    hide *;
    BuildParts(w, targets, s);
    OpenIs(w, s.stack[|s.stack| - 1]);
    EmitStack(w, targets, s, args);
    EmitAppended(w, targets, s, args);
    EmitOffsets(w, targets, s, args);
    EmitOnce(w, targets, s, args);
    BuildWhole(w, targets, Emitted(w, s, args));
  }

  // ---- the search itself ----

  /** Expression `e` reads the content of `x`. */
  ghost predicate NeedsOf(w: World, e: nat, x: nat) {
    && e < |w.nodes| && w.nodes[e].Apply? && |w.nodes[e].needs| == |w.nodes[e].inputs|
    && exists i :: 0 <= i < |w.nodes[e].inputs| && w.nodes[e].needs[i] && w.nodes[e].inputs[i].node == x
  }

  /** What is noted beyond `plan` are input leaves that `e` reads, and caches that it reads from. */
  ghost predicate NotedFor(w: World, e: nat, plan: Plan, noted: Plan) {
    && (forall l :: l in noted.leaves && l !in plan.leaves ==>
          l < |w.nodes| && w.nodes[l] == Leaf(true) && NeedsOf(w, e, l))
    && (forall d :: d in noted.inputs && d !in plan.inputs ==>
          exists x: nat :: x < |w.nodes| && x < |w.cacheOf| && w.cacheOf[x] == Some(d) && NeedsOf(w, e, x))
  }

  /** Every leaf and every cache that a plan reads is for some target. */
  ghost predicate Sourced(w: World, targets: seq<nat>, plan: Plan)
    requires Acyclic(w.nodes)
  {
    && (forall l :: l in plan.leaves ==> l < |w.nodes| && w.nodes[l] == Leaf(true) && FedBelow(w, targets, l))
    && (forall d :: d in plan.inputs ==>
          exists x: nat :: x < |w.nodes| && x < |w.cacheOf| && w.cacheOf[x] == Some(d) && FedBelow(w, targets, x))
  }

  lemma SoundParts(w: World)
    requires Sound(w)
    ensures Acyclic(w.nodes)
  {
  }

  lemma SourcedMore(w: World, targets: seq<nat>, e: nat, plan: Plan, noted: Plan)
    requires Acyclic(w.nodes) && Fed(w, targets, e) && Sourced(w, targets, plan) && NotedFor(w, e, plan, noted)
    ensures Sourced(w, targets, noted)
  {
    hide Acyclic, Fed, FedBelow;
    forall x: nat | NeedsOf(w, e, x) ensures FedBelow(w, targets, x) {
      var i :| 0 <= i < |w.nodes[e].inputs| && w.nodes[e].needs[i] && w.nodes[e].inputs[i].node == x;
      OperandFed(w, targets, e, i);
    }
    hide NeedsOf;
  }

  /** Looks through the operands of `e` for the first that is not ready, and notes what those before it read. */
  method Scan(w: World, done: map<nat, nat>, plan: Plan, e: nat) returns (next: Option<nat>, noted: Plan)
    requires Sound(w) && Open(w, e)
    requires forall d :: d in plan.inputs ==> d < |w.plans|
    requires forall l :: l in plan.leaves ==> l < |w.nodes|
    ensures noted.pipeline == plan.pipeline && noted.tensors == plan.tensors
    ensures plan.inputs <= noted.inputs && plan.leaves <= noted.leaves
    ensures forall d :: d in noted.inputs ==> d < |w.plans|
    ensures forall l :: l in noted.leaves ==> l < |w.nodes|
    ensures NotedFor(w, e, plan, noted)
    ensures next.Some? ==> next.value < |w.nodes[e].inputs| == |w.nodes[e].needs| && w.nodes[e].needs[next.value]
                           && Open(w, w.nodes[e].inputs[next.value].node) && w.nodes[e].inputs[next.value].node !in done
                           && forall i :: 0 <= i < next.value && w.nodes[e].needs[i] ==> Available(w, done, noted, e, i)
    ensures next.None? ==> |w.nodes[e].needs| == |w.nodes[e].inputs|
                           && forall i :: 0 <= i < |w.nodes[e].inputs| && w.nodes[e].needs[i] ==>
                                            Available(w, done, noted, e, i)
  {
    next, noted := None, plan;
    assert Placed(w.nodes, e);
    var inputs, req := w.nodes[e].inputs, w.nodes[e].needs;
    for i := 0 to |inputs|
      invariant noted.pipeline == plan.pipeline && noted.tensors == plan.tensors
      invariant plan.inputs <= noted.inputs && plan.leaves <= noted.leaves
      invariant forall d :: d in noted.inputs ==> d < |w.plans|
      invariant forall l :: l in noted.leaves ==> l < |w.nodes|
      invariant NotedFor(w, e, plan, noted)
      invariant forall j :: 0 <= j < i && req[j] ==> Available(w, done, noted, e, j)
    {
      if !req[i] { continue; }
      var x := inputs[i].node;
      assert NeedsOf(w, e, x);
      if w.nodes[x].Leaf? {
        if w.nodes[x].input { noted := noted.(leaves := noted.leaves + {x}); }
        continue;
      }
      if w.cacheOf[x].Some? {
        noted := noted.(inputs := noted.inputs + {w.cacheOf[x].value});
        continue;
      }
      if x in done { continue; }
      return Some(i), noted;
    }
  }

  /** The sources of all operands. */
  method Sources(w: World, done: map<nat, nat>, plan: Plan, e: nat) returns (args: seq<Source>)
    requires e < |w.nodes| && w.nodes[e].Apply? && |w.nodes[e].needs| == |w.nodes[e].inputs|
    ensures |args| == |w.nodes[e].inputs|
    ensures forall i :: 0 <= i < |args| ==>
              args[i] == if w.nodes[e].needs[i] then SourceOf(w, done, plan, w.nodes[e].inputs[i]) else Unread
  {
    hide SourceOf;
    args := [];
    for i := 0 to |w.nodes[e].inputs|
      invariant |args| == i
      invariant forall j :: 0 <= j < i ==>
                  args[j] == if w.nodes[e].needs[j] then SourceOf(w, done, plan, w.nodes[e].inputs[j]) else Unread
    {
      args := args + [if w.nodes[e].needs[i] then SourceOf(w, done, plan, w.nodes[e].inputs[i]) else Unread];
    }
  }

  /** What the search finds out about its top expression makes no invariant wrong. */
  lemma BuildNoted(w: World, targets: seq<nat>, s: State, noted: Plan)
    requires Building(w, targets, s)
    requires noted.pipeline == s.plan.pipeline && noted.tensors == s.plan.tensors
    requires s.plan.inputs <= noted.inputs && s.plan.leaves <= noted.leaves
    requires forall d :: d in noted.inputs ==> d < |w.plans|
    requires forall l :: l in noted.leaves ==> l < |w.nodes|
    ensures Building(w, targets, s.(plan := noted))
  {
    hide *;
    BuildParts(w, targets, s);
    NotedPlan(w, s.plan, noted);
    NotedRest(w, targets, s, noted);
    BuildWhole(w, targets, s.(plan := noted));
  }

  lemma NotedPlan(w: World, plan: Plan, noted: Plan)
    requires PlanFor(w.nodes, w.plans, plan) && noted.pipeline == plan.pipeline && noted.tensors == plan.tensors
    requires plan.inputs <= noted.inputs && plan.leaves <= noted.leaves
    requires forall d :: d in noted.inputs ==> d < |w.plans|
    requires forall l :: l in noted.leaves ==> l < |w.nodes|
    ensures PlanFor(w.nodes, w.plans, noted)
  {
    forall k | 0 <= k < |noted.pipeline| ensures EntryFor(w.nodes, w.plans, noted, noted.pipeline[k]) {
      EntryStays(w.nodes, w.plans, plan, noted, noted.pipeline[k]);
    }
    hide EntryFor;
  }

  lemma NotedRest(w: World, targets: seq<nat>, s: State, noted: Plan)
    requires Acyclic(w.nodes) && StackOk(w, targets, s) && Appended(w, targets, s) && OffsetsOk(w, targets, s)
    requires OnceOk(w, targets, s)
    requires noted.pipeline == s.plan.pipeline && noted.tensors == s.plan.tensors && PlanFor(w.nodes, w.plans, noted)
    ensures var next := s.(plan := noted);
            StackOk(w, targets, next) && Appended(w, targets, next) && OffsetsOk(w, targets, next)
            && OnceOk(w, targets, next)
  {
    hide Acyclic, PlanFor, Fed, FedBelow, Apart, Once, HasOutputs, Open;
  }

  lemma BuildTop(w: World, targets: seq<nat>, s: State)
    requires Building(w, targets, s) && s.stack != []
    ensures Open(w, s.stack[|s.stack| - 1]) && Placed(w.nodes, s.stack[|s.stack| - 1]) && Sound(w)
    ensures forall d :: d in s.plan.inputs ==> d < |w.plans|
    ensures forall l :: l in s.plan.leaves ==> l < |w.nodes|
    ensures s.low <= |s.stack| && (s.low < |s.stack| ==> s.stack[|s.stack| - 1] !in s.done)
    ensures forall x :: x in s.done ==> x < |w.nodes|
    ensures Fed(w, targets, s.stack[|s.stack| - 1])
  {
    hide OffsetsOk, OnceOk, Fed, FedBelow, Targets;
    forall x | x in s.done ensures x < |w.nodes| {
      assert EntryFor(w.nodes, w.plans, s.plan, s.plan.pipeline[s.done[x]]);
    }
  }

  /** What is left at the end. */
  lemma BuildEnd(w: World, targets: seq<nat>, s: State)
    requires Building(w, targets, s) && s.stack == []
    ensures PlanFor(w.nodes, w.plans, s.plan)
    ensures forall e :: e in s.dst <==> e in targets
    ensures forall e :: e in s.dst ==>
                          s.dst[e].Some? && e < |w.nodes| && HasOutputs(w.nodes[e], e, s.plan.tensors, s.dst[e].value)
    ensures forall t :: 0 <= t < |s.plan.tensors| ==> Fed(w, targets, s.plan.tensors[t].node)
    ensures Apart(w, targets) ==> Once(s.plan.pipeline)
  {
    hide PlanFor, Fed, HasOutputs, Apart, Once, Sound;
  }

  ghost function Unvisited(w: World, done: map<nat, nat>): set<nat> {
    set n: nat | n < |w.nodes| && n !in done
  }

  lemma UnvisitedLess(w: World, done: map<nat, nat>, n: nat, k: nat)
    requires n < |w.nodes| && n !in done
    ensures Unvisited(w, done[n := k]) < Unvisited(w, done)
  {
    assert n in Unvisited(w, done);
  }

  /** Linearises the operators of `targets`. Every operand in the pipeline is an earlier output, a tensor
      of an existing cache or a leaf; every target gets its offset; nothing is computed that no target
      needs, and nothing twice if no target takes part in another. */
  method MakePipeline(w: World, targets: seq<nat>) returns (plan: Plan, dst: map<nat, Option<nat>>)
    requires Sound(w) && forall p :: 0 <= p < |targets| ==> Open(w, targets[p])
    ensures PlanFor(w.nodes, w.plans, plan)
    ensures forall e :: e in dst <==> e in targets
    ensures forall e :: e in dst ==>
                          dst[e].Some? && e < |w.nodes| && HasOutputs(w.nodes[e], e, plan.tensors, dst[e].value)
    ensures forall t :: 0 <= t < |plan.tensors| ==> Fed(w, targets, plan.tensors[t].node)
    ensures Apart(w, targets) ==> Once(plan.pipeline)
    ensures Sourced(w, targets, plan)
  {
    hide Building, Sound, PlanFor, HasOutputs, Fed, Apart, Once, Open, Placed, Available, SourceOf, Emitted, FedBelow,
      NotedFor;
    dst := map e | e in targets :: None;
    plan := Plan([], [], {}, {});
    var stack: seq<nat> := targets;
    var done: map<nat, nat> := map[];
    ghost var low: nat := |targets|;
    SoundParts(w);
    BuildStart(w, targets, dst);
    while stack != []
      invariant Building(w, targets, State(stack, low, done, dst, plan))
      invariant Acyclic(w.nodes) && Sourced(w, targets, plan)
      decreases Unvisited(w, done), low, if stack == [] then 0 else stack[|stack| - 1]
    {
      ghost var before := State(stack, low, done, dst, plan);
      ghost var left := Unvisited(w, done);
      BuildTop(w, targets, before);
      var expr := stack[|stack| - 1];
      OpenIs(w, expr);
      var next, noted := Scan(w, done, plan, expr);
      BuildNoted(w, targets, before, noted);
      SourcedMore(w, targets, expr, plan, noted);
      plan := noted;
      ghost var s := State(stack, low, done, dst, plan);
      if next.Some? {
        BuildPush(w, targets, s, next.value);
        stack := stack + [w.nodes[expr].inputs[next.value].node];
        continue;
      }
      var args := Sources(w, done, plan, expr);
      BuildEmit(w, targets, s, args);
      EmittedIs(w, s, args);
      stack := stack[..|stack| - 1];
      low := if low == |stack| + 1 then low - 1 else low;
      if expr !in done {
        UnvisitedLess(w, done, expr, |plan.pipeline|);
        done := done[expr := |plan.pipeline|];
      }
      if expr in dst { dst := dst[expr := Some(|plan.tensors|)]; }
      plan := WithEntry(w, plan, expr, args);
    }
    BuildEnd(w, targets, State(stack, low, done, dst, plan));
  }

  lemma OpenIs(w: World, e: nat)
    requires Open(w, e)
    ensures e < |w.nodes| && e < |w.cacheOf| && w.nodes[e].Apply?
    ensures (Placed(w.nodes, e) ==> |w.nodes[e].needs| == |w.nodes[e].inputs|)
    ensures Placed(w.nodes, e) ==> forall i :: 0 <= i < |w.nodes[e].inputs| ==> w.nodes[e].inputs[i].node < e
  {
  }

  lemma EmittedIs(w: World, s: State, args: seq<Source>)
    requires s.stack != [] && s.stack[|s.stack| - 1] < |w.nodes|
    ensures var e := s.stack[|s.stack| - 1];
            Emitted(w, s, args) ==
            State(s.stack[..|s.stack| - 1], if s.low == |s.stack| then s.low - 1 else s.low,
                  if e in s.done then s.done else s.done[e := |s.plan.pipeline|],
                  if e in s.dst then s.dst[e := Some(|s.plan.tensors|)] else s.dst,
                  WithEntry(w, s.plan, e, args))
  {
  }
}
