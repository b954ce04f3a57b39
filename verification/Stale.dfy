/**
What a stop of the marking costs. With the operands, the needs and the numbers of outputs of any graph in which the
traversal from a leaf stops, there are operators, an order of the back links and contents with which a clean cache holds
what the expression was before the leaf was written, and not what it is.
 */
module Stale {
  import opened Wrappers
  import opened ExprGraph
  import opened Express
  import opened Marking
  import opened Sessions

  // ---- operators that show what their values depend on ----

  function Joined(args: seq<Tensor>): Tensor {
    if args == [] then [] else args[0] + Joined(args[1..])
  }

  /** Every output is all that the operator sees. */
  function Join(outputs: nat): Op {
    Op((args: seq<Tensor>) => seq(outputs, k => Joined(args)), outputs)
  }

  /** The same graph with such operators. */
  function Joining(nodes: Nodes): (r: Nodes)
    ensures |r| == |nodes|
  {
    seq(|nodes|, n requires 0 <= n < |nodes| =>
      if nodes[n].Leaf? then nodes[n] else Apply(Join(nodes[n].op.outputs), nodes[n].inputs, nodes[n].needs))
  }

  /** Everything but the operators is the same. */
  ghost predicate SameShape(nodes: Nodes, more: Nodes) {
    |more| == |nodes|
    && forall n :: 0 <= n < |nodes| ==>
         if nodes[n].Leaf? then more[n] == nodes[n]
         else more[n].Apply? && more[n].inputs == nodes[n].inputs && more[n].needs == nodes[n].needs
              && more[n].op.outputs == nodes[n].op.outputs
  }

  lemma ShapeAcyclic(nodes: Nodes, more: Nodes)
    requires Acyclic(nodes) && SameShape(nodes, more)
    ensures Acyclic(more)
  {
    forall n: nat | n < |more| ensures Placed(more, n) { assert Placed(nodes, n); }
  }

  lemma {:induction false} ShapeDepends(nodes: Nodes, more: Nodes, n: nat, l: nat)
    requires Acyclic(nodes) && Acyclic(more) && SameShape(nodes, more) && n < |nodes|
    ensures DependsOn(more, n, l) <==> DependsOn(nodes, n, l)
    decreases n
  {
    if nodes[n].Apply? {
      assert Placed(nodes, n);
      forall i | 0 <= i < |nodes[n].inputs|
        ensures DependsOn(more, nodes[n].inputs[i].node, l) <==> DependsOn(nodes, nodes[n].inputs[i].node, l)
      {
        ShapeDepends(nodes, more, nodes[n].inputs[i].node, l);
      }
    }
  }

  lemma {:induction false} JoinedEmpty(args: seq<Tensor>)
    ensures Joined(args) != [] <==> exists i :: 0 <= i < |args| && args[i] != []
  {
    if args != [] {
      JoinedEmpty(args[1..]);
      if exists i :: 0 <= i < |args| && args[i] != [] {
        var i :| 0 <= i < |args| && args[i] != [];
        if i > 0 { assert args[1..][i - 1] != []; }
      }
    }
  }

  /** If all other leaves are empty, then what is not empty is what the leaf takes part in. */
  lemma {:induction false} ShowsLeaf(nodes: Nodes, content: seq<Tensor>, n: nat, k: nat, l: nat)
    requires Acyclic(nodes) && Acyclic(Joining(nodes)) && |content| == |nodes| && n < |nodes| && k < Outputs(nodes[n])
    requires l < |nodes| && nodes[l].Leaf? && forall i :: 0 <= i < |content| && i != l ==> content[i] == []
    ensures Eval(Joining(nodes), content, n)[k] != [] <==> content[l] != [] && (n == l || DependsOn(nodes, n, l))
    decreases n
  {
    var more := Joining(nodes);
    if nodes[n].Apply? {
      assert Placed(nodes, n) && Placed(more, n);
      var node := nodes[n];
      var args := Args(more, content, n, |node.inputs|);
      forall i | 0 <= i < |node.inputs|
        ensures args[i] != [] <==>
                node.needs[i] && content[l] != []
                && (node.inputs[i].node == l || DependsOn(nodes, node.inputs[i].node, l))
      {
        ArgsAt(more, content, n, |node.inputs|, i);
        if node.needs[i] { ShowsLeaf(nodes, content, node.inputs[i].node, node.inputs[i].index, l); }
      }
      JoinedEmpty(args);
      assert Eval(more, content, n)[k] == Joined(args);
    }
  }

  // ---- a stale cache ----

  /** Cache `c` is for expression `x` and nothing else. */
  predicate OnlyTarget(cacheOf: seq<Option<nat>>, c: nat, x: nat) {
    forall n :: 0 <= n < |cacheOf| ==> (cacheOf[n] == Some(c) <==> n == x)
  }

  /** What cache `c` holds for the first output of expression `x`. */
  function Held(offset: seq<nat>, tensors: seq<seq<Tensor>>, c: nat, x: nat): Tensor {
    if c < |tensors| && x < |offset| && offset[x] < |tensors[c]| then tensors[c][offset[x]] else []
  }

  /** A correct cache holds the values of its targets. */
  lemma HeldIsValue(nodes: Nodes, content: seq<Tensor>, plans: seq<Plan>, cacheOf: seq<Option<nat>>, offset: seq<nat>,
      tensors: seq<seq<Tensor>>, c: nat, x: nat)
    requires Acyclic(nodes) && |content| == |nodes| && Targets(nodes, plans, cacheOf, offset)
    requires x < |nodes| && cacheOf[x] == Some(c) && |tensors| == |plans| && Outputs(nodes[x]) > 0
    requires Correct(nodes, content, plans[c], tensors[c])
    ensures Held(offset, tensors, c, x) == Value(nodes, content, Operand(x, 0))
  {
    hide Acyclic, Value;
    assert HasOutputs(nodes[x], x, plans[c].tensors, offset[x]);
    assert plans[c].tensors[offset[x] + 0] == Operand(x, 0);
  }

  /** A clean and correct cache of `x` is still clean after leaf `l` has been written, and what it holds is out of
      date. */
  ghost predicate OutOfDate(nodes: Nodes, content: seq<Tensor>, to: Links, l: nat, v: Tensor, x: nat, plans: seq<Plan>,
      cacheOf: seq<Option<nat>>, offset: seq<nat>, before: seq<bool>, dirty: seq<bool>, tensors: seq<seq<Tensor>>,
      c: nat)
    requires Acyclic(nodes) && Linked(nodes, to) && |content| == |nodes| && l < |nodes|
  {
    && Targets(nodes, plans, cacheOf, offset) && OnlyTarget(cacheOf, c, x) && |before| == |plans| == |tensors|
    && c < |before| && !before[c] && Correct(nodes, content, plans[c], tensors[c])
    && Marked(before, cacheOf, Informed(nodes, to, l), dirty) ==>
      !dirty[c] && Held(offset, tensors, c, x) != Value(nodes, content[l := v], Operand(x, 0))
  }

  lemma StaleWhereStopped(nodes: Nodes, l: nat, e: nat, y: nat)
    returns (more: Nodes, to: Links, x: nat, content: seq<Tensor>, v: Tensor)
    requires Acyclic(nodes) && l < |nodes| && nodes[l].Leaf? && Stops(nodes, e, y, l)
    requires forall n :: 0 <= n < |nodes| ==> Outputs(nodes[n]) > 0
    ensures SameShape(nodes, more) && Acyclic(more) && Ordered(more, to) && Linked(more, to) && |content| == |nodes|
    ensures x < |nodes|
    ensures forall plans, cacheOf, offset, before, dirty, tensors, c ::
              OutOfDate(more, content, to, l, v, x, plans, cacheOf, offset, before, dirty, tensors, c)
  {
    hide DependsOn, Linked, Ordered, Informed, Eval, OutOfDate;
    more := Joining(nodes);
    ShapeAcyclic(nodes, more);
    ShapeDepends(nodes, more, e, l);
    if y != l { ShapeDepends(nodes, more, y, l); }
    to, x := StopMissed(more, l, e, y);
    content, v := seq(|nodes|, _ => []), [0.0];
    ShapeDepends(nodes, more, x, l);
    ShowsLeaf(nodes, content, x, 0, l);
    ShowsLeaf(nodes, content[l := v], x, 0, l);
    forall plans, cacheOf, offset, before, dirty, tensors, c
      ensures OutOfDate(more, content, to, l, v, x, plans, cacheOf, offset, before, dirty, tensors, c)
    {
      KeepsOld(more, content, to, l, v, x, plans, cacheOf, offset, before, dirty, tensors, c);
    }
  }

  lemma KeepsOld(nodes: Nodes, content: seq<Tensor>, to: Links, l: nat, v: Tensor, x: nat, plans: seq<Plan>,
      cacheOf: seq<Option<nat>>, offset: seq<nat>, before: seq<bool>, dirty: seq<bool>, tensors: seq<seq<Tensor>>,
      c: nat)
    requires Acyclic(nodes) && Linked(nodes, to) && |content| == |nodes| && l < |nodes| && x < |nodes|
    requires x !in Informed(nodes, to, l) && Outputs(nodes[x]) > 0
    requires Value(nodes, content, Operand(x, 0)) != Value(nodes, content[l := v], Operand(x, 0))
    ensures OutOfDate(nodes, content, to, l, v, x, plans, cacheOf, offset, before, dirty, tensors, c)
  {
    hide Acyclic, Linked, Informed, Value, Correct, Held, HasOutputs;
    if Targets(nodes, plans, cacheOf, offset) && OnlyTarget(cacheOf, c, x) && |before| == |plans| == |tensors|
       && c < |before| && !before[c] && Correct(nodes, content, plans[c], tensors[c])
       && Marked(before, cacheOf, Informed(nodes, to, l), dirty) {
      HeldIsValue(nodes, content, plans, cacheOf, offset, tensors, c, x);
    }
  }
}
