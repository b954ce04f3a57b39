/**
Expression graphs as express/Expr.cpp keeps them: leaves that hold a tensor and operators on the
outputs of earlier expressions, with back links from every expression to its users. This module
says what a graph means and which expressions informDirty reaches over the back links.
 */
module ExprGraph {
  type Tensor = seq<real>

  /** An operator with its payload; shapes are fixed, so they are part of `f`. */
  datatype Op = Op(f: seq<Tensor> -> seq<Tensor>, outputs: nat)

  /** Output `index` of an expression. */
  datatype Operand = Operand(node: nat, index: nat)

  /** `needs[i]` is contentNeedContent: whether the operator reads more of operand `i` than its shape. */
  datatype Node =
    | Leaf(input: bool)
    | Apply(op: Op, inputs: seq<Operand>, needs: seq<bool>)

  type Nodes = seq<Node>
  type Links = seq<seq<nat>>

  function Outputs(node: Node): nat {
    if node.Leaf? then 1 else node.op.outputs
  }

  /** An expression is made after its operands. */
  predicate Placed(nodes: Nodes, n: nat)
    requires n < |nodes|
  {
    nodes[n].Apply? ==>
      && |nodes[n].needs| == |nodes[n].inputs|
      && forall i :: 0 <= i < |nodes[n].inputs| ==>
           nodes[n].inputs[i].node < n && nodes[n].inputs[i].index < Outputs(nodes[nodes[n].inputs[i].node])
  }

  predicate Acyclic(nodes: Nodes) {
    forall n: nat :: n < |nodes| ==> Placed(nodes, n)
  }

  // ---- what a graph means ----

  function Results(op: Op, args: seq<Tensor>): (r: seq<Tensor>)
    ensures |r| == op.outputs
  {
    seq(op.outputs, k requires 0 <= k < op.outputs => if k < |op.f(args)| then op.f(args)[k] else [])
  }

  /** The outputs of an expression, evaluated recursively from the leaves. */
  function Eval(nodes: Nodes, content: seq<Tensor>, n: nat): (r: seq<Tensor>)
    requires Acyclic(nodes) && |content| == |nodes| && n < |nodes|
    ensures |r| == Outputs(nodes[n])
    decreases n, if nodes[n].Leaf? then 0 else |nodes[n].inputs| + 1
  {
    if nodes[n].Leaf? then [content[n]]
    else
      assert Placed(nodes, n);
      Results(nodes[n].op, Args(nodes, content, n, |nodes[n].inputs|))
  }

  /** The first `k` operands of an operator; of those that it does not need it sees nothing. */
  function Args(nodes: Nodes, content: seq<Tensor>, n: nat, k: nat): (r: seq<Tensor>)
    requires Acyclic(nodes) && |content| == |nodes| && n < |nodes|
    requires nodes[n].Apply? && Placed(nodes, n) && k <= |nodes[n].inputs|
    ensures |r| == k
    decreases n, k
  {
    if k == 0 then []
    else
      var o := nodes[n].inputs[k - 1];
      Args(nodes, content, n, k - 1) + [if nodes[n].needs[k - 1] then Eval(nodes, content, o.node)[o.index] else []]
  }

  lemma {:induction false} ArgsAt(nodes: Nodes, content: seq<Tensor>, n: nat, k: nat, i: nat)
    requires Acyclic(nodes) && |content| == |nodes| && n < |nodes|
    requires nodes[n].Apply? && Placed(nodes, n) && i < k <= |nodes[n].inputs|
    ensures Args(nodes, content, n, k)[i]
            == if nodes[n].needs[i] then Eval(nodes, content, nodes[n].inputs[i].node)[nodes[n].inputs[i].index] else []
  {
    if i < k - 1 { ArgsAt(nodes, content, n, k - 1, i); }
  }

  /** An operator is applied to the outputs that its operands name, in order, and to nothing in the place of those that
      it does not need; what its function gives are its outputs, in order. */
  lemma EvalIs(nodes: Nodes, content: seq<Tensor>, n: nat, args: seq<Tensor>)
    requires Acyclic(nodes) && |content| == |nodes| && n < |nodes| && nodes[n].Apply? && |args| == |nodes[n].inputs|
    requires Placed(nodes, n) && forall i :: 0 <= i < |args| ==>
               var o := nodes[n].inputs[i];
               args[i] == if nodes[n].needs[i] then Eval(nodes, content, o.node)[o.index] else []
    ensures var r, results := Eval(nodes, content, n), nodes[n].op.f(args);
            |results| == nodes[n].op.outputs ==> r == results
  {
    var k := |nodes[n].inputs|;
    forall i | 0 <= i < k ensures Args(nodes, content, n, k)[i] == args[i] { ArgsAt(nodes, content, n, k, i); }
    assert Args(nodes, content, n, k) == args;
  }

  /** The value of an operand. */
  function Value(nodes: Nodes, content: seq<Tensor>, o: Operand): Tensor
    requires Acyclic(nodes) && |content| == |nodes|
  {
    if o.node < |nodes| && o.index < Outputs(nodes[o.node]) then Eval(nodes, content, o.node)[o.index] else []
  }

  /** The content of expression `l` takes part in the value of expression `n`. */
  ghost predicate DependsOn(nodes: Nodes, n: nat, l: nat)
    requires Acyclic(nodes) && n < |nodes|
    decreases n
  {
    assert Placed(nodes, n);
    nodes[n].Apply?
    && exists i :: 0 <= i < |nodes[n].inputs| && nodes[n].needs[i]
                   && (nodes[n].inputs[i].node == l || DependsOn(nodes, nodes[n].inputs[i].node, l))
  }

  lemma {:induction false} DependsTransitive(nodes: Nodes, n: nat, m: nat, l: nat)
    requires Acyclic(nodes) && n < |nodes| && m < |nodes|
    requires DependsOn(nodes, n, m) && DependsOn(nodes, m, l)
    ensures DependsOn(nodes, n, l)
    decreases n
  {
    assert Placed(nodes, n);
    var i :| 0 <= i < |nodes[n].inputs| && nodes[n].needs[i]
             && (nodes[n].inputs[i].node == m || DependsOn(nodes, nodes[n].inputs[i].node, m));
    if nodes[n].inputs[i].node != m { DependsTransitive(nodes, nodes[n].inputs[i].node, m, l); }
  }

  /** What does not depend on a leaf keeps its value when the leaf is written. */
  lemma {:induction false} EvalUnchanged(nodes: Nodes, content: seq<Tensor>, n: nat, l: nat, v: Tensor)
    requires Acyclic(nodes) && |content| == |nodes| && n < |nodes| && l < |nodes|
    requires n != l && !DependsOn(nodes, n, l)
    ensures Eval(nodes, content[l := v], n) == Eval(nodes, content, n)
    decreases n
  {
    if nodes[n].Apply? {
      assert Placed(nodes, n);
      var node := nodes[n];
      var a, b := Args(nodes, content[l := v], n, |node.inputs|), Args(nodes, content, n, |node.inputs|);
      forall i | 0 <= i < |node.inputs| ensures a[i] == b[i] {
        ArgsAt(nodes, content[l := v], n, |node.inputs|, i);
        ArgsAt(nodes, content, n, |node.inputs|, i);
        if node.needs[i] { EvalUnchanged(nodes, content, node.inputs[i].node, l, v); }
      }
      assert a == b;
    }
  }

  /** A new expression changes nothing about the others. */
  lemma {:induction false} EvalExtended(nodes: Nodes, content: seq<Tensor>, more: Nodes, moreContent: seq<Tensor>,
      n: nat)
    requires Acyclic(nodes) && |content| == |nodes| && Acyclic(more) && |moreContent| == |more| && n < |nodes|
    requires nodes <= more && content <= moreContent
    ensures Eval(more, moreContent, n) == Eval(nodes, content, n)
    decreases n
  {
    if nodes[n].Apply? {
      assert Placed(nodes, n) && Placed(more, n);
      var node := nodes[n];
      var a, b := Args(more, moreContent, n, |node.inputs|), Args(nodes, content, n, |node.inputs|);
      forall i | 0 <= i < |node.inputs| ensures a[i] == b[i] {
        ArgsAt(more, moreContent, n, |node.inputs|, i);
        ArgsAt(nodes, content, n, |node.inputs|, i);
        if node.needs[i] { EvalExtended(nodes, content, more, moreContent, node.inputs[i].node); }
      }
      assert a == b;
    }
  }

  lemma {:induction false} DependsExtended(nodes: Nodes, more: Nodes, n: nat, l: nat)
    requires Acyclic(nodes) && Acyclic(more) && n < |nodes| && nodes <= more
    ensures DependsOn(more, n, l) <==> DependsOn(nodes, n, l)
    decreases n
  {
    if nodes[n].Apply? {
      assert Placed(nodes, n);
      forall i | 0 <= i < |nodes[n].inputs|
        ensures DependsOn(more, nodes[n].inputs[i].node, l) <==> DependsOn(nodes, nodes[n].inputs[i].node, l)
      {
        DependsExtended(nodes, more, nodes[n].inputs[i].node, l);
      }
    }
  }

  // ---- back links ----

  ghost predicate Uses(node: Node, n: nat) {
    node.Apply? && exists i :: 0 <= i < |node.inputs| && node.inputs[i].node == n
  }

  /** Every expression is linked to its users, possibly more than once. */
  ghost predicate Linked(nodes: Nodes, to: Links) {
    && |to| == |nodes|
    && (forall n: nat :: n < |nodes| ==> forall e: nat :: e in to[n] <==> e < |nodes| && Uses(nodes[e], n))
  }

  /** The first operand that is an output of expression `n`. */
  function FirstOperand(inputs: seq<Operand>, n: nat): (i: nat)
    ensures i <= |inputs| && (i < |inputs| ==> inputs[i].node == n)
    ensures forall j :: 0 <= j < i ==> inputs[j].node != n
  {
    if inputs == [] || inputs[0].node == n then 0 else 1 + FirstOperand(inputs[1..], n)
  }

  /** The expressions that a traversal has seen, and those whose caches it has marked. */
  datatype Marks = Marks(visited: set<nat>, hit: set<nat>)

  /** informDirty at user `e` of expression `n`, without going on. */
  function Mark(node: Node, n: nat, e: nat, m: Marks): Marks {
    if e in m.visited then m
    else Marks(m.visited + {e}, if GoesOn(node, n) then m.hit + {e} else m.hit)
  }

  /** Whether the traversal goes on from a user that it comes to from expression `n`. */
  predicate GoesOn(node: Node, n: nat) {
    node.Apply? && FirstOperand(node.inputs, n) < |node.needs| && node.needs[FirstOperand(node.inputs, n)]
  }

  /** visitOutputs from expression `n`, from its link number `k` on. */
  ghost function Visit(nodes: Nodes, to: Links, n: nat, k: nat, m: Marks): (r: Marks)
    requires Acyclic(nodes) && Linked(nodes, to) && n < |nodes| && k <= |to[n]|
    ensures m.visited <= r.visited && m.hit <= r.hit
    ensures forall v :: v in r.visited && v !in m.visited ==> n < v < |nodes|
    decreases |nodes| - n, |to[n]| - k
  {
    if k == |to[n]| then m
    else
      var e := to[n][k];
      UserIsLater(nodes, to, n, e);
      var next := Mark(nodes[e], n, e, m);
      Visit(nodes, to, n, k + 1, if e !in m.visited && GoesOn(nodes[e], n) then Visit(nodes, to, e, 0, next) else next)
  }

  lemma UserIsLater(nodes: Nodes, to: Links, n: nat, e: nat)
    requires Acyclic(nodes) && Linked(nodes, to) && n < |nodes| && e in to[n]
    ensures n < e < |nodes| && nodes[e].Apply? && Placed(nodes, e)
    ensures FirstOperand(nodes[e].inputs, n) < |nodes[e].inputs|
  {
    assert Placed(nodes, e);
    assert Uses(nodes[e], n);
  }

  /** Nothing is marked without need, whatever the operators are. */
  lemma {:induction false} HitsDepend(nodes: Nodes, to: Links, n: nat, k: nat, m: Marks, x: nat)
    requires Acyclic(nodes) && Linked(nodes, to) && n < |nodes| && k <= |to[n]|
    requires x in Visit(nodes, to, n, k, m).hit && x !in m.hit
    ensures x < |nodes| && DependsOn(nodes, x, n)
    decreases |nodes| - n, |to[n]| - k
  {
    var e := to[n][k];
    UserIsLater(nodes, to, n, e);
    var next := Mark(nodes[e], n, e, m);
    var goes := e !in m.visited && GoesOn(nodes[e], n);
    var after := if goes then Visit(nodes, to, e, 0, next) else next;
    if x !in after.hit {
      HitsDepend(nodes, to, n, k + 1, after, x);
    } else if goes {
      var i := FirstOperand(nodes[e].inputs, n);
      assert nodes[e].inputs[i].node == n && nodes[e].needs[i];
      assert DependsOn(nodes, e, n);
      if x != e {
        HitsDepend(nodes, to, e, 0, next, x);
        DependsTransitive(nodes, x, e, n);
      }
    }
  }

  /** Expression `y` is leaf `l` or depends on it. */
  ghost predicate Behind(nodes: Nodes, y: nat, l: nat)
    requires Acyclic(nodes)
  {
    y < |nodes| && (y == l || DependsOn(nodes, y, l))
  }

  /** From `y`, which the leaf has reached, the traversal does not go on to its user `e`, although that depends on the
      leaf: its first operand from `y` is one whose content it does not need. */
  ghost predicate Stops(nodes: Nodes, e: nat, y: nat, l: nat)
    requires Acyclic(nodes)
  {
    e < |nodes| && DependsOn(nodes, e, l) && Behind(nodes, y, l) && Uses(nodes[e], y) && !GoesOn(nodes[e], y)
  }

  /** The traversal goes on wherever the content of the leaf does. */
  ghost predicate Straight(nodes: Nodes, l: nat)
    requires Acyclic(nodes)
  {
    forall e: nat, y: nat :: !Stops(nodes, e, y, l)
  }

  /** What an operator goes on from takes part in its value. */
  lemma GoesOnDepends(nodes: Nodes, e: nat, y: nat, l: nat)
    requires Acyclic(nodes) && e < |nodes| && Behind(nodes, y, l) && GoesOn(nodes[e], y)
    ensures DependsOn(nodes, e, l)
  {
    assert Placed(nodes, e);
    var i := FirstOperand(nodes[e].inputs, y);
    assert nodes[e].inputs[i].node == y && nodes[e].needs[i];
  }

  /** The traversal is finished with expression `v`. */
  ghost predicate Done(nodes: Nodes, to: Links, m: Marks, l: nat, v: nat)
    requires Acyclic(nodes) && |to| == |nodes| && v < |nodes|
  {
    DependsOn(nodes, v, l) ==> v in m.hit && forall e: nat :: e in to[v] ==> e in m.visited
  }

  ghost predicate DoneAbove(nodes: Nodes, to: Links, m: Marks, l: nat, n: nat)
    requires Acyclic(nodes) && |to| == |nodes|
  {
    forall v: nat :: v in m.visited && n < v < |nodes| ==> Done(nodes, to, m, l, v)
  }

  lemma {:induction false} VisitCloses(nodes: Nodes, to: Links, l: nat, n: nat, k: nat, m: Marks)
    requires Acyclic(nodes) && Linked(nodes, to) && Straight(nodes, l) && n < |nodes| && k <= |to[n]|
    requires Behind(nodes, n, l)
    requires DoneAbove(nodes, to, m, l, n) && forall j :: 0 <= j < k ==> to[n][j] in m.visited
    ensures var r := Visit(nodes, to, n, k, m);
            DoneAbove(nodes, to, r, l, n) && forall j :: 0 <= j < |to[n]| ==> to[n][j] in r.visited
    decreases |nodes| - n, |to[n]| - k
  {
    hide DependsOn, GoesOn, Acyclic;
    if k < |to[n]| {
      var e := to[n][k];
      UserIsLater(nodes, to, n, e);
      UserOf(nodes, to, n, e);
      var next := Mark(nodes[e], n, e, m);
      var goes := e !in m.visited && GoesOn(nodes[e], n);
      assert !Stops(nodes, e, n, l);
      if goes { GoesOnDepends(nodes, e, n, l); }
      var after := if goes then Visit(nodes, to, e, 0, next) else next;
      if goes {
        DoneStays(nodes, to, m, next, l, n, e);
        VisitCloses(nodes, to, l, e, 0, next);
        assert Done(nodes, to, after, l, e);
      }
      DoneGrows(nodes, to, m, after, l, n, e);
      VisitCloses(nodes, to, l, n, k + 1, after);
    }
  }

  lemma UserOf(nodes: Nodes, to: Links, n: nat, e: nat)
    requires Linked(nodes, to) && n < |nodes| && e in to[n]
    ensures e < |nodes| && Uses(nodes[e], n)
  {
  }

  lemma DoneStays(nodes: Nodes, to: Links, m: Marks, next: Marks, l: nat, n: nat, e: nat)
    requires Acyclic(nodes) && |to| == |nodes| && n < e && DoneAbove(nodes, to, m, l, n)
    requires m.visited <= next.visited <= m.visited + {e} && m.hit <= next.hit
    ensures DoneAbove(nodes, to, next, l, e)
  {
    hide DependsOn, Acyclic;
    forall v: nat | v in next.visited && e < v < |nodes| ensures Done(nodes, to, next, l, v) {
      assert Done(nodes, to, m, l, v);
    }
  }

  lemma DoneGrows(nodes: Nodes, to: Links, m: Marks, after: Marks, l: nat, n: nat, e: nat)
    requires Acyclic(nodes) && |to| == |nodes| && n < e < |nodes| && DoneAbove(nodes, to, m, l, n)
    requires m.visited <= after.visited && m.hit <= after.hit
    requires e !in m.visited ==> Done(nodes, to, after, l, e)
    requires forall v :: v in after.visited && v !in m.visited ==>
                           v == e || (e < v < |nodes| && Done(nodes, to, after, l, v))
    ensures DoneAbove(nodes, to, after, l, n)
  {
    hide DependsOn, Acyclic;
    forall v: nat | v in after.visited && n < v < |nodes| ensures Done(nodes, to, after, l, v) {
      if v in m.visited { assert Done(nodes, to, m, l, v); }
    }
  }

  /** The expressions that writing leaf `l` marks. */
  ghost function Informed(nodes: Nodes, to: Links, l: nat): set<nat>
    requires Acyclic(nodes) && Linked(nodes, to) && l < |nodes|
  {
    Visit(nodes, to, l, 0, Marks({}, {})).hit
  }

  /** If the traversal stops nowhere, then exactly what depends on the leaf is marked, whatever the order of the
      links. */
  lemma {:induction false} InformedExactly(nodes: Nodes, to: Links, l: nat, x: nat)
    requires Acyclic(nodes) && Linked(nodes, to) && Straight(nodes, l) && l < |nodes| && x < |nodes|
    ensures x in Informed(nodes, to, l) <==> DependsOn(nodes, x, l)
    decreases x
  {
    var none := Marks({}, {});
    var m := Visit(nodes, to, l, 0, none);
    if x in m.hit { HitsDepend(nodes, to, l, 0, none, x); }
    if DependsOn(nodes, x, l) {
      hide Visit, Straight, Linked;
      VisitCloses(nodes, to, l, l, 0, none);
      assert Placed(nodes, x);
      var i :| 0 <= i < |nodes[x].inputs| && nodes[x].needs[i]
               && (nodes[x].inputs[i].node == l || DependsOn(nodes, nodes[x].inputs[i].node, l));
      var y := nodes[x].inputs[i].node;
      LinkedUser(nodes, to, x, y, i);
      if y != l {
        InformedExactly(nodes, to, l, y);
        HitsVisited(nodes, to, l, 0, none, y);
        DependentIsLater(nodes, y, l);
        assert Done(nodes, to, m, l, y);
      }
      assert x in m.visited;
      DependentIsLater(nodes, x, l);
      assert Done(nodes, to, m, l, x);
    }
  }

  lemma LinkedUser(nodes: Nodes, to: Links, x: nat, y: nat, i: nat)
    requires Acyclic(nodes) && Linked(nodes, to) && x < |nodes| && nodes[x].Apply? && i < |nodes[x].inputs|
    requires nodes[x].inputs[i].node == y
    ensures y < |to| && x in to[y]
  {
    assert Placed(nodes, x) && Uses(nodes[x], y);
  }

  lemma {:induction false} HitsVisited(nodes: Nodes, to: Links, n: nat, k: nat, m: Marks, x: nat)
    requires Acyclic(nodes) && Linked(nodes, to) && n < |nodes| && k <= |to[n]|
    requires x in Visit(nodes, to, n, k, m).hit && x !in m.hit
    ensures x in Visit(nodes, to, n, k, m).visited
    decreases |nodes| - n, |to[n]| - k
  {
    var e := to[n][k];
    UserIsLater(nodes, to, n, e);
    var next := Mark(nodes[e], n, e, m);
    var goes := e !in m.visited && GoesOn(nodes[e], n);
    var after := if goes then Visit(nodes, to, e, 0, next) else next;
    if x !in after.hit {
      HitsVisited(nodes, to, n, k + 1, after, x);
    } else if goes && x != e {
      HitsVisited(nodes, to, e, 0, next, x);
    }
  }

  lemma {:induction false} DependentIsLater(nodes: Nodes, n: nat, l: nat)
    requires Acyclic(nodes) && n < |nodes| && DependsOn(nodes, n, l)
    ensures l < n
    decreases n
  {
    assert Placed(nodes, n);
    var i :| 0 <= i < |nodes[n].inputs| && nodes[n].needs[i]
             && (nodes[n].inputs[i].node == l || DependsOn(nodes, nodes[n].inputs[i].node, l));
    if nodes[n].inputs[i].node != l { DependentIsLater(nodes, nodes[n].inputs[i].node, l); }
  }
}
