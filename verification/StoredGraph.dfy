/**
Expression graphs with all that express/Expr.cpp writes to a file, and the net that it writes: operators with
tensor indices, and a name for every tensor.
 */
module StoredGraph {
  import opened Wrappers

  datatype Code = Float | Int | UInt | BFloat | Handle

  /** The element type of a tensor. */
  datatype Elem = Elem(code: Code, bits: nat)

  datatype Format = NCHW | NHWC | NC4HW4

  datatype DataFormat = FORMAT_NCHW | FORMAT_NHWC | FORMAT_NC4HW4 | FORMAT_UNKNOWN

  datatype DataType = DT_INVALID | DT_FLOAT | DT_INT32 | DT_UINT8 | DT_INT8 | DT_INT64 | DT_BFLOAT16

  datatype InputType = INPUT | CONSTANT | TRAINABLE

  /** An operator as a file has it. A blob may refer to a file of its own. */
  datatype OpT =
    | InputT(dims: seq<int>, dtype: DataType, dformat: DataFormat)
    | BlobT(trainable: bool, external: bool, dims: seq<int>, dataFormat: DataFormat, dataType: DataType, data: seq<int>)
    | OtherT(typeName: string, payload: nat)

  /** What an expression is made of: an operator, or a tensor of its own. */
  datatype Origin =
    | Operator(op: OpT, opName: string)
    | Value(kind: InputType, dim: seq<int>, order: Format, elem: Elem, content: seq<int>)

  /** Output `index` of an expression. */
  datatype Var = Var(node: nat, index: nat)

  /** An operand may have been set to null. */
  datatype Expr = Expr(origin: Origin, name: string, inputs: seq<Option<Var>>, outputNames: seq<string>)

  type Exprs = seq<Expr>

  datatype NetOp = NetOp(op: OpT, name: string, inputIndexes: seq<int>, outputIndexes: seq<int>)

  datatype Net = Net(oplists: seq<NetOp>, tensorName: seq<string>)

  function OutputSize(e: Expr): nat {
    |e.outputNames|
  }

  /** Operands are outputs of earlier expressions, and a tensor of its own has no operands and is one output. */
  predicate WellPlaced(exprs: Exprs, n: nat)
    requires n < |exprs|
  {
    && (forall i :: 0 <= i < |exprs[n].inputs| && exprs[n].inputs[i].Some? ==>
          var v := exprs[n].inputs[i].value; v.node < n && v.index < OutputSize(exprs[v.node]))
    && (exprs[n].origin.Value? ==> exprs[n].inputs == [] && OutputSize(exprs[n]) == 1)
  }

  predicate Acyclic(exprs: Exprs) {
    forall n: nat :: n < |exprs| ==> WellPlaced(exprs, n)
  }

  /** Expression `m` is expression `n` or reads it, directly or not. */
  ghost predicate Reaches(exprs: Exprs, m: nat, n: nat)
    requires Acyclic(exprs) && m < |exprs|
    decreases m
  {
    assert WellPlaced(exprs, m);
    m == n
    || exists i :: 0 <= i < |exprs[m].inputs| && exprs[m].inputs[i].Some?
                   && Reaches(exprs, exprs[m].inputs[i].value.node, n)
  }

  /** Some output reads expression `n` or is one of its outputs. */
  ghost predicate Wanted(exprs: Exprs, outputs: seq<Option<Var>>, n: nat)
    requires Acyclic(exprs)
  {
    exists k :: 0 <= k < |outputs| && outputs[k].Some? && outputs[k].value.node < |exprs|
                && Reaches(exprs, outputs[k].value.node, n)
  }

  lemma {:induction false} ReachesOperand(exprs: Exprs, m: nat, n: nat, i: nat)
    requires Acyclic(exprs) && m < |exprs| && n < |exprs| && Reaches(exprs, m, n)
    requires i < |exprs[n].inputs| && exprs[n].inputs[i].Some?
    ensures Reaches(exprs, m, exprs[n].inputs[i].value.node)
    decreases m
  {
    assert WellPlaced(exprs, m) && WellPlaced(exprs, n);
    if m == n {
      assert Reaches(exprs, exprs[n].inputs[i].value.node, exprs[n].inputs[i].value.node);
    } else {
      var j :| 0 <= j < |exprs[m].inputs| && exprs[m].inputs[j].Some?
      && Reaches(exprs, exprs[m].inputs[j].value.node, n);
      ReachesOperand(exprs, exprs[m].inputs[j].value.node, n, i);
    }
  }

  lemma WantedOperand(exprs: Exprs, outputs: seq<Option<Var>>, n: nat, i: nat)
    requires Acyclic(exprs) && n < |exprs| && Wanted(exprs, outputs, n) && i < |exprs[n].inputs|
    requires exprs[n].inputs[i].Some?
    ensures Wanted(exprs, outputs, exprs[n].inputs[i].value.node)
  {
    var k :| 0 <= k < |outputs| && outputs[k].Some? && outputs[k].value.node < |exprs|
    && Reaches(exprs, outputs[k].value.node, n);
    ReachesOperand(exprs, outputs[k].value.node, n, i);
  }

  // ---- orders ----

  /** All operands of `order[p]` stand before it. */
  ghost predicate After(exprs: Exprs, order: seq<nat>, p: nat)
    requires p < |order|
  {
    order[p] < |exprs|
    && forall i :: 0 <= i < |exprs[order[p]].inputs| && exprs[order[p]].inputs[i].Some? ==>
         exprs[order[p]].inputs[i].value.node in order[..p]
  }

  ghost predicate OperandsFirst(exprs: Exprs, order: seq<nat>) {
    forall p: nat :: p < |order| ==> After(exprs, order, p)
  }

  ghost predicate NoRepeats(order: seq<nat>) {
    forall p, q :: 0 <= p < q < |order| ==> order[p] != order[q]
  }

  /** A constant, whether it is an operator or a tensor. */
  predicate IsConst(e: Expr) {
    match e.origin
    case Operator(op, _) => op.BlobT? && !op.trainable
    case Value(kind, _, _, _, _) => kind == CONSTANT
  }

  /** The constants among the outputs, each once. */
  function Constants(exprs: Exprs, outputs: seq<Option<Var>>): seq<nat> {
    if outputs == [] then []
    else
      var before, last := Constants(exprs, outputs[..|outputs| - 1]), outputs[|outputs| - 1];
      if last.Some? && last.value.node < |exprs| && IsConst(exprs[last.value.node]) && last.value.node !in before
        then before + [last.value.node] else before
  }

  /** They are the blobs that are not trainable and the constant tensors. */
  lemma {:induction false} ConstantsAre(exprs: Exprs, outputs: seq<Option<Var>>, n: nat)
    ensures n in Constants(exprs, outputs)
            <==> n < |exprs| && (exists k :: 0 <= k < |outputs| && outputs[k].Some? && outputs[k].value.node == n)
                 && match exprs[n].origin
                    case Operator(BlobT(false, _, _, _, _, _), _) => true
                    case Value(CONSTANT, _, _, _, _) => true
                    case _ => false
  {
    if outputs != [] {
      var init, last := outputs[..|outputs| - 1], outputs[|outputs| - 1];
      ConstantsAre(exprs, init, n);
      if k :| 0 <= k < |outputs| && outputs[k].Some? && outputs[k].value.node == n {
        if k < |init| { assert init[k] == outputs[k]; }
      }
      if k :| 0 <= k < |init| && init[k].Some? && init[k].value.node == n { assert outputs[k] == init[k]; }
      if last.Some? && last.value.node == n { assert outputs[|outputs| - 1] == last; }
    }
  }

  /** Constants without operands can come first. */
  lemma {:induction false} ConstantsAlone(exprs: Exprs, outputs: seq<Option<Var>>)
    requires forall n: nat :: n < |exprs| && IsConst(exprs[n]) ==> exprs[n].inputs == []
    ensures OperandsFirst(exprs, Constants(exprs, outputs))
  {
    if outputs != [] {
      var before, all := Constants(exprs, outputs[..|outputs| - 1]), Constants(exprs, outputs);
      ConstantsAlone(exprs, outputs[..|outputs| - 1]);
      forall p: nat | p < |all| ensures After(exprs, all, p) {
        if p < |before| { assert After(exprs, before, p) && all[..p] == before[..p]; }
      }
    }
  }

  /** A constant that reads something else comes before it. */
  lemma ConstantTooSoon(input: Expr, constant: Expr)
    requires input.inputs == [] && OutputSize(input) == 1 && !IsConst(input)
    requires IsConst(constant) && constant.origin.Operator? && constant.inputs == [Some(Var(0, 0))]
    ensures var exprs, outputs := [input, constant], [Some(Var(1, 0))];
            Acyclic(exprs) && Constants(exprs, outputs) == [1] && !OperandsFirst(exprs, Constants(exprs, outputs))
  {
    var exprs, outputs := [input, constant], [Some(Var(1, 0))];
    assert outputs[..0] == [];
    assert Constants(exprs, outputs) == [1];
    assert exprs[1].inputs[0] == Some(Var(0, 0));
    assert !After(exprs, [1], 0);
  }

  /** In an order with all operands first, whatever an output reads is there. */
  lemma {:induction false} ReachedInOrder(exprs: Exprs, order: seq<nat>, m: nat, n: nat)
    requires Acyclic(exprs) && OperandsFirst(exprs, order) && m in order && m < |exprs| && Reaches(exprs, m, n)
    ensures n in order
    decreases m
  {
    assert WellPlaced(exprs, m);
    if m != n {
      var i :| 0 <= i < |exprs[m].inputs| && exprs[m].inputs[i].Some?
      && Reaches(exprs, exprs[m].inputs[i].value.node, n);
      var p: nat :| p < |order| && order[p] == m;
      assert After(exprs, order, p);
      ReachedInOrder(exprs, order, exprs[m].inputs[i].value.node, n);
    }
  }
}
