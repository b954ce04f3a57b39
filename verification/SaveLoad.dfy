/**
Writing the expressions behind some variables to a net, and making expressions from a net again, as
express/Expr.cpp does; and when what comes back is what was written.
 */
module SaveLoad {
  import opened ExecuteOrder
  import opened StoredGraph
  import opened Wrappers

  // ---- tables ----

  function ConvertFormat(f: Format): DataFormat {
    if f == NCHW then FORMAT_NCHW else if f == NHWC then FORMAT_NHWC else FORMAT_NC4HW4
  }

  function RevertFormat(f: DataFormat): Format {
    if f == FORMAT_NCHW then NCHW else if f == FORMAT_NHWC then NHWC else if f == FORMAT_NC4HW4 then NC4HW4 else NCHW
  }

  function ConvertDataType(e: Elem): DataType {
    if e.code == Float then DT_FLOAT
    else if e == Elem(UInt, 8) then DT_UINT8
    else if e == Elem(Int, 8) then DT_INT8
    else if e == Elem(Int, 32) then DT_INT32
    else DT_INVALID
  }

  function RevertDataType(t: DataType): Elem {
    match t
    case DT_FLOAT => Elem(Float, 32)
    case DT_INT32 => Elem(Int, 32)
    case DT_INT64 => Elem(Int, 32)
    case DT_UINT8 => Elem(UInt, 8)
    case DT_INT8 => Elem(Int, 8)
    case DT_BFLOAT16 => Elem(BFloat, 16)
    case DT_INVALID => Elem(Float, 32)
  }

  /** Whether the elements of a constant are copied into its blob. */
  predicate Copied(e: Elem) {
    e.code == Float || e == Elem(Int, 32) || e == Elem(Int, 8) || e == Elem(UInt, 8) || e == Elem(BFloat, 16)
  }

  /** The type of the blob; a blob is of floats unless something else is said. */
  function BlobType(e: Elem): DataType {
    if e == Elem(Int, 32) then DT_INT32
    else if e == Elem(Int, 8) then DT_INT8
    else if e == Elem(UInt, 8) then DT_UINT8
    else if e == Elem(BFloat, 16) then DT_BFLOAT16
    else DT_FLOAT
  }

  function TypeName(op: OpT): string {
    match op
    case InputT(_, _, _) => "Input"
    case BlobT(trainable, _, _, _, _, _) => if trainable then "TrainableParam" else "Const"
    case OtherT(typeName, _) => typeName
  }

  function Decimal(n: nat): (s: string)
    ensures s != ""
  {
    if n < 10 then [('0' as int + n) as char] else Decimal(n / 10) + [('0' as int + n % 10) as char]
  }

  // ---- what is saved ----

  function OpOf(e: Expr): OpT {
    match e.origin
    case Operator(op, _) => op
    case Value(kind, dim, order, elem, content) =>
      if kind == INPUT then InputT(dim, ConvertDataType(elem), ConvertFormat(order))
      else BlobT(kind == TRAINABLE, false, dim, ConvertFormat(order), BlobType(elem), if Copied(elem) then content
                 else [])
  }

  /** The name of the operator at place `i`: the expression's, or the operator's own, or one made up. */
  function OpName(e: Expr, i: nat): string {
    if e.name != "" then e.name
    else if e.origin.Operator? && e.origin.opName != "" then e.origin.opName
    else TypeName(OpOf(e)) + Decimal(i + 1)
  }

  function TensorName(e: Expr, i: nat, v: nat): string {
    if v < |e.outputNames| && e.outputNames[v] != "" then e.outputNames[v]
    else if v == 0 then OpName(e, i)
    else OpName(e, i) + Decimal(v)
  }

  predicate InGraph(exprs: Exprs, order: seq<nat>) {
    forall n :: n in order ==> n < |exprs|
  }

  /** How many tensors the first `i` operators have. */
  function Offset(exprs: Exprs, order: seq<nat>, i: nat): nat
    requires InGraph(exprs, order) && i <= |order|
  {
    if i == 0 then 0
    else
      assert order[i - 1] in order;
      Offset(exprs, order, i - 1) + OutputSize(exprs[order[i - 1]])
  }

  lemma {:induction false} OffsetGrows(exprs: Exprs, order: seq<nat>, i: nat, j: nat)
    requires InGraph(exprs, order) && i <= j <= |order|
    ensures Offset(exprs, order, i) <= Offset(exprs, order, j)
    decreases j
  {
    if i < j { OffsetGrows(exprs, order, i, j - 1); }
  }

  /** The index that stands for an operand: -1 for null, and the operand's own index if its expression is not saved. */
  ghost predicate IndexFor(exprs: Exprs, order: seq<nat>, input: Option<Var>, x: int)
    requires InGraph(exprs, order)
  {
    match input
    case None => x == -1
    case Some(v) =>
      && (v.node !in order ==> x == v.index)
      && forall p: nat :: p < |order| && order[p] == v.node ==> x == Offset(exprs, order, p) + v.index
  }

  /** Operator `i` of a saved net. */
  ghost predicate EntryFor(exprs: Exprs, order: seq<nat>, i: nat, op: NetOp)
    requires InGraph(exprs, order) && i < |order| && order[i] < |exprs|
  {
    var e := exprs[order[i]];
    && op.op == OpOf(e) && op.name == OpName(e, i)
    && |op.inputIndexes| == |e.inputs| && |op.outputIndexes| == OutputSize(e)
    && (forall k :: 0 <= k < |e.inputs| ==> IndexFor(exprs, order, e.inputs[k], op.inputIndexes[k]))
    && (forall v: nat :: v < OutputSize(e) ==> op.outputIndexes[v] == Offset(exprs, order, i) + v)
  }

  ghost predicate NamesFor(exprs: Exprs, order: seq<nat>, i: nat, names: seq<string>)
    requires InGraph(exprs, order) && i < |order| && order[i] < |exprs|
  {
    forall v: nat :: v < OutputSize(exprs[order[i]]) ==> NameAt(exprs, order, i, v, names)
  }

  ghost predicate NameAt(exprs: Exprs, order: seq<nat>, i: nat, v: nat, names: seq<string>)
    requires InGraph(exprs, order) && i < |order| && order[i] < |exprs|
  {
    Offset(exprs, order, i) + v < |names| && names[Offset(exprs, order, i) + v] == TensorName(exprs[order[i]], i, v)
  }

  /** The net has the saved operators in order, with one index range after the other. */
  ghost predicate SavedAs(exprs: Exprs, order: seq<nat>, net: Net) {
    && InGraph(exprs, order) && |net.oplists| == |order| && |net.tensorName| == Offset(exprs, order, |order|)
    && forall i: nat :: i < |order| && order[i] < |exprs| ==>
         EntryFor(exprs, order, i, net.oplists[i]) && NamesFor(exprs, order, i, net.tensorName)
  }

  lemma OffsetNext(exprs: Exprs, order: seq<nat>, i: nat)
    requires InGraph(exprs, order) && i < |order|
    ensures order[i] < |exprs| && Offset(exprs, order, i + 1) == Offset(exprs, order, i) + OutputSize(exprs[order[i]])
  {
    assert order[i] in order;
  }

  /** Tensor `t` is output `v` of operator `i`, one of the first `n`. */
  ghost predicate Owns(exprs: Exprs, order: seq<nat>, n: nat, i: nat, v: nat, t: nat)
    requires InGraph(exprs, order)
  {
    i < n <= |order| && order[i] < |exprs| && v < OutputSize(exprs[order[i]]) && t == Offset(exprs, order, i) + v
  }

  /** So every tensor belongs to one output of one operator. */
  lemma {:induction false} RangesTile(exprs: Exprs, order: seq<nat>, n: nat, t: nat) returns (i: nat, v: nat)
    requires InGraph(exprs, order) && n <= |order| && t < Offset(exprs, order, n)
    ensures Owns(exprs, order, n, i, v, t)
    ensures forall j: nat, w: nat :: Owns(exprs, order, n, j, w, t) ==> j == i && w == v
  {
    OffsetNext(exprs, order, n - 1);
    if t >= Offset(exprs, order, n - 1) {
      i, v := n - 1, t - Offset(exprs, order, n - 1);
    } else {
      i, v := RangesTile(exprs, order, n - 1, t);
    }
    forall j: nat, w: nat | Owns(exprs, order, n, j, w, t) ensures j == i && w == v {
      OffsetNext(exprs, order, i);
      OffsetNext(exprs, order, j);
      if j < i { OffsetGrows(exprs, order, j + 1, i); }
      if i < j { OffsetGrows(exprs, order, i + 1, j); }
    }
  }

  /** Operators use only tensors of operators before them, if operands come first. */
  lemma DefinedBeforeUse(exprs: Exprs, order: seq<nat>, net: Net, i: nat, k: nat)
    requires Acyclic(exprs) && OperandsFirst(exprs, order) && NoRepeats(order) && SavedAs(exprs, order, net)
    requires i < |order| && order[i] < |exprs| && k < |exprs[order[i]].inputs|
    ensures -1 <= net.oplists[i].inputIndexes[k] < Offset(exprs, order, i)
    ensures net.oplists[i].inputIndexes[k] == -1 <==> exprs[order[i]].inputs[k].None?
  {
    assert EntryFor(exprs, order, i, net.oplists[i]);
    var input := exprs[order[i]].inputs[k];
    if input.Some? {
      assert After(exprs, order, i) && WellPlaced(exprs, order[i]);
      var p: nat :| p < i && order[p] == input.value.node;
      OffsetGrows(exprs, order, p + 1, i);
    }
  }

  // ---- saving ----

  method Save(w: Walker, outputs: seq<Option<Var>>) returns (net: Net, ghost order: seq<nat>)
    requires Acyclic(w.exprs) && w.visited == seq(|w.exprs|, _ => false)
    requires forall k :: 0 <= k < |outputs| && outputs[k].Some? ==> outputs[k].value.node < |w.exprs|
    modifies w
    ensures w.visited == old(w.visited) && SavedAs(w.exprs, order, net)
    ensures NoRepeats(order) && forall n :: n in order ==> n < |w.exprs| && Wanted(w.exprs, outputs, n)
    ensures OperandsFirst(w.exprs, order) <==> OperandsFirst(w.exprs, Constants(w.exprs, outputs))
    ensures OperandsFirst(w.exprs, order) ==> forall n: nat :: Wanted(w.exprs, outputs, n) ==> n in order
  {
    hide Acyclic, Wanted, OperandsFirst, Constants, OffsetsFor, EntryFor, NamesFor, Offset, NoRepeats;
    var sequence := w.GetExecuteOrder(outputs);
    order := sequence;
    var exprs := w.exprs;
    var varIndex := Offsets(exprs, sequence);
    var oplists := Operators(exprs, sequence, varIndex);
    var names := Names(exprs, sequence, oplists);
    net := Net(oplists, names);
  }

  /** The map has the first tensor of the first `k` expressions. */
  ghost predicate OffsetsFor(exprs: Exprs, order: seq<nat>, k: nat, varIndex: map<nat, nat>)
    requires InGraph(exprs, order)
  {
    && k <= |order| && (forall n :: n in varIndex <==> n in order[..k])
    && forall j: nat :: j < k ==> order[j] in varIndex && varIndex[order[j]] == Offset(exprs, order, j)
  }

  lemma OffsetsMore(exprs: Exprs, order: seq<nat>, k: nat, varIndex: map<nat, nat>)
    requires InGraph(exprs, order) && NoRepeats(order) && OffsetsFor(exprs, order, k, varIndex) && k < |order|
    ensures OffsetsFor(exprs, order, k + 1, varIndex[order[k] := Offset(exprs, order, k)])
  {
    hide Offset;
    assert order[..k + 1] == order[..k] + [order[k]];
  }

  /** Where the tensors of every expression begin. */
  method Offsets(exprs: Exprs, order: seq<nat>) returns (varIndex: map<nat, nat>)
    requires InGraph(exprs, order) && NoRepeats(order)
    ensures OffsetsFor(exprs, order, |order|, varIndex)
  {
    hide InGraph, NoRepeats, OffsetsFor, OutputSize;
    varIndex := map[];
    NoOffsets(exprs, order);
    var tensorOffset := 0;
    for i := 0 to |order|
      invariant tensorOffset == Offset(exprs, order, i) && OffsetsFor(exprs, order, i, varIndex)
    {
      OffsetNext(exprs, order, i);
      OffsetsMore(exprs, order, i, varIndex);
      varIndex := varIndex[order[i] := tensorOffset];
      tensorOffset := tensorOffset + OutputSize(exprs[order[i]]);
    }
  }

  lemma NoOffsets(exprs: Exprs, order: seq<nat>)
    requires InGraph(exprs, order)
    ensures OffsetsFor(exprs, order, 0, map[]) && Offset(exprs, order, 0) == 0
  {
  }

  /** Looking up a key that is not there enters zero for it. */
  function At(varIndex: map<nat, nat>, n: nat): nat {
    if n in varIndex then varIndex[n] else 0
  }

  lemma AtIs(exprs: Exprs, order: seq<nat>, varIndex: map<nat, nat>, input: Option<Var>)
    requires InGraph(exprs, order) && OffsetsFor(exprs, order, |order|, varIndex)
    ensures IndexFor(exprs, order, input, if input.None? then -1
                     else At(varIndex, input.value.node) + input.value.index)
    ensures forall i: nat :: i < |order| ==> order[i] in varIndex && varIndex[order[i]] == Offset(exprs, order, i)
  {
    assert order[..|order|] == order;
  }

  method Operators(exprs: Exprs, order: seq<nat>, varIndex: map<nat, nat>) returns (oplists: seq<NetOp>)
    requires InGraph(exprs, order) && OffsetsFor(exprs, order, |order|, varIndex)
    ensures |oplists| == |order|
    ensures forall i: nat :: i < |order| && order[i] < |exprs| ==> EntryFor(exprs, order, i, oplists[i])
  {
    hide InGraph, OffsetsFor, OpOf, EntryFor;
    oplists := [];
    for index := 0 to |order|
      invariant |oplists| == index
      invariant forall i: nat :: i < index && order[i] < |exprs| ==> EntryFor(exprs, order, i, oplists[i])
    {
      OffsetNext(exprs, order, index);
      var op := CreateOp(exprs, order, varIndex, index);
      oplists := oplists + [op];
    }
  }

  /** Operator `index` of the net. */
  method CreateOp(exprs: Exprs, order: seq<nat>, varIndex: map<nat, nat>, index: nat) returns (entry: NetOp)
    requires InGraph(exprs, order) && OffsetsFor(exprs, order, |order|, varIndex) && index < |order|
    requires order[index] < |exprs|
    ensures EntryFor(exprs, order, index, entry)
  {
    hide InGraph, OffsetsFor, OpOf, IndexFor, Offset, At, TypeName, Decimal;
    var expr := exprs[order[index]];
    var op := OpOf(expr);
    var name := if expr.origin.Operator? then expr.origin.opName else "";
    if expr.name != "" { name := expr.name; }
    var inputIndexes: seq<int> := [];
    for i := 0 to |expr.inputs|
      invariant |inputIndexes| == i
      invariant forall k :: 0 <= k < i ==> IndexFor(exprs, order, expr.inputs[k], inputIndexes[k])
    {
      AtIs(exprs, order, varIndex, expr.inputs[i]);
      var x: int := -1;
      if expr.inputs[i].Some? { x := At(varIndex, expr.inputs[i].value.node) + expr.inputs[i].value.index; }
      inputIndexes := inputIndexes + [x];
    }
    if name == "" { name := TypeName(op) + Decimal(index + 1); }
    AtIs(exprs, order, varIndex, None);
    var outputIndexes: seq<int> := [];
    for v := 0 to OutputSize(expr)
      invariant |outputIndexes| == v && forall u :: 0 <= u < v ==> outputIndexes[u] == varIndex[order[index]] + u
    {
      outputIndexes := outputIndexes + [varIndex[order[index]] + v];
    }
    entry := NetOp(op, name, inputIndexes, outputIndexes);
  }

  /** The names of all tensors; tensors without a name get one from their operator. */
  method Names(exprs: Exprs, order: seq<nat>, oplists: seq<NetOp>) returns (names: seq<string>)
    requires InGraph(exprs, order) && |oplists| == |order|
    requires forall i: nat :: i < |order| && order[i] < |exprs| ==> EntryFor(exprs, order, i, oplists[i])
    ensures |names| == Offset(exprs, order, |order|)
    ensures forall i: nat :: i < |order| && order[i] < |exprs| ==> NamesFor(exprs, order, i, names)
  {
    hide InGraph, EntryFor, NamesFor, Decimal, Offset;
    names := [];
    NoOffsets(exprs, order);
    for index := 0 to |order|
      invariant |names| == Offset(exprs, order, index)
      invariant forall i: nat :: i < index && order[i] < |exprs| ==> NamesFor(exprs, order, i, names)
    {
      OffsetNext(exprs, order, index);
      EntryName(exprs, order, index, oplists[index]);
      var more := OpNames(exprs[order[index]], oplists[index].name, index);
      forall i: nat | i < index && order[i] < |exprs| ensures NamesFor(exprs, order, i, names + more) {
        NamesStay(exprs, order, i, names, more);
      }
      NamesNew(exprs, order, index, names, more);
      names := names + more;
    }
  }

  method OpNames(expr: Expr, opName: string, index: nat) returns (names: seq<string>)
    requires opName == OpName(expr, index)
    ensures |names| == OutputSize(expr) && forall u: nat :: u < |names| ==> names[u] == TensorName(expr, index, u)
  {
    hide OpName, Decimal;
    names := [];
    for v := 0 to OutputSize(expr)
      invariant |names| == v && forall u: nat :: u < v ==> names[u] == TensorName(expr, index, u)
    {
      var name := expr.outputNames[v];
      if name == "" { name := if v == 0 then opName else opName + Decimal(v); }
      names := names + [name];
    }
  }

  lemma EntryName(exprs: Exprs, order: seq<nat>, i: nat, op: NetOp)
    requires InGraph(exprs, order) && i < |order| && order[i] < |exprs| && EntryFor(exprs, order, i, op)
    ensures op.name == OpName(exprs[order[i]], i)
  {
  }

  lemma NamesStay(exprs: Exprs, order: seq<nat>, i: nat, names: seq<string>, more: seq<string>)
    requires InGraph(exprs, order) && i < |order| && order[i] < |exprs| && NamesFor(exprs, order, i, names)
    ensures NamesFor(exprs, order, i, names + more)
  {
    hide Offset, TensorName, InGraph;
    forall v: nat | v < OutputSize(exprs[order[i]]) ensures NameAt(exprs, order, i, v, names + more) {
      assert NameAt(exprs, order, i, v, names);
    }
  }

  lemma NamesNew(exprs: Exprs, order: seq<nat>, i: nat, names: seq<string>, more: seq<string>)
    requires InGraph(exprs, order) && i < |order| && order[i] < |exprs| && |names| == Offset(exprs, order, i)
    requires |more| == OutputSize(exprs[order[i]]) && forall u: nat :: u < |more| ==>
              more[u] == TensorName(exprs[order[i]], i, u)
    ensures NamesFor(exprs, order, i, names + more)
  {
    hide Offset, TensorName, InGraph;
    forall v: nat | v < OutputSize(exprs[order[i]]) ensures NameAt(exprs, order, i, v, names + more) {
      assert (names + more)[|names| + v] == more[v] == TensorName(exprs[order[i]], i, v);
    }
  }

  // ---- loading ----

  /** Expressions made so far, their variables in order, and the variable of every tensor. */
  datatype Loaded = Loaded(exprs: Exprs, vars: seq<Var>, where: map<int, Var>)

  /** Operators that become tensors of their own. */
  predicate BecomesValue(op: OpT) {
    op.InputT? || (op.BlobT? && !op.external)
  }

  /** An expression for an operator. An unknown batch becomes 1; parameters without data become constants. */
  function Create(op: OpT, name: string, inputs: seq<Option<Var>>, outputs: nat): (e: Expr)
    ensures !BecomesValue(op) || outputs == 1 ==> OutputSize(e) == outputs
  {
    match op
    case InputT(dims, dtype, dformat) =>
      var dim := if dims != [] && dims[0] == -1 then dims[0 := 1] else dims;
      Expr(Value(INPUT, dim, RevertFormat(dformat), RevertDataType(dtype), []), name, [], [""])
    case BlobT(trainable, external, dims, dataFormat, dataType, data) =>
      if external then Expr(Operator(op, name), name, inputs, seq(outputs, _ => ""))
      else
        Expr(Value(if trainable && data != [] then TRAINABLE
                   else CONSTANT, dims, RevertFormat(dataFormat), RevertDataType(dataType), data),
             name, [], [""])
    case OtherT(_, _) => Expr(Operator(op, name), name, inputs, seq(outputs, _ => ""))
  }

  /** The variables of the operands, up to the first that is unknown. */
  function Known(where: map<int, Var>, indexes: seq<int>): seq<Option<Var>> {
    if indexes == [] || indexes[0] !in where then [] else [Some(where[indexes[0]])] + Known(where, indexes[1..])
  }

  /** Makes a variable of output `v` of the last expression, for tensor `x`. */
  function Publish(names: seq<string>, st: Loaded, x: int, v: nat): Loaded
    requires st.exprs != [] && v < OutputSize(st.exprs[|st.exprs| - 1])
  {
    if x in st.where then st
    else
      var n := |st.exprs| - 1;
      var e := if 0 <= x < |names| then Named(st.exprs[n], v, names[x]) else st.exprs[n];
      Loaded(st.exprs[n := e], st.vars + [Var(n, v)], st.where[x := Var(n, v)])
  }

  function Named(e: Expr, v: nat, name: string): Expr
    requires v < OutputSize(e)
  {
    e.(outputNames := e.outputNames[v := name], name := if e.name == "" then name else e.name)
  }

  /** Every operator that becomes a tensor has one output. */
  predicate Loadable(net: Net) {
    forall i :: 0 <= i < |net.oplists| && BecomesValue(net.oplists[i].op) ==> |net.oplists[i].outputIndexes| == 1
  }

  /** The last expression is that of the operator with `size` outputs. */
  function PublishAll(names: seq<string>, st: Loaded, indexes: seq<int>, k: nat): (r: Loaded)
    requires st.exprs != [] && k <= |indexes| <= OutputSize(st.exprs[|st.exprs| - 1])
    ensures |r.exprs| == |st.exprs| && OutputSize(r.exprs[|r.exprs| - 1]) == OutputSize(st.exprs[|st.exprs| - 1])
    decreases k
  {
    if k == 0 then st else Publish(names, PublishAll(names, st, indexes, k - 1), indexes[k - 1], k - 1)
  }

  /** What the first `k` operators of a net make. */
  function LoadFirst(net: Net, k: nat): (r: Loaded)
    requires Loadable(net) && k <= |net.oplists|
    ensures |r.exprs| == k
    decreases k
  {
    if k == 0 then Loaded([], [], map[])
    else
      var st, op := LoadFirst(net, k - 1), net.oplists[k - 1];
      var e := Create(op.op, op.name, Known(st.where, op.inputIndexes), |op.outputIndexes|);
      PublishAll(net.tensorName, st.(exprs := st.exprs + [e]), op.outputIndexes, |op.outputIndexes|)
  }

  method Load(net: Net) returns (exprs: Exprs, variable: seq<Var>)
    requires Loadable(net)
    ensures exprs == LoadFirst(net, |net.oplists|).exprs && variable == LoadFirst(net, |net.oplists|).vars
  {
    hide Create, Known, PublishAll;
    exprs, variable := [], [];
    var variableMap: map<int, Var> := map[];
    for i := 0 to |net.oplists|
      invariant Loaded(exprs, variable, variableMap) == LoadFirst(net, i)
    {
      var op := net.oplists[i];
      var inputs := Inputs(variableMap, op.inputIndexes);
      var expr := Create(op.op, op.name, inputs, |op.outputIndexes|);
      exprs, variable, variableMap := Variables(exprs + [expr], variable, variableMap, op.outputIndexes,
                                                net.tensorName);
    }
  }

  /** Variables for the outputs of the last expression. */
  method Variables(before: Exprs, vars: seq<Var>, where: map<int, Var>, indexes: seq<int>, names: seq<string>)
    returns (exprs: Exprs, variable: seq<Var>, variableMap: map<int, Var>)
    requires before != [] && |indexes| <= OutputSize(before[|before| - 1])
    ensures Loaded(exprs, variable, variableMap) == PublishAll(names, Loaded(before, vars, where), indexes, |indexes|)
  {
    exprs, variable, variableMap := before, vars, where;
    var i := |before| - 1;
    for index := 0 to |indexes|
      invariant Loaded(exprs, variable, variableMap) == PublishAll(names, Loaded(before, vars, where), indexes, index)
    {
      var outputIndex := indexes[index];
      if outputIndex !in variableMap {
        if 0 <= outputIndex < |names| { exprs := exprs[i := Named(exprs[i], index, names[outputIndex])]; }
        variableMap := variableMap[outputIndex := Var(i, index)];
        variable := variable + [Var(i, index)];
      }
    }
  }

  method Inputs(variableMap: map<int, Var>, indexes: seq<int>) returns (inputs: seq<Option<Var>>)
    ensures inputs == Known(variableMap, indexes)
  {
    inputs := [];
    for k := 0 to |indexes|
      invariant Known(variableMap, indexes) == inputs + Known(variableMap, indexes[k..])
    {
      if indexes[k] !in variableMap { return; }
      inputs := inputs + [Some(variableMap[indexes[k]])];
    }
  }

  // ---- the round trip ----

  /** The place of `n` in an order. */
  function Position(order: seq<nat>, n: nat): nat {
    if order == [] || order[0] == n then 0 else 1 + Position(order[1..], n)
  }

  lemma {:induction false} PositionIs(order: seq<nat>, p: nat)
    requires NoRepeats(order) && p < |order|
    ensures Position(order, order[p]) == p
  {
    if p > 0 {
      assert order[0] != order[p];
      PositionIs(order[1..], p - 1);
    }
  }

  /** An operand by the place of its expression. */
  function Moved(order: seq<nat>, input: Option<Var>): Option<Var> {
    if input.None? then None else Some(Var(Position(order, input.value.node), input.value.index))
  }

  /** The expression that ought to come back: the same one with its operands found again, and with all names; the
      content of an input is not kept. */
  function Renamed(order: seq<nat>, e: Expr, i: nat): Expr {
    var origin := match e.origin
      case Operator(op, _) => Operator(op, OpName(e, i))
      case Value(kind, dim, format, elem, content) => Value(kind, dim, format, elem, if kind == INPUT then []
                                                            else content);
    Expr(origin, OpName(e, i), seq(|e.inputs|, k requires 0 <= k < |e.inputs| => Moved(order, e.inputs[k])),
         AllNames(e, i))
  }

  function AllNames(e: Expr, i: nat): (r: seq<string>)
    ensures |r| == OutputSize(e)
  {
    seq(OutputSize(e), v requires 0 <= v < OutputSize(e) => TensorName(e, i, v))
  }

  /** The operands before the first null. */
  function Leading(order: seq<nat>, inputs: seq<Option<Var>>): (r: seq<Option<Var>>)
    ensures |r| <= |inputs| && forall k :: 0 <= k < |r| ==> inputs[k].Some? && r[k] == Moved(order, inputs[k])
    ensures |r| < |inputs| ==> inputs[|r|].None?
  {
    if inputs == [] || inputs[0].None? then [] else [Moved(order, inputs[0])] + Leading(order, inputs[1..])
  }

  /** The expression that does come back. */
  function Back(order: seq<nat>, e: Expr, i: nat): Expr {
    Create(OpOf(e), OpName(e, i), Leading(order, e.inputs), OutputSize(e)).(outputNames := AllNames(e, i))
  }

  /** What a caller can make sure of before saving. */
  predicate Storable(e: Expr) {
    && (forall k :: 0 <= k < |e.inputs| ==> e.inputs[k].Some?)
    && match e.origin
       case Operator(op, _) => !BecomesValue(op)
       case Value(kind, dim, _, elem, content) =>
         if kind == INPUT then
           elem in {Elem(Float, 32), Elem(Int, 32), Elem(Int, 8), Elem(UInt, 8)} && !(dim != [] && dim[0] == -1)
         else
           elem in {Elem(Float, 32), Elem(Int, 32), Elem(Int, 8), Elem(UInt, 8), Elem(BFloat, 16)}
           && (kind == TRAINABLE ==> content != [])
  }

  /** An expression comes back as it ought to exactly if it is storable. */
  lemma BackIsRenamed(order: seq<nat>, e: Expr, i: nat)
    requires e.origin.Value? ==> e.inputs == []
    ensures Back(order, e, i) == Renamed(order, e, i) <==> Storable(e)
  {
    hide OpName, TensorName, AllNames, Moved;
    match e.origin
    case Operator(op, _) =>
      var r := Leading(order, e.inputs);
      if forall k :: 0 <= k < |e.inputs| ==> e.inputs[k].Some? {
        assert |r| == |e.inputs|;
        assert r == Renamed(order, e, i).inputs;
      }
    case Value(_, _, _, _, _) =>
      assert Renamed(order, e, i).inputs == [];
  }

  /** What has been loaded after `k` operators of a saved net. */
  ghost predicate LoadedFor(exprs: Exprs, order: seq<nat>, k: nat, st: Loaded)
    requires InGraph(exprs, order)
  {
    && k <= |order| && |st.exprs| == k && |st.vars| == Offset(exprs, order, k)
    && (forall i: nat :: i < k && order[i] < |exprs| ==> st.exprs[i] == Back(order, exprs[order[i]], i))
    && (forall i: nat, v: nat, t: nat :: Owns(exprs, order, k, i, v, t) ==>
          t < |st.vars| && st.vars[t] == Var(i, v) && t in st.where && st.where[t] == Var(i, v))
    && (forall x :: x in st.where ==> 0 <= x < Offset(exprs, order, k))
  }

  /** Operand indices lead to the variables of the operands. */
  lemma {:induction false} KnownIs(exprs: Exprs, order: seq<nat>, i: nat, st: Loaded, inputs: seq<Option<Var>>,
      indexes: seq<int>)
    requires InGraph(exprs, order) && NoRepeats(order) && LoadedFor(exprs, order, i, st) && |inputs| == |indexes|
    requires forall k :: 0 <= k < |inputs| ==> IndexFor(exprs, order, inputs[k], indexes[k])
    requires forall k :: 0 <= k < |inputs| && inputs[k].Some? ==> Earlier(exprs, order, i, inputs[k].value)
    ensures Known(st.where, indexes) == Leading(order, inputs)
  {
    hide InGraph, NoRepeats, LoadedFor, IndexFor, Earlier;
    if inputs != [] {
      FirstKnown(exprs, order, i, st, inputs[0], indexes[0]);
      if inputs[0].Some? { KnownIs(exprs, order, i, st, inputs[1..], indexes[1..]); }
    }
  }

  /** The variable is an output of one of the first `i` expressions. */
  ghost predicate Earlier(exprs: Exprs, order: seq<nat>, i: nat, v: Var) {
    i <= |order| && v.node in order[..i] && v.node < |exprs| && v.index < OutputSize(exprs[v.node])
  }

  lemma FirstKnown(exprs: Exprs, order: seq<nat>, i: nat, st: Loaded, input: Option<Var>, x: int)
    requires InGraph(exprs, order) && NoRepeats(order) && LoadedFor(exprs, order, i, st)
    requires IndexFor(exprs, order, input, x)
    requires input.Some? ==> Earlier(exprs, order, i, input.value)
    ensures input.None? <==> x !in st.where
    ensures input.Some? ==> Some(st.where[x]) == Moved(order, input)
  {
    hide Offset, InGraph, NoRepeats;
    if input.Some? {
      var v := input.value;
      var p: nat :| p < i && order[p] == v.node;
      assert Owns(exprs, order, i, p, v.index, Offset(exprs, order, p) + v.index);
      PositionIs(order, p);
    }
  }

  /** After `v` outputs of operator `k` have got their variables. */
  ghost predicate Published(exprs: Exprs, order: seq<nat>, k: nat, st: Loaded, e: Expr, v: nat, r: Loaded)
    requires InGraph(exprs, order) && k < |order| && order[k] < |exprs| && v <= |AllNames(exprs[order[k]], k)|
  {
    var first := Offset(exprs, order, k);
    && v <= |e.outputNames|
    && r.exprs == st.exprs + [e.(outputNames := AllNames(exprs[order[k]], k)[..v] + e.outputNames[v..])]
    && |r.vars| == |st.vars| + v && r.vars[..|st.vars|] == st.vars
    && (forall u: nat :: u < v ==> r.vars[|st.vars| + u] == Var(k, u))
    && (forall x :: x in r.where <==> x in st.where || first <= x < first + v)
    && (forall x :: x in st.where ==> r.where[x] == st.where[x])
    && (forall x :: first <= x < first + v ==> r.where[x] == Var(k, x - first))
  }

  lemma {:induction false} PublishAllIs(exprs: Exprs, order: seq<nat>, k: nat, st: Loaded, e: Expr, names: seq<string>,
      indexes: seq<int>, v: nat)
    requires InGraph(exprs, order) && k < |order| && order[k] < |exprs| && LoadedFor(exprs, order, k, st)
    requires e.name != ""
    requires OutputSize(e) == OutputSize(exprs[order[k]]) == |indexes| && v <= |indexes|
    requires NamesFor(exprs, order, k, names)
    requires forall u: nat :: u < |indexes| ==> indexes[u] == Offset(exprs, order, k) + u
    ensures Published(exprs, order, k, st, e, v, PublishAll(names, st.(exprs := st.exprs + [e]), indexes, v))
    decreases v
  {
    hide Offset, TensorName, NamesFor, Published, Publish, LoadedFor, InGraph;
    var st0 := st.(exprs := st.exprs + [e]);
    if v == 0 {
      NonePublished(exprs, order, k, st, e);
    } else {
      PublishAllIs(exprs, order, k, st, e, names, indexes, v - 1);
      NameIs(exprs, order, k, v - 1, names);
      var r := PublishAll(names, st0, indexes, v - 1);
      PublishNext(exprs, order, k, st, e, v - 1, r, names);
    }
  }

  lemma NonePublished(exprs: Exprs, order: seq<nat>, k: nat, st: Loaded, e: Expr)
    requires InGraph(exprs, order) && k < |order| && order[k] < |exprs|
    ensures Published(exprs, order, k, st, e, 0, st.(exprs := st.exprs + [e]))
  {
    hide Offset, InGraph;
    assert AllNames(exprs[order[k]], k)[..0] + e.outputNames[0..] == e.outputNames;
  }

  lemma NameIs(exprs: Exprs, order: seq<nat>, k: nat, v: nat, names: seq<string>)
    requires InGraph(exprs, order) && k < |order| && order[k] < |exprs| && NamesFor(exprs, order, k, names)
    requires v < OutputSize(exprs[order[k]])
    ensures Offset(exprs, order, k) + v < |names|
    ensures names[Offset(exprs, order, k) + v] == AllNames(exprs[order[k]], k)[v]
  {
    assert NameAt(exprs, order, k, v, names);
  }

  lemma PublishNext(exprs: Exprs, order: seq<nat>, k: nat, st: Loaded, e: Expr, v: nat, r: Loaded, names: seq<string>)
    requires InGraph(exprs, order) && k < |order| && order[k] < |exprs| && LoadedFor(exprs, order, k, st)
    requires e.name != ""
    requires OutputSize(e) == OutputSize(exprs[order[k]]) && v < OutputSize(e)
    requires Published(exprs, order, k, st, e, v, r)
    requires var x := Offset(exprs, order, k) + v; x < |names| && names[x] == AllNames(exprs[order[k]], k)[v]
    ensures Published(exprs, order, k, st, e, v + 1, Publish(names, r, Offset(exprs, order, k) + v, v))
  {
    hide Offset;
    var all, x := AllNames(exprs[order[k]], k), Offset(exprs, order, k) + v;
    assert x !in r.where;
    var n := |r.exprs| - 1;
    assert n == k && r.exprs[n].outputNames == all[..v] + e.outputNames[v..];
    assert (all[..v] + e.outputNames[v..])[v := all[v]] == all[..v + 1] + e.outputNames[v + 1..];
    var q := Publish(names, r, x, v);
    assert q.exprs == st.exprs + [e.(outputNames := all[..v + 1] + e.outputNames[v + 1..])];
  }

  lemma NameMade(e: Expr, i: nat)
    ensures OpName(e, i) != ""
  {
  }

  /** One operator more. */
  lemma LoadNext(exprs: Exprs, order: seq<nat>, net: Net, k: nat)
    requires Acyclic(exprs) && OperandsFirst(exprs, order) && NoRepeats(order) && SavedAs(exprs, order, net)
    requires Loadable(net)
    requires k < |order| && LoadedFor(exprs, order, k, LoadFirst(net, k))
    ensures LoadedFor(exprs, order, k + 1, LoadFirst(net, k + 1))
  {
    hide Offset, TensorName, OpName, NamesFor, LoadedFor, Create, Known, PublishAll, IndexFor;
    OffsetNext(exprs, order, k);
    var st, op, e := LoadFirst(net, k), net.oplists[k], exprs[order[k]];
    assert EntryFor(exprs, order, k, op) && NamesFor(exprs, order, k, net.tensorName);
    assert After(exprs, order, k) && WellPlaced(exprs, order[k]);
    forall j | 0 <= j < |e.inputs| && e.inputs[j].Some? ensures Earlier(exprs, order, k, e.inputs[j].value) {}
    KnownIs(exprs, order, k, st, e.inputs, op.inputIndexes);
    var c := Create(op.op, op.name, Known(st.where, op.inputIndexes), |op.outputIndexes|);
    NameMade(e, k);
    CreateKeepsName(op.op, op.name, Known(st.where, op.inputIndexes), |op.outputIndexes|);
    PublishAllIs(exprs, order, k, st, c, net.tensorName, op.outputIndexes, |op.outputIndexes|);
    var r := PublishAll(net.tensorName, st.(exprs := st.exprs + [c]), op.outputIndexes, |op.outputIndexes|);
    LoadedMore(exprs, order, k, st, c, r);
  }

  lemma CreateKeepsName(op: OpT, name: string, inputs: seq<Option<Var>>, outputs: nat)
    ensures Create(op, name, inputs, outputs).name == name
  {
  }

  lemma LoadedMore(exprs: Exprs, order: seq<nat>, k: nat, st: Loaded, c: Expr, r: Loaded)
    requires InGraph(exprs, order) && k < |order| && order[k] < |exprs| && LoadedFor(exprs, order, k, st)
    requires var e := exprs[order[k]];
             OutputSize(c) == OutputSize(e) && Published(exprs, order, k, st, c, OutputSize(e), r)
             && c.(outputNames := AllNames(e, k)) == Back(order, e, k)
    ensures LoadedFor(exprs, order, k + 1, r)
  {
    hide Offset, Back, InGraph, Published, Owns;
    ExprsMore(exprs, order, k, st, c, r);
    forall i: nat, v: nat, t: nat | Owns(exprs, order, k + 1, i, v, t)
      ensures t < |r.vars| && r.vars[t] == Var(i, v) && t in r.where && r.where[t] == Var(i, v)
    {
      VarsMore(exprs, order, k, st, c, r, i, v, t);
    }
  }

  lemma ExprsMore(exprs: Exprs, order: seq<nat>, k: nat, st: Loaded, c: Expr, r: Loaded)
    requires InGraph(exprs, order) && k < |order| && order[k] < |exprs| && LoadedFor(exprs, order, k, st)
    requires var e := exprs[order[k]];
             OutputSize(c) == OutputSize(e) && Published(exprs, order, k, st, c, OutputSize(e), r)
             && c.(outputNames := AllNames(e, k)) == Back(order, e, k)
    ensures |r.exprs| == k + 1 && |r.vars| == Offset(exprs, order, k + 1)
    ensures forall i: nat :: i < k + 1 && order[i] < |exprs| ==> r.exprs[i] == Back(order, exprs[order[i]], i)
    ensures forall x :: x in r.where ==> 0 <= x < Offset(exprs, order, k + 1)
  {
    hide Offset, Back, InGraph, Owns;
    OffsetNext(exprs, order, k);
    var e := exprs[order[k]];
    assert AllNames(e, k)[..OutputSize(e)] + c.outputNames[OutputSize(e)..] == AllNames(e, k);
    assert r.exprs == st.exprs + [Back(order, e, k)];
    forall i: nat | i < k + 1 && order[i] < |exprs| ensures r.exprs[i] == Back(order, exprs[order[i]], i) {
      if i < k { assert r.exprs[i] == st.exprs[i]; }
    }
  }

  lemma VarsMore(exprs: Exprs, order: seq<nat>, k: nat, st: Loaded, c: Expr, r: Loaded, i: nat, v: nat, t: nat)
    requires InGraph(exprs, order) && k < |order| && order[k] < |exprs| && LoadedFor(exprs, order, k, st)
    requires Published(exprs, order, k, st, c, OutputSize(exprs[order[k]]), r) && Owns(exprs, order, k + 1, i, v, t)
    ensures t < |r.vars| && r.vars[t] == Var(i, v) && t in r.where && r.where[t] == Var(i, v)
  {
    hide Offset, Back, InGraph;
    if i < k {
      assert Owns(exprs, order, k, i, v, t);
      assert r.vars[..|st.vars|][t] == st.vars[t];
    } else {
      assert r.vars[|st.vars| + v] == Var(k, v);
    }
  }

  lemma SavedSizes(exprs: Exprs, order: seq<nat>, net: Net)
    requires SavedAs(exprs, order, net)
    ensures InGraph(exprs, order) && |net.oplists| == |order|
  {
  }

  lemma NoneLoaded(exprs: Exprs, order: seq<nat>, net: Net)
    requires InGraph(exprs, order) && Loadable(net)
    ensures LoadedFor(exprs, order, 0, LoadFirst(net, 0))
  {
  }

  lemma {:induction false} LoadedIs(exprs: Exprs, order: seq<nat>, net: Net, k: nat)
    requires Acyclic(exprs) && OperandsFirst(exprs, order) && NoRepeats(order) && SavedAs(exprs, order, net)
    requires Loadable(net)
    requires k <= |order|
    ensures LoadedFor(exprs, order, k, LoadFirst(net, k))
    decreases k
  {
    hide Acyclic, OperandsFirst, NoRepeats, SavedAs, Loadable, LoadFirst, LoadedFor, InGraph;
    SavedSizes(exprs, order, net);
    if k == 0 {
      NoneLoaded(exprs, order, net);
    } else {
      LoadedIs(exprs, order, net, k - 1);
      LoadNext(exprs, order, net, k - 1);
    }
  }

  /** Loading what has been saved gives one expression for each that was saved, in order, and a variable for each of
      their tensors. An expression comes back with the same operator or value, the same operands and all names filled in
      exactly if it is storable. */
  lemma RoundTrip(exprs: Exprs, order: seq<nat>, net: Net)
    requires Acyclic(exprs) && OperandsFirst(exprs, order) && NoRepeats(order) && SavedAs(exprs, order, net)
    requires Loadable(net)
    ensures var r := LoadFirst(net, |net.oplists|);
            && |r.exprs| == |order| && |r.vars| == |net.tensorName|
            && (forall i: nat :: i < |order| && order[i] < |exprs| ==>
                  (r.exprs[i] == Renamed(order, exprs[order[i]], i) <==> Storable(exprs[order[i]])))
            && (forall i: nat, v: nat, t: nat :: Owns(exprs, order, |order|, i, v, t) ==>
                                                   t < |r.vars| && r.vars[t] == Var(i, v))
  {
    hide Offset, Back, Renamed, Storable, OperandsFirst, NoRepeats, Loadable;
    LoadedIs(exprs, order, net, |order|);
    forall i: nat | i < |order| && order[i] < |exprs|
      ensures Back(order, exprs[order[i]], i) == Renamed(order, exprs[order[i]], i) <==> Storable(exprs[order[i]])
    {
      assert WellPlaced(exprs, order[i]);
      BackIsRenamed(order, exprs[order[i]], i);
    }
  }

  /** Operators of which each becomes an expression with as many outputs can be loaded again. */
  lemma SavedLoadable(exprs: Exprs, order: seq<nat>, net: Net)
    requires Acyclic(exprs) && SavedAs(exprs, order, net)
    requires forall n: nat :: n < |exprs| && exprs[n].origin.Operator? ==> !BecomesValue(exprs[n].origin.op)
    ensures Loadable(net)
  {
    hide Offset, OpName, NamesFor, IndexFor;
    forall i: nat | i < |net.oplists| && BecomesValue(net.oplists[i].op) ensures |net.oplists[i].outputIndexes| == 1 {
      OffsetNext(exprs, order, i);
      assert EntryFor(exprs, order, i, net.oplists[i]) && WellPlaced(exprs, order[i]);
    }
  }
}
