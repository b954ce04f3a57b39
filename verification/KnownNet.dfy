/**
A graph, the net that it is saved as, and what is loaded from that: every kind of tensor, made up names, a null operand
and an operand that is not the first output.
 */
module KnownNet {
  import opened SaveLoad
  import opened StoredGraph
  import opened Wrappers

  // ---- numbers in names ----

  predicate IsDigit(c: char) {
    '0' <= c <= '9'
  }

  /** The number that the digits stand for. */
  function NumberOf(s: string): int {
    if s == "" then 0 else 10 * NumberOf(s[..|s| - 1]) + (s[|s| - 1] as int - '0' as int)
  }

  /** The digits of a number, and none too many. */
  lemma {:induction false} DecimalIs(n: nat)
    ensures NumberOf(Decimal(n)) == n && forall i :: 0 <= i < |Decimal(n)| ==> IsDigit(Decimal(n)[i])
    ensures n > 0 ==> Decimal(n)[0] != '0'
  {
    if n >= 10 {
      DecimalIs(n / 10);
      var s := Decimal(n / 10) + [('0' as int + n % 10) as char];
      assert s[..|s| - 1] == Decimal(n / 10);
    } else {
      var s := [('0' as int + n) as char];
      assert s[..0] == "";
    }
  }

  lemma SmallNumbers()
    ensures Decimal(1) == "1" && Decimal(2) == "2" && Decimal(3) == "3" && Decimal(4) == "4" && Decimal(6) == "6"
  {
  }

  // ---- the graph ----

  function Graph(): Exprs {
    [Expr(Value(INPUT, [-1, 3], NHWC, Elem(Float, 32), []), "", [], [""]),
     Expr(Value(CONSTANT, [2], NC4HW4, Elem(Int, 32), [7, 8]), "c", [], ["c"]),
     Expr(Value(TRAINABLE, [1], NCHW, Elem(UInt, 8), [9]), "", [], [""]),
     Expr(Operator(OtherT("Split", 5), ""), "", [Some(Var(0, 0)), None, Some(Var(1, 0))], ["", ""]),
     Expr(Operator(OtherT("BinaryOp", 1), "own"), "", [Some(Var(3, 1)), Some(Var(2, 0))], ["y"]),
     Expr(Value(CONSTANT, [1], NHWC, Elem(Int, 8), [-1]), "", [], [""]),
     Expr(Value(TRAINABLE, [], NCHW, Elem(BFloat, 16), [5]), "b", [], ["z"])]
  }

  const ORDER: seq<nat> := [1, 0, 2, 3, 4, 5, 6]

  function Saved(): Net {
    Net([NetOp(BlobT(false, false, [2], FORMAT_NC4HW4, DT_INT32, [7, 8]), "c", [], [0]),
         NetOp(InputT([-1, 3], DT_FLOAT, FORMAT_NHWC), "Input2", [], [1]),
         NetOp(BlobT(true, false, [1], FORMAT_NCHW, DT_UINT8, [9]), "TrainableParam3", [], [2]),
         NetOp(OtherT("Split", 5), "Split4", [1, -1, 0], [3, 4]),
         NetOp(OtherT("BinaryOp", 1), "own", [4, 2], [5]),
         NetOp(BlobT(false, false, [1], FORMAT_NHWC, DT_INT8, [-1]), "Const6", [], [6]),
         NetOp(BlobT(true, false, [], FORMAT_NCHW, DT_BFLOAT16, [5]), "b", [], [7])],
        ["c", "Input2", "TrainableParam3", "Split4", "Split41", "y", "Const6", "z"])
  }

  function Reloaded(): Exprs {
    [Expr(Value(CONSTANT, [2], NC4HW4, Elem(Int, 32), [7, 8]), "c", [], ["c"]),
     Expr(Value(INPUT, [1, 3], NHWC, Elem(Float, 32), []), "Input2", [], ["Input2"]),
     Expr(Value(TRAINABLE, [1], NCHW, Elem(UInt, 8), [9]), "TrainableParam3", [], ["TrainableParam3"]),
     Expr(Operator(OtherT("Split", 5), "Split4"), "Split4", [Some(Var(1, 0))], ["Split4", "Split41"]),
     Expr(Operator(OtherT("BinaryOp", 1), "own"), "own", [Some(Var(3, 1)), Some(Var(2, 0))], ["y"]),
     Expr(Value(CONSTANT, [1], NHWC, Elem(Int, 8), [-1]), "Const6", [], ["Const6"]),
     Expr(Value(TRAINABLE, [], NCHW, Elem(BFloat, 16), [5]), "b", [], ["z"])]
  }

  lemma Offsets()
    ensures InGraph(Graph(), ORDER) && |Graph()| == |ORDER| == 7
    ensures Offset(Graph(), ORDER, 0) == 0 && Offset(Graph(), ORDER, 1) == 1 && Offset(Graph(), ORDER, 2) == 2
    ensures Offset(Graph(), ORDER, 3) == 3 && Offset(Graph(), ORDER, 4) == 5 && Offset(Graph(), ORDER, 5) == 6
    ensures Offset(Graph(), ORDER, 6) == 7 && Offset(Graph(), ORDER, 7) == 8
  {
    hide Graph, Offset, OutputSize;
    Sizes();
    NoOffsets(Graph(), ORDER);
    OffsetNext(Graph(), ORDER, 0);
    OffsetNext(Graph(), ORDER, 1);
    OffsetNext(Graph(), ORDER, 2);
    OffsetNext(Graph(), ORDER, 3);
    OffsetNext(Graph(), ORDER, 4);
    OffsetNext(Graph(), ORDER, 5);
    OffsetNext(Graph(), ORDER, 6);
  }

  lemma Sizes()
    ensures |Graph()| == 7 && forall n :: 0 <= n < 7 ==> OutputSize(Graph()[n]) == if n == 3 then 2 else 1
    ensures InGraph(Graph(), ORDER)
  {
  }

  lemma EntryOf(net: Net, i: nat)
    requires InGraph(Graph(), ORDER) && SavedAs(Graph(), ORDER, net) && i < 7
    ensures |net.oplists| == 7 && ORDER[i] < |Graph()| && |net.tensorName| == Offset(Graph(), ORDER, 7)
    ensures EntryFor(Graph(), ORDER, i, net.oplists[i]) && NamesFor(Graph(), ORDER, i, net.tensorName)
  {
    hide Offset, EntryFor, NamesFor;
  }

  /** The first tensor of an expression, and where the expression stands. */
  function First(n: nat): nat {
    match n
    case 0 => 1 case 1 => 0 case 2 => 2 case 3 => 3 case 4 => 5 case 5 => 6
    case _ => 7
  }

  function Place(n: nat): nat {
    if n == 0 then 1 else if n == 1 then 0 else n
  }

  function IndexOf(input: Option<Var>): int {
    if input.None? then -1 else First(input.value.node) + input.value.index
  }

  function IndexesOf(inputs: seq<Option<Var>>): (r: seq<int>)
    ensures |r| == |inputs| && forall k :: 0 <= k < |r| ==> r[k] == IndexOf(inputs[k])
  {
    if inputs == [] then [] else [IndexOf(inputs[0])] + IndexesOf(inputs[1..])
  }

  function From(first: nat, n: nat): (r: seq<int>)
    ensures |r| == n && forall k :: 0 <= k < n ==> r[k] == first + k
  {
    if n == 0 then [] else From(first, n - 1) + [first + n - 1]
  }

  lemma OffsetIs(n: nat)
    requires n < 7
    ensures InGraph(Graph(), ORDER) && Place(n) < |ORDER| && ORDER[Place(n)] == n
    ensures Offset(Graph(), ORDER, Place(n)) == First(n)
  {
    hide Offset, Graph;
    Offsets();
  }

  lemma IndexIs(input: Option<Var>, x: int)
    requires InGraph(Graph(), ORDER) && IndexFor(Graph(), ORDER, input, x)
    requires input.Some? ==> input.value.node < 7
    ensures x == IndexOf(input)
  {
    hide Offset, Graph, Place, First;
    if input.Some? {
      OffsetIs(input.value.node);
      var p := Place(input.value.node);
      assert p < |ORDER| && ORDER[p] == input.value.node && x == Offset(Graph(), ORDER, p) + input.value.index;
    }
  }

  /** Operator `i` is made from the expression at that place. */
  lemma OpFrom(net: Net, i: nat, e: Expr)
    requires InGraph(Graph(), ORDER) && SavedAs(Graph(), ORDER, net) && i < 7 && ORDER[i] < |Graph()|
    requires e == Graph()[ORDER[i]]
    requires forall k :: 0 <= k < |e.inputs| && e.inputs[k].Some? ==> e.inputs[k].value.node < 7
    ensures |net.oplists| == 7 && net.oplists[i]
            == NetOp(OpOf(e), OpName(e, i), IndexesOf(e.inputs), From(Offset(Graph(), ORDER, i), OutputSize(e)))
  {
    hide Offset, Graph, OpOf, OpName, IndexFor, SavedAs;
    EntryOf(net, i);
    var op := net.oplists[i];
    forall k | 0 <= k < |e.inputs| ensures op.inputIndexes[k] == IndexOf(e.inputs[k]) {
      IndexIs(e.inputs[k], op.inputIndexes[k]);
    }
    assert op.inputIndexes == IndexesOf(e.inputs);
    assert op.outputIndexes == From(Offset(Graph(), ORDER, i), OutputSize(e));
  }

  lemma TensorsSaved(net: Net)
    requires InGraph(Graph(), ORDER) && SavedAs(Graph(), ORDER, net)
    ensures |net.oplists| == 7 && forall i :: 0 <= i < 3 ==> net.oplists[i] == Saved().oplists[i]
  {
    hide SavedAs, Offset, Decimal;
    Offsets();
    SmallNumbers();
    OpFrom(net, 0, Graph()[1]);
    OpFrom(net, 1, Graph()[0]);
    OpFrom(net, 2, Graph()[2]);
  }

  lemma OperatorsSaved(net: Net)
    requires InGraph(Graph(), ORDER) && SavedAs(Graph(), ORDER, net)
    ensures |net.oplists| == 7 && net.oplists[3] == Saved().oplists[3] && net.oplists[4] == Saved().oplists[4]
  {
    hide SavedAs, Offset, Decimal;
    Offsets();
    SmallNumbers();
    OpFrom(net, 3, Graph()[3]);
    OpFrom(net, 4, Graph()[4]);
  }

  lemma OthersSaved(net: Net)
    requires InGraph(Graph(), ORDER) && SavedAs(Graph(), ORDER, net)
    ensures |net.oplists| == 7 && net.oplists[5] == Saved().oplists[5] && net.oplists[6] == Saved().oplists[6]
  {
    hide SavedAs, Offset, Decimal;
    Offsets();
    SmallNumbers();
    OpFrom(net, 5, Graph()[5]);
    OpFrom(net, 6, Graph()[6]);
  }

  lemma NamesSaved(net: Net, i: nat)
    requires InGraph(Graph(), ORDER) && SavedAs(Graph(), ORDER, net) && i < 7
    ensures |net.tensorName| == 8
    ensures if i == 3 then net.tensorName[3] == "Split4" && net.tensorName[4] == "Split41"
            else First(ORDER[i]) < 8 && net.tensorName[First(ORDER[i])] == Saved().tensorName[First(ORDER[i])]
  {
    hide SavedAs, Offset, Decimal;
    Offsets();
    SmallNumbers();
    EntryOf(net, i);
    assert NameAt(Graph(), ORDER, i, 0, net.tensorName);
    if i == 3 { assert NameAt(Graph(), ORDER, 3, 1, net.tensorName); }
  }

  /** The graph, saved in this order, is this net. */
  lemma KnownSaved(net: Net)
    requires InGraph(Graph(), ORDER) && SavedAs(Graph(), ORDER, net)
    ensures net == Saved()
  {
    hide Graph, SavedAs;
    TensorsSaved(net);
    OperatorsSaved(net);
    OthersSaved(net);
    NamesSaved(net, 0);
    NamesSaved(net, 1);
    NamesSaved(net, 2);
    NamesSaved(net, 3);
    NamesSaved(net, 4);
    NamesSaved(net, 5);
    NamesSaved(net, 6);
    assert net.tensorName == Saved().tensorName;
    assert net.oplists == Saved().oplists;
  }

  lemma WellMade()
    ensures Acyclic(Graph()) && InGraph(Graph(), ORDER) && OperandsFirst(Graph(), ORDER) && NoRepeats(ORDER)
  {
    Offsets();
    forall n: nat | n < 7 ensures WellPlaced(Graph(), n) {}
    forall p: nat | p < 7 ensures After(Graph(), ORDER, p) {
      assert ORDER[..3] == [1, 0, 2] && ORDER[..4] == [1, 0, 2, 3];
    }
  }

  lemma MadeUpNames()
    ensures "Input" + "2" == "Input2" && "TrainableParam" + "3" == "TrainableParam3" && "Const" + "6" == "Const6"
    ensures "Split" + "4" == "Split4" && "Split4" + "1" == "Split41"
  {
  }

  /** An expression with one output and a name for it. */
  lemma OneName(e: Expr, i: nat)
    requires OutputSize(e) == 1
    ensures SaveLoad.AllNames(e, i) == [if e.outputNames[0] != "" then e.outputNames[0] else OpName(e, i)]
  {
    assert SaveLoad.AllNames(e, i) == [TensorName(e, i, 0)];
  }

  lemma TensorBack(i: nat)
    requires i < 7 && i != 3 && i != 4 && InGraph(Graph(), ORDER) && ORDER[i] < |Graph()|
    ensures Back(ORDER, Graph()[ORDER[i]], i) == Reloaded()[i]
  {
    hide Decimal, SaveLoad.AllNames;
    SmallNumbers();
    MadeUpNames();
    OneName(Graph()[ORDER[i]], i);
    assert [-1, 3][0 := 1] == [1, 3];
    if i == 0 { } else if i == 1 { } else if i == 2 { } else if i == 5 { } else { }
  }

  lemma SplitBack()
    requires InGraph(Graph(), ORDER)
    ensures Back(ORDER, Graph()[3], 3) == Reloaded()[3]
  {
    hide Decimal, Position;
    SmallNumbers();
    MadeUpNames();
    Positions();
    var a := Graph()[3];
    assert OpName(a, 3) == "Split4";
    assert SaveLoad.AllNames(a, 3) == [TensorName(a, 3, 0), TensorName(a, 3, 1)];
    assert Leading(ORDER, a.inputs) == [Some(Var(1, 0))];
  }

  lemma SumBack()
    requires InGraph(Graph(), ORDER)
    ensures Back(ORDER, Graph()[4], 4) == Reloaded()[4]
  {
    hide Decimal, Position, SaveLoad.AllNames;
    Positions();
    var b := Graph()[4];
    OneName(b, 4);
    assert b.inputs[1..][1..] == [];
    assert Leading(ORDER, b.inputs) == [Some(Var(3, 1)), Some(Var(2, 0))];
  }

  lemma Positions()
    ensures Position(ORDER, 0) == 1 && Position(ORDER, 2) == 2 && Position(ORDER, 3) == 3
  {
    WellMade();
    PositionIs(ORDER, 1);
    PositionIs(ORDER, 2);
    PositionIs(ORDER, 3);
  }

  lemma AllOthers()
    ensures |Reloaded()| == 7
    ensures forall n: nat :: n < |Graph()| && Graph()[n].origin.Operator? ==> !BecomesValue(Graph()[n].origin.op)
  {
  }

  /** And this is what is loaded from it: the batch that is not known has become 1, and what follows the null operand is
      gone. */
  lemma KnownLoaded(net: Net)
    requires InGraph(Graph(), ORDER) && SavedAs(Graph(), ORDER, net)
    ensures Loadable(net) && LoadFirst(net, |net.oplists|).exprs == Reloaded()
  {
    hide SavedAs, Offset, Back, OperandsFirst, NoRepeats, Loadable, Graph, LoadFirst, Reloaded, Acyclic, BecomesValue;
    WellMade();
    Offsets();
    AllOthers();
    SavedLoadable(Graph(), ORDER, net);
    EntryOf(net, 0);
    LoadedIs(Graph(), ORDER, net, 7);
    SplitBack();
    SumBack();
    forall i: nat | i < 7 ensures LoadFirst(net, 7).exprs[i] == Reloaded()[i] {
      if i != 3 && i != 4 { TensorBack(i); }
    }
  }

  // ---- a net from elsewhere ----

  /** Operators without names, a tensor index without a name, an index that two operators give, an operand that no
      operator gives, parameters without data, and a blob in a file of its own. */
  function Foreign(): Net {
    Net([NetOp(InputT([], DT_INT64, FORMAT_UNKNOWN), "", [], [5]),
         NetOp(BlobT(true, true, [1], FORMAT_NHWC, DT_FLOAT, []), "w", [5, 9, 5], [1, 5]),
         NetOp(BlobT(true, false, [2], FORMAT_NC4HW4, DT_INVALID, []), "", [], [2])],
        ["n0", "n1", "n2"])
  }

  function External(): OpT { BlobT(true, true, [1], FORMAT_NHWC, DT_FLOAT, []) }

  function Imported(): Exprs {
    [Expr(Value(INPUT, [], NCHW, Elem(Int, 32), []), "", [], [""]),
     Expr(Operator(External(), "w"), "w", [Some(Var(0, 0))], ["n1", ""]),
     Expr(Value(CONSTANT, [2], NC4HW4, Elem(Float, 32), []), "n2", [], ["n2"])]
  }

  lemma LoadStep(net: Net, k: nat, st: Loaded, e: Expr)
    requires Loadable(net) && 0 < k <= |net.oplists| && LoadFirst(net, k - 1) == st
    requires var op := net.oplists[k - 1];
             e == Create(op.op, op.name, Known(st.where, op.inputIndexes), |op.outputIndexes|)
    ensures OutputSize(e) == |net.oplists[k - 1].outputIndexes|
    ensures var indexes := net.oplists[k - 1].outputIndexes;
            LoadFirst(net, k) == PublishAll(net.tensorName, st.(exprs := st.exprs + [e]), indexes, |indexes|)
  {
    hide Known, PublishAll;
  }

  lemma ImportedFirst()
    ensures Loadable(Foreign())
    ensures LoadFirst(Foreign(), 1) == Loaded(Imported()[..1], [Var(0, 0)], map[5 := Var(0, 0)])
  {
    var net := Foreign();
    var e := Create(net.oplists[0].op, "", [], 1);
    LoadStep(net, 1, Loaded([], [], map[]), e);
    assert Imported()[..1] == [Imported()[0]] == [] + [e];
  }

  lemma ImportedSecond()
    ensures Loadable(Foreign())
    ensures LoadFirst(Foreign(), 2)
            == Loaded(Imported()[..2], [Var(0, 0), Var(1, 0)], map[5 := Var(0, 0), 1 := Var(1, 0)])
  {
    hide LoadFirst, Create, Imported;
    PublishedSecond();
    ImportedFirst();
    var net, st := Foreign(), Loaded(Imported()[..1], [Var(0, 0)], map[5 := Var(0, 0)]);
    KnownFirst(st.where);
    var e := Expr(Operator(External(), "w"), "w", [Some(Var(0, 0))], ["", ""]);
    ExternalMade();
    LoadStep(net, 2, st, e);
  }

  lemma KnownFirst(where: map<int, Var>)
    requires where == map[5 := Var(0, 0)]
    ensures Known(where, [5, 9, 5]) == [Some(Var(0, 0))] && Known(where, []) == []
  {
    var s: seq<int> := [5, 9, 5];
    assert s[1..] == [9, 5];
  }

  lemma ExternalMade()
    ensures Create(External(), "w", [Some(Var(0, 0))], 2)
            == Expr(Operator(External(), "w"), "w", [Some(Var(0, 0))], ["", ""])
  {
  }

  lemma PublishedSecond()
    ensures |Imported()| == 3
    ensures var st := Loaded(Imported()[..1] + [Expr(Operator(External(), "w"), "w", [Some(Var(0, 0))], ["", ""])],
                             [Var(0, 0)], map[5 := Var(0, 0)]);
            PublishAll(["n0", "n1", "n2"], st, [1, 5], 2)
            == Loaded(Imported()[..2], [Var(0, 0), Var(1, 0)], map[5 := Var(0, 0), 1 := Var(1, 0)])
  {
    var e := Expr(Operator(External(), "w"), "w", [Some(Var(0, 0))], ["", ""]);
    var st := Loaded(Imported()[..1] + [e], [Var(0, 0)], map[5 := Var(0, 0)]);
    assert ["", ""][0 := "n1"] == ["n1", ""];
    assert st.exprs[1 := Imported()[1]] == Imported()[..2];
    assert PublishAll(["n0", "n1", "n2"], st, [1, 5], 0) == st;
  }

  lemma KnownImported()
    ensures Loadable(Foreign()) && LoadFirst(Foreign(), 3).exprs == Imported()
    ensures LoadFirst(Foreign(), 3).vars == [Var(0, 0), Var(1, 0), Var(2, 0)]
  {
    hide LoadFirst;
    ImportedSecond();
    var net := Foreign();
    var st := Loaded(Imported()[..2], [Var(0, 0), Var(1, 0)], map[5 := Var(0, 0), 1 := Var(1, 0)]);
    var e := Expr(Value(CONSTANT, [2], NC4HW4, Elem(Float, 32), []), "", [], [""]);
    LoadStep(net, 3, st, e);
    assert [""][0 := "n2"] == ["n2"];
    assert (st.exprs + [e])[2 := Imported()[2]] == Imported();
  }
}
