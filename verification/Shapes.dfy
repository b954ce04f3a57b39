/**
Shape memoisation of express/Expr.cpp: every expression remembers the shapes of its outputs once they have
been inferred, and resizing a leaf makes the expressions behind it forget them. Operators here infer shapes from the
shapes of their operands alone.
 */
module Shapes {
  import opened Wrappers
  import opened ExprGraph

  /** The dimensions of a tensor; its order and element type are `kind`. */
  datatype Info = Info(dim: seq<int>, kind: nat)

  datatype Expr =
    | Source
    | Apply(infer: seq<Info> -> Option<seq<Info>>, outputs: nat, inputs: seq<Operand>, constant: bool)

  type Exprs = seq<Expr>

  function Width(e: Expr): nat {
    if e.Source? then 1 else e.outputs
  }

  predicate InPlace(exprs: Exprs, n: nat)
    requires n < |exprs|
  {
    exprs[n].Apply? ==>
      forall i :: 0 <= i < |exprs[n].inputs| ==>
        exprs[n].inputs[i].node < n && exprs[n].inputs[i].index < Width(exprs[exprs[n].inputs[i].node])
  }

  predicate Ordered(exprs: Exprs) {
    forall n: nat :: n < |exprs| ==> InPlace(exprs, n)
  }

  // ---- what shapes mean ----

  /** Shape inference of one operator, which must give a shape to each of its outputs. */
  function Inferred(e: Expr, args: seq<Info>): (r: Option<seq<Info>>)
    requires e.Apply?
    ensures r.Some? ==> |r.value| == e.outputs
  {
    var r := e.infer(args);
    if r.Some? && |r.value| == e.outputs then r else None
  }

  /** The shapes of an expression, inferred recursively from those of the leaves. */
  function Shape(exprs: Exprs, leaves: seq<Info>, n: nat): (r: Option<seq<Info>>)
    requires Ordered(exprs) && |leaves| == |exprs| && n < |exprs|
    ensures r.Some? ==> |r.value| == Width(exprs[n])
    decreases n, if exprs[n].Source? then 0 else |exprs[n].inputs| + 1
  {
    if exprs[n].Source? then Some([leaves[n]])
    else
      assert InPlace(exprs, n);
      var args := ArgShapes(exprs, leaves, n, |exprs[n].inputs|);
      if args.None? then None else Inferred(exprs[n], args.value)
  }

  /** The shapes of the first `k` operands. */
  function ArgShapes(exprs: Exprs, leaves: seq<Info>, n: nat, k: nat): (r: Option<seq<Info>>)
    requires Ordered(exprs) && |leaves| == |exprs| && n < |exprs| && exprs[n].Apply? && k <= |exprs[n].inputs|
    requires InPlace(exprs, n)
    ensures r.Some? ==> |r.value| == k
    decreases n, k
  {
    if k == 0 then Some([])
    else
      var o := exprs[n].inputs[k - 1];
      var before, s := ArgShapes(exprs, leaves, n, k - 1), Shape(exprs, leaves, o.node);
      if before.None? || s.None? then None else Some(before.value + [s.value[o.index]])
  }

  /** Operand shapes are those of the operands, and there are none if one of them has none. */
  lemma {:induction false} ArgShapeAt(exprs: Exprs, leaves: seq<Info>, n: nat, k: nat, i: nat)
    requires Ordered(exprs) && |leaves| == |exprs| && n < |exprs| && exprs[n].Apply? && i < k <= |exprs[n].inputs|
    requires InPlace(exprs, n)
    ensures var o := exprs[n].inputs[i];
            var args, s := ArgShapes(exprs, leaves, n, k), Shape(exprs, leaves, o.node);
            (s.None? ==> args.None?) && (args.Some? ==> s.Some? && args.value[i] == s.value[o.index])
  {
    if i < k - 1 { ArgShapeAt(exprs, leaves, n, k - 1, i); }
  }

  /** An operator has the shapes that it infers from those of the outputs which its operands name, in order, if there is
      one for each of its outputs; and none otherwise. */
  lemma ShapeFromOperands(exprs: Exprs, leaves: seq<Info>, n: nat, args: seq<Info>)
    requires Ordered(exprs) && |leaves| == |exprs| && n < |exprs| && exprs[n].Apply? && InPlace(exprs, n)
    requires |args| == |exprs[n].inputs| && forall i :: 0 <= i < |args| ==>
               var s := Shape(exprs, leaves, exprs[n].inputs[i].node);
               s.Some? && args[i] == s.value[exprs[n].inputs[i].index]
    ensures var r := exprs[n].infer(args);
            Shape(exprs, leaves, n) == if r.Some? && |r.value| == exprs[n].outputs then r else None
  {
    AllArgShapes(exprs, leaves, n, |args|, args);
    assert args[..|args|] == args;
  }

  lemma {:induction false} AllArgShapes(exprs: Exprs, leaves: seq<Info>, n: nat, k: nat, args: seq<Info>)
    requires Ordered(exprs) && |leaves| == |exprs| && n < |exprs| && exprs[n].Apply? && InPlace(exprs, n)
    requires k <= |args| == |exprs[n].inputs| && forall i :: 0 <= i < |args| ==>
               var s := Shape(exprs, leaves, exprs[n].inputs[i].node);
               s.Some? && args[i] == s.value[exprs[n].inputs[i].index]
    ensures ArgShapes(exprs, leaves, n, k) == Some(args[..k])
  {
    if k > 0 {
      AllArgShapes(exprs, leaves, n, k - 1, args);
      assert args[..k] == args[..k - 1] + [args[k - 1]];
    }
  }

  /** An operator with an operand that has no shape has none. */
  lemma OperandWithoutShape(exprs: Exprs, leaves: seq<Info>, n: nat, i: nat)
    requires Ordered(exprs) && |leaves| == |exprs| && n < |exprs| && exprs[n].Apply? && InPlace(exprs, n)
    requires i < |exprs[n].inputs| && Shape(exprs, leaves, exprs[n].inputs[i].node).None?
    ensures Shape(exprs, leaves, n).None?
  {
    ArgShapeAt(exprs, leaves, n, |exprs[n].inputs|, i);
  }

  /** Two ways to give shapes to leaves that agree on the operands agree on the arguments. */
  lemma {:induction false} SameArgs(exprs: Exprs, leaves: seq<Info>, others: seq<Info>, n: nat, k: nat)
    requires Ordered(exprs) && |leaves| == |others| == |exprs| && n < |exprs| && exprs[n].Apply?
    requires InPlace(exprs, n) && k <= |exprs[n].inputs|
    requires forall i :: 0 <= i < k ==>
                           Shape(exprs, leaves, exprs[n].inputs[i].node)
                           == Shape(exprs, others, exprs[n].inputs[i].node)
    ensures ArgShapes(exprs, leaves, n, k) == ArgShapes(exprs, others, n, k)
  {
    if k > 0 { SameArgs(exprs, leaves, others, n, k - 1); }
  }

  // ---- what is remembered ----

  /** Expression `e` has an operand among the outputs of `n`. */
  ghost predicate Reads(e: Expr, n: nat) {
    e.Apply? && exists i :: 0 <= i < |e.inputs| && e.inputs[i].node == n
  }

  ghost predicate BackLinked(exprs: Exprs, to: Links) {
    && |to| == |exprs|
    && (forall n: nat :: n < |exprs| ==> forall e: nat :: e in to[n] <==> e < |exprs| && Reads(exprs[e], n))
  }

  /** Whether the shapes of an expression are to be inferred, and whether that may succeed. */
  datatype Flags = Flags(dirty: bool, valid: bool)

  const FORGOTTEN := Flags(true, true)

  /** A clean expression remembers the shapes that inference gives it, and all its operands are clean; for an invalid
      one inference gives nothing, because an operand is invalid or although all are clean. */
  ghost predicate Remembers(exprs: Exprs, leaves: seq<Info>, flags: seq<Flags>, infos: seq<seq<Info>>, n: nat)
    requires Ordered(exprs) && |leaves| == |flags| == |infos| == |exprs| && n < |exprs|
  {
    assert InPlace(exprs, n);
    && |infos[n]| == Width(exprs[n])
    && (!flags[n].dirty ==> flags[n].valid && Shape(exprs, leaves, n) == Some(infos[n]))
    && (exprs[n].Source? ==> !flags[n].dirty)
    && (exprs[n].Apply? && !flags[n].dirty ==> OperandsClean(exprs[n], flags))
    && (!flags[n].valid ==> Shape(exprs, leaves, n).None?
                            && (OperandInvalid(exprs[n], flags) || OperandsClean(exprs[n], flags)))
  }

  ghost predicate OperandsClean(e: Expr, flags: seq<Flags>) {
    e.Apply? && forall i :: 0 <= i < |e.inputs| ==> e.inputs[i].node < |flags| && !flags[e.inputs[i].node].dirty
  }

  ghost predicate OperandInvalid(e: Expr, flags: seq<Flags>) {
    e.Apply? && exists i :: 0 <= i < |e.inputs| && e.inputs[i].node < |flags| && !flags[e.inputs[i].node].valid
  }

  ghost predicate AllRemember(exprs: Exprs, leaves: seq<Info>, flags: seq<Flags>, infos: seq<seq<Info>>) {
    && Ordered(exprs) && |leaves| == |flags| == |infos| == |exprs|
    && forall n: nat :: n < |exprs| ==> Remembers(exprs, leaves, flags, infos, n)
  }

  lemma Recall(exprs: Exprs, leaves: seq<Info>, flags: seq<Flags>, infos: seq<seq<Info>>, n: nat)
    requires AllRemember(exprs, leaves, flags, infos) && n < |exprs|
    ensures Ordered(exprs) && |leaves| == |flags| == |infos| == |exprs| && InPlace(exprs, n)
    ensures |infos[n]| == Width(exprs[n]) && (exprs[n].Source? ==> !flags[n].dirty)
    ensures !flags[n].dirty ==> flags[n].valid && Shape(exprs, leaves, n) == Some(infos[n])
    ensures !flags[n].valid ==> Shape(exprs, leaves, n).None?
  {
    assert Remembers(exprs, leaves, flags, infos, n);
  }

  // ---- forgetting ----

  /** All users of expression `n` have forgotten their shapes. */
  ghost predicate UsersTold(exprs: Exprs, flags: seq<Flags>, n: nat)
    requires |flags| == |exprs|
  {
    forall e: nat :: e < |exprs| && Reads(exprs[e], n) ==> flags[e] == FORGOTTEN
  }

  /** Some expressions have forgotten their shapes, and the users of each that has just done so as well. */
  ghost predicate Spread(exprs: Exprs, before: seq<Flags>, after: seq<Flags>) {
    && |before| == |after| == |exprs|
    && forall x: nat :: x < |exprs| ==>
         after[x] == before[x] || (exprs[x].Apply? && after[x] == FORGOTTEN && UsersTold(exprs, after, x))
  }

  lemma SpreadTrans(exprs: Exprs, a: seq<Flags>, b: seq<Flags>, c: seq<Flags>)
    requires Spread(exprs, a, b) && Spread(exprs, b, c)
    ensures Spread(exprs, a, c)
  {
    forall x: nat | x < |exprs|
      ensures c[x] == a[x] || (exprs[x].Apply? && c[x] == FORGOTTEN && UsersTold(exprs, c, x))
    {
      if c[x] == b[x] && b[x] != a[x] { ToldStays(exprs, b, c, x); }
    }
  }

  lemma ToldStays(exprs: Exprs, before: seq<Flags>, after: seq<Flags>, n: nat)
    requires |before| == |after| == |exprs| && UsersTold(exprs, before, n)
    requires forall x: nat :: x < |exprs| ==> after[x] == before[x] || after[x] == FORGOTTEN
    ensures UsersTold(exprs, after, n)
  {
  }

  /** After leaf `l` has got a new shape and all behind it have forgotten theirs, what is still clean has the same
      shapes as before, and what is still invalid has still none. */
  lemma {:induction false} StillRight(exprs: Exprs, leaves: seq<Info>, others: seq<Info>, before: seq<Flags>,
      after: seq<Flags>, infos: seq<seq<Info>>, l: nat, n: nat)
    requires AllRemember(exprs, leaves, before, infos) && |others| == |exprs| && Spread(exprs, before, after)
    requires l < |exprs| && exprs[l].Source? && others == leaves[l := others[l]] && UsersTold(exprs, after, l)
    requires n < |exprs|
    ensures n != l && !after[n].dirty ==> Shape(exprs, others, n) == Shape(exprs, leaves, n)
    ensures !after[n].valid ==> Shape(exprs, others, n).None?
    ensures exprs[n].Apply? && !after[n].dirty ==> OperandsClean(exprs[n], after)
    ensures !after[n].valid ==> OperandInvalid(exprs[n], after) || OperandsClean(exprs[n], after)
    decreases n
  {
    assert InPlace(exprs, n) && Remembers(exprs, leaves, before, infos, n);
    var e := exprs[n];
    if e.Apply? && after[n] != FORGOTTEN {
      forall i | 0 <= i < |e.inputs|
        ensures e.inputs[i].node != l && after[e.inputs[i].node] == before[e.inputs[i].node]
      {
        assert Reads(e, e.inputs[i].node);
      }
      forall i | 0 <= i < |e.inputs| && (!after[e.inputs[i].node].dirty || !after[e.inputs[i].node].valid)
        ensures Shape(exprs, others, e.inputs[i].node) == Shape(exprs, leaves, e.inputs[i].node)
      {
        StillRight(exprs, leaves, others, before, after, infos, l, e.inputs[i].node);
        assert Remembers(exprs, leaves, before, infos, e.inputs[i].node);
      }
      if OperandsClean(e, after) {
        SameArgs(exprs, others, leaves, n, |e.inputs|);
      } else if !after[n].valid {
        var i :| 0 <= i < |e.inputs| && !after[e.inputs[i].node].valid;
        StillRight(exprs, leaves, others, before, after, infos, l, e.inputs[i].node);
        ArgShapeAt(exprs, others, n, |e.inputs|, i);
      }
    }
  }

  lemma SpreadVia(exprs: Exprs, before: seq<Flags>, after: seq<Flags>, e: nat)
    requires e < |before| && Spread(exprs, before[e := FORGOTTEN], after) && exprs[e].Apply?
    requires UsersTold(exprs, after, e)
    ensures Spread(exprs, before, after) && after[e] == FORGOTTEN
  {
  }

  lemma SpreadKeeps(exprs: Exprs, before: seq<Flags>, after: seq<Flags>, e: nat)
    requires e < |before| && Spread(exprs, before, after) && before[e] == FORGOTTEN
    ensures after[e] == FORGOTTEN
  {
  }

  /** An expression that was waiting for its shapes gets them, or has none. */
  lemma Decided(exprs: Exprs, leaves: seq<Info>, before: seq<Flags>, was: seq<seq<Info>>, flags: seq<Flags>,
      infos: seq<seq<Info>>, n: nat)
    requires AllRemember(exprs, leaves, before, was) && n < |exprs| && before[n] == FORGOTTEN
    requires |flags| == |infos| == |exprs| && flags == before[n := flags[n]] && infos == was[n := infos[n]]
    requires !flags[n].dirty || !flags[n].valid
    requires Remembers(exprs, leaves, flags, infos, n)
    ensures AllRemember(exprs, leaves, flags, infos)
  {
    forall m: nat | m < |exprs| ensures Remembers(exprs, leaves, flags, infos, m) {
      assert Remembers(exprs, leaves, before, was, m);
      assert InPlace(exprs, m);
    }
  }

  /** A new expression changes nothing about the others. */
  lemma {:induction false} ShapeExtended(exprs: Exprs, leaves: seq<Info>, more: Exprs, moreLeaves: seq<Info>, n: nat)
    requires Ordered(exprs) && Ordered(more) && |leaves| == |exprs| && |moreLeaves| == |more| && n < |exprs|
    requires exprs <= more && leaves <= moreLeaves
    ensures Shape(more, moreLeaves, n) == Shape(exprs, leaves, n)
    decreases n, 0
  {
    if exprs[n].Apply? {
      assert InPlace(exprs, n) && InPlace(more, n);
      ArgsExtended(exprs, leaves, more, moreLeaves, n, |exprs[n].inputs|);
    }
  }

  lemma {:induction false} ArgsExtended(exprs: Exprs, leaves: seq<Info>, more: Exprs, moreLeaves: seq<Info>, n: nat,
      k: nat)
    requires Ordered(exprs) && Ordered(more) && |leaves| == |exprs| && |moreLeaves| == |more| && n < |exprs|
    requires exprs <= more && leaves <= moreLeaves && exprs[n].Apply? && k <= |exprs[n].inputs|
    requires InPlace(exprs, n) && InPlace(more, n)
    ensures ArgShapes(more, moreLeaves, n, k) == ArgShapes(exprs, leaves, n, k)
    decreases n - 1, 1, k
  {
    if k > 0 {
      ArgsExtended(exprs, leaves, more, moreLeaves, n, k - 1);
      ShapeExtended(exprs, leaves, more, moreLeaves, exprs[n].inputs[k - 1].node);
    }
  }

  lemma RememberExtended(exprs: Exprs, leaves: seq<Info>, flags: seq<Flags>, infos: seq<seq<Info>>,
      e: Expr, leaf: Info, f: Flags, i: seq<Info>)
    requires AllRemember(exprs, leaves, flags, infos) && Ordered(exprs + [e])
    requires if e.Source? then !f.dirty && f.valid && i == [leaf] else f == FORGOTTEN && |i| == e.outputs
    ensures AllRemember(exprs + [e], leaves + [leaf], flags + [f], infos + [i])
  {
    var more := exprs + [e];
    forall n: nat | n < |more| ensures Remembers(more, leaves + [leaf], flags + [f], infos + [i], n) {
      if n < |exprs| {
        assert Remembers(exprs, leaves, flags, infos, n);
        assert InPlace(exprs, n) && InPlace(more, n);
        ShapeExtended(exprs, leaves, more, leaves + [leaf], n);
      }
    }
  }

  lemma SpreadNone(exprs: Exprs, flags: seq<Flags>)
    requires |flags| == |exprs|
    ensures Spread(exprs, flags, flags)
  {
  }

  lemma SpreadSize(exprs: Exprs, before: seq<Flags>, after: seq<Flags>)
    requires Spread(exprs, before, after)
    ensures |before| == |after| == |exprs|
  {
  }

  lemma LinksSize(exprs: Exprs, to: Links)
    requires BackLinked(exprs, to)
    ensures |to| == |exprs|
  {
  }

  lemma LaterUser(exprs: Exprs, to: Links, n: nat, e: nat)
    requires Ordered(exprs) && BackLinked(exprs, to) && n < |exprs| && e in to[n]
    ensures n < e < |exprs| && exprs[e].Apply? && exists i :: 0 <= i < |exprs[e].inputs| && exprs[e].inputs[i].node == n
  {
    assert Reads(exprs[e], n) && InPlace(exprs, e);
  }

  lemma LinksTold(exprs: Exprs, to: Links, flags: seq<Flags>, n: nat)
    requires BackLinked(exprs, to) && |flags| == |exprs| && n < |exprs|
    requires forall j :: 0 <= j < |to[n]| ==> to[n][j] < |flags| && flags[to[n][j]] == FORGOTTEN
    ensures UsersTold(exprs, flags, n)
  {
    forall e: nat | e < |exprs| && Reads(exprs[e], n) ensures flags[e] == FORGOTTEN {
      assert e in to[n];
    }
  }

  lemma LeafShape(exprs: Exprs, leaves: seq<Info>, l: nat)
    requires Ordered(exprs) && |leaves| == |exprs| && l < |exprs| && exprs[l].Source?
    ensures Shape(exprs, leaves, l) == Some([leaves[l]])
  {
  }

  /** What everything remembers after a leaf has got a new shape. */
  lemma Resized(exprs: Exprs, leaves: seq<Info>, others: seq<Info>, before: seq<Flags>, after: seq<Flags>,
      was: seq<seq<Info>>, infos: seq<seq<Info>>, l: nat)
    requires AllRemember(exprs, leaves, before, was) && |others| == |infos| == |exprs| && Spread(exprs, before, after)
    requires l < |exprs| && exprs[l].Source? && others == leaves[l := others[l]] && UsersTold(exprs, after, l)
    requires infos == was[l := [others[l]]]
    ensures AllRemember(exprs, others, after, infos)
  {
    hide Shape;
    forall n: nat | n < |exprs| ensures Remembers(exprs, others, after, infos, n) {
      assert Remembers(exprs, leaves, before, was, n) && InPlace(exprs, n);
      StillRight(exprs, leaves, others, before, after, was, l, n);
      if exprs[n].Source? { LeafShape(exprs, others, n); }
    }
  }

  // ---- the expressions ----

  class Graph {
    var exprs: Exprs
    var to: Links
    var flags: seq<Flags>
    var infos: seq<seq<Info>>
    /** The shapes that the leaves have got; of no interest for operators. */
    ghost var leaves: seq<Info>

    ghost predicate Valid()
      reads this
    {
      BackLinked(exprs, to) && AllRemember(exprs, leaves, flags, infos)
    }

    constructor ()
      ensures Valid() && exprs == []
    {
      exprs, to, flags, infos, leaves := [], [], [], [], [];
    }

    /** A leaf with a shape. */
    method CreateLeaf(info: Info) returns (n: nat)
      requires Valid()
      modifies this
      ensures Valid() && n == |old(exprs)| && exprs == old(exprs) + [Source] && leaves == old(leaves) + [info]
    {
      LeafPlaced(exprs);
      LeafLinks(exprs, to);
      RememberExtended(exprs, leaves, flags, infos, Source, info, Flags(false, true), [info]);
      n := |exprs|;
      exprs, to, flags, infos := exprs + [Source], to + [[]], flags + [Flags(false, true)], infos + [[info]];
      leaves := leaves + [info];
    }

    /** An operator, whose shapes nobody has asked for yet; it is linked from its operands. */
    method CreateOp(e: Expr) returns (n: nat)
      requires Valid() && e.Apply? && InPlace(exprs + [e], |exprs|)
      modifies this
      ensures Valid() && n == |old(exprs)| && exprs == old(exprs) + [e] && |leaves| == |exprs| && old(leaves) <= leaves
    {
      forall m: nat | m < |exprs + [e]| ensures InPlace(exprs + [e], m) {
        if m < |exprs| { assert InPlace(exprs, m); }
      }
      RememberExtended(exprs, leaves, flags, infos, e, Info([], 0), FORGOTTEN, seq(e.outputs, _ => Info([], 0)));
      n := |exprs|;
      ghost var links := to;
      to := to + [[]];
      for i := 0 to |e.inputs|
        invariant |to| == n + 1 && to[n] == []
        invariant forall m: nat, u: nat :: m < n ==>
                    (u in to[m] <==> u in links[m] || (u == n && exists j :: 0 <= j < i && e.inputs[j].node == m))
        modifies this`to
      {
        var m := e.inputs[i].node;
        to := to[m := to[m] + [n]];
      }
      Links(exprs, links, e, to);
      exprs, flags, infos := exprs + [e], flags + [FORGOTTEN], infos + [seq(e.outputs, _ => Info([], 0))];
      leaves := leaves + [Info([], 0)];
    }

    static lemma LeafPlaced(exprs: Exprs)
      requires Ordered(exprs)
      ensures Ordered(exprs + [Source])
    {
      forall m: nat | m < |exprs + [Source]| ensures InPlace(exprs + [Source], m) {
        if m < |exprs| { assert InPlace(exprs, m); }
      }
    }

    static lemma LeafLinks(exprs: Exprs, links: seq<seq<nat>>)
      requires BackLinked(exprs, links) && Ordered(exprs)
      ensures BackLinked(exprs + [Source], links + [[]])
    {
      var more := exprs + [Source];
      forall m: nat, u: nat | m < |more| ensures u in (links + [[]])[m] <==> u < |more| && Reads(more[u], m) {
        if u < |exprs| { assert InPlace(exprs, u); }
      }
    }

    static lemma Links(exprs: Exprs, links: seq<seq<nat>>, e: Expr, to: seq<seq<nat>>)
      requires BackLinked(exprs, links) && e.Apply? && Ordered(exprs + [e]) && |to| == |exprs| + 1 && to[|exprs|] == []
      requires forall m: nat, u: nat :: m < |exprs| ==>
                 (u in to[m] <==> u in links[m]
                                  || (u == |exprs| && exists j :: 0 <= j < |e.inputs| && e.inputs[j].node == m))
      ensures BackLinked(exprs + [e], to)
    {
      var more := exprs + [e];
      forall m: nat, u: nat | m < |more| ensures u in to[m] <==> u < |more| && Reads(more[u], m) {
        if u < |more| { assert InPlace(more, u); }
      }
    }

    /** The shapes of an expression, inferred now if they are not remembered. */
    method RequireInfo(n: nat) returns (ok: bool)
      requires Valid() && n < |exprs|
      modifies this`flags, this`infos
      ensures Valid() && (ok <==> Shape(exprs, leaves, n).Some?)
      ensures ok ==> !flags[n].dirty
      ensures !ok ==> !flags[n].valid
      ensures forall x: nat :: x < |exprs| && !old(flags)[x].dirty ==> !flags[x].dirty
      ensures forall x: nat :: n < x < |exprs| ==> flags[x] == old(flags)[x]
      decreases n
    {
      hide Shape, ArgShapes, AllRemember, BackLinked, Inferred, Ordered;
      Recall(exprs, leaves, flags, infos, n);
      if !flags[n].dirty { return true; }
      if !flags[n].valid { return false; }
      var inputs := exprs[n].inputs;
      var args := [];
      NoArgs(exprs, leaves, n);
      for i := 0 to |inputs|
        invariant Valid() && |flags| == |infos| == |exprs| && flags[n] == FORGOTTEN && |args| == i
        invariant forall j :: 0 <= j < i ==> !flags[inputs[j].node].dirty
        invariant forall x: nat :: x < |exprs| && !old(flags)[x].dirty ==> !flags[x].dirty
        invariant forall x: nat :: n < x < |exprs| ==> flags[x] == old(flags)[x]
        invariant ArgShapes(exprs, leaves, n, i) == Some(args)
      {
        ok := RequireInfo(inputs[i].node);
        Recall(exprs, leaves, flags, infos, n);
        Recall(exprs, leaves, flags, infos, inputs[i].node);
        ArgsNext(exprs, leaves, n, i);
        if !ok {
          ArgShapeAt(exprs, leaves, n, |inputs|, i);
          NoShape(exprs, leaves, n);
          Decide(n, Flags(true, false), infos[n]);
          return;
        }
        args := args + [infos[inputs[i].node][inputs[i].index]];
      }
      Recall(exprs, leaves, flags, infos, n);
      var result := Inferred(exprs[n], args);
      ShapeIs(exprs, leaves, n, args);
      ok := result.Some?;
      Decide(n, if ok then Flags(false, true) else Flags(true, false), if ok then result.value else infos[n]);
    }

    /** The shape of a variable: exactly what inference from the present shapes of the leaves gives. */
    method GetInfo(o: Operand) returns (r: Option<Info>)
      requires Valid() && o.node < |exprs| && o.index < Width(exprs[o.node])
      modifies this`flags, this`infos
      ensures Valid()
      ensures r == var s := Shape(exprs, leaves, o.node); if s.Some? then Some(s.value[o.index]) else None
    {
      hide Shape;
      var ok := RequireInfo(o.node);
      assert Remembers(exprs, leaves, flags, infos, o.node);
      r := if ok then Some(infos[o.node][o.index]) else None;
    }

    /** The visitor of a resize: goes on only from an expression that remembered something. */
    method SetInfoDirty(e: nat) returns (recurse: bool)
      requires e < |flags|
      modifies this`flags
      ensures flags == old(flags)[e := FORGOTTEN] && (recurse <==> old(flags)[e] != FORGOTTEN)
    {
      if flags[e].dirty && flags[e].valid { return false; }
      flags := flags[e := Flags(true, true)];
      recurse := true;
    }

    /** Goes over the back links of expression `n`. It stops at expressions that have nothing to forget, yet afterwards
        all users of `n`, and of each that has just forgotten, have forgotten their shapes. */
    method VisitOutputs(n: nat)
      requires Ordered(exprs) && BackLinked(exprs, to) && |flags| == |exprs| && n < |exprs|
      modifies this`flags
      ensures Spread(exprs, old(flags), flags) && UsersTold(exprs, flags, n)
      decreases |exprs| - n
    {
      hide Ordered, BackLinked, Spread, UsersTold, Reads;
      ghost var start := flags;
      SpreadNone(exprs, flags);
      LinksSize(exprs, to);
      for k := 0 to |to[n]|
        invariant Spread(exprs, start, flags) && |flags| == |exprs|
        invariant forall j :: 0 <= j < k ==> to[n][j] < |flags| && flags[to[n][j]] == FORGOTTEN
      {
        var e := to[n][k];
        LaterUser(exprs, to, n, e);
        var inputs := exprs[e].inputs;
        ghost var before := flags;
        var recurse := false;
        for i := 0 to |inputs|
          invariant |flags| == |exprs|
          invariant recurse ==> flags == before[e := FORGOTTEN]
          invariant !recurse ==> flags == before
                                 && ((exists j :: 0 <= j < i && inputs[j].node == n) ==> before[e] == FORGOTTEN)
        {
          if inputs[i].node == n && !recurse { recurse := SetInfoDirty(e); }
        }
        if recurse {
          VisitOutputs(e);
          SpreadVia(exprs, before, flags, e);
        } else {
          SpreadNone(exprs, flags);
        }
        forall j | 0 <= j < k ensures flags[to[n][j]] == FORGOTTEN { SpreadKeeps(exprs, before, flags, to[n][j]); }
        SpreadTrans(exprs, start, before, flags);
        SpreadSize(exprs, before, flags);
      }
      LinksTold(exprs, to, flags, n);
    }

    /** Gives a leaf a new shape. If memory for it cannot be had, nothing else is told of the new shape. For an operator
        that is not a constant the given shape is put in the place of the inferred one. */
    method Resize(l: nat, dim: seq<int>, hasRoom: bool) returns (ok: bool)
      requires Valid() && l < |exprs| && Width(exprs[l]) > 0
      modifies this`infos, this`flags, this`leaves
      ensures |infos| == |leaves| == |exprs| && |infos[l]| > 0 && |old(infos)[l]| > 0
      ensures ok <==> !(exprs[l].Apply? && exprs[l].constant) && (hasRoom || dim == old(infos)[l][0].dim)
      ensures exprs[l].Apply? && exprs[l].constant ==>
                infos == old(infos) && flags == old(flags) && leaves == old(leaves)
      ensures exprs[l].Source? && ok ==> Valid() && leaves == old(leaves)[l := Info(dim, old(leaves)[l].kind)]
      ensures exprs[l].Source? && !ok ==>
                leaves == old(leaves) && flags == old(flags)
                && infos == old(infos)[l := [Info(dim, old(infos)[l][0].kind)]]
      ensures exprs[l].Apply? && ok ==> infos[l] == old(infos)[l][0 := Info(dim, old(infos)[l][0].kind)]
    {
      hide Shape, ArgShapes;
      assert Remembers(exprs, leaves, flags, infos, l);
      if exprs[l].Source? { LeafShape(exprs, leaves, l); }
      if exprs[l].Apply? && exprs[l].constant { return false; }
      if infos[l][0].dim == dim { return true; }
      ghost var before, was, shapes := flags, infos, leaves;
      infos := infos[l := infos[l][0 := Info(dim, infos[l][0].kind)]];
      assert exprs[l].Source? ==> was[l] == [leaves[l]] && infos[l] == [Info(dim, leaves[l].kind)];
      if !hasRoom { return false; }
      flags := flags[l := Flags(false, true)];
      if exprs[l].Source? { leaves := leaves[l := Info(dim, leaves[l].kind)]; }
      ghost var marked := flags;
      VisitOutputs(l);
      ok := true;
      if exprs[l].Source? {
        assert marked == before;
        Resized(exprs, shapes, leaves, before, flags, was, infos, l);
      }
    }

    /** Records what has become of an expression that was waiting for its shapes. */
    method Decide(n: nat, f: Flags, shapes: seq<Info>)
      requires Valid() && n < |exprs| && Ordered(exprs) && |flags| == |infos| == |leaves| == |exprs|
      requires flags[n] == FORGOTTEN && InPlace(exprs, n) && exprs[n].Apply?
      requires |shapes| == Width(exprs[n]) && (if f.dirty then !f.valid else f.valid)
      requires !f.dirty ==> Shape(exprs, leaves, n) == Some(shapes) && OperandsClean(exprs[n], flags)
      requires !f.valid ==>
                 Shape(exprs, leaves, n).None? && (OperandInvalid(exprs[n], flags) || OperandsClean(exprs[n], flags))
      modifies this`flags, this`infos
      ensures Valid() && flags == old(flags)[n := f] && infos == old(infos)[n := shapes]
    {
      hide Shape;
      ghost var before, was := flags, infos;
      flags, infos := flags[n := f], infos[n := shapes];
      assert Remembers(exprs, leaves, flags, infos, n);
      Decided(exprs, leaves, before, was, flags, infos, n);
    }
  }

  lemma NoArgs(exprs: Exprs, leaves: seq<Info>, n: nat)
    requires Ordered(exprs) && |leaves| == |exprs| && n < |exprs| && exprs[n].Apply? && InPlace(exprs, n)
    ensures ArgShapes(exprs, leaves, n, 0) == Some([])
  {
  }

  lemma ArgsNext(exprs: Exprs, leaves: seq<Info>, n: nat, k: nat)
    requires Ordered(exprs) && |leaves| == |exprs| && n < |exprs| && exprs[n].Apply? && k < |exprs[n].inputs|
    requires InPlace(exprs, n)
    ensures var o := exprs[n].inputs[k];
            var before, s := ArgShapes(exprs, leaves, n, k), Shape(exprs, leaves, o.node);
            ArgShapes(exprs, leaves, n, k + 1)
            == if before.None? || s.None? then None else Some(before.value + [s.value[o.index]])
  {
  }

  lemma ShapeIs(exprs: Exprs, leaves: seq<Info>, n: nat, args: seq<Info>)
    requires Ordered(exprs) && |leaves| == |exprs| && n < |exprs| && exprs[n].Apply? && InPlace(exprs, n)
    requires ArgShapes(exprs, leaves, n, |exprs[n].inputs|) == Some(args)
    ensures Shape(exprs, leaves, n) == Inferred(exprs[n], args)
  {
  }

  lemma NoShape(exprs: Exprs, leaves: seq<Info>, n: nat)
    requires Ordered(exprs) && |leaves| == |exprs| && n < |exprs| && exprs[n].Apply? && InPlace(exprs, n)
    requires ArgShapes(exprs, leaves, n, |exprs[n].inputs|) == None
    ensures Shape(exprs, leaves, n) == None
  {
  }
}
