/**
When a write marks exactly what depends on the leaf. Back links are kept in the order in which users were
made, but a slot of a user that is gone is taken by the next one, so any order can come up. The marking is
exact in every order if and only if the traversal stops nowhere, and a stop is something that can be seen in
the graph.
 */
module Marking {
  import opened ExprGraph

  // ---- orders of back links ----

  /** How many operands are outputs of expression `n`. */
  function UseCount(inputs: seq<Operand>, n: nat): nat {
    if inputs == [] then 0 else UseCount(inputs[1..], n) + if inputs[0].node == n then 1 else 0
  }

  /** The links of expression `n` to its users below `k`, one for every operand, in the order in which they are made. */
  function UsersBelow(nodes: Nodes, n: nat, k: nat): seq<nat>
    requires k <= |nodes|
  {
    if k == 0 then []
    else UsersBelow(nodes, n, k - 1) + if nodes[k - 1].Apply? then seq(UseCount(nodes[k - 1].inputs, n), _ => k - 1)
    else []
  }

  /** The links that the expressions have, in any order. */
  ghost predicate Ordered(nodes: Nodes, to: Links) {
    |to| == |nodes| && forall n: nat :: n < |nodes| ==> multiset(to[n]) == multiset(UsersBelow(nodes, n, |nodes|))
  }

  lemma {:induction false} CountsUses(inputs: seq<Operand>, n: nat)
    ensures UseCount(inputs, n) > 0 <==> exists i :: 0 <= i < |inputs| && inputs[i].node == n
  {
    if inputs != [] {
      CountsUses(inputs[1..], n);
      if inputs[0].node != n && exists i :: 0 <= i < |inputs| && inputs[i].node == n {
        var i :| 0 <= i < |inputs| && inputs[i].node == n;
        assert inputs[1..][i - 1].node == n;
      }
    }
  }

  lemma {:induction false} UsersAre(nodes: Nodes, n: nat, k: nat, e: nat)
    requires k <= |nodes|
    ensures e in UsersBelow(nodes, n, k) <==> e < k && Uses(nodes[e], n)
  {
    if k > 0 {
      UsersAre(nodes, n, k - 1, e);
      if nodes[k - 1].Apply? {
        CountsUses(nodes[k - 1].inputs, n);
        var last := seq(UseCount(nodes[k - 1].inputs, n), _ => k - 1);
        assert e in last <==> e == k - 1 && |last| > 0 by {
          if |last| > 0 { assert last[0] == k - 1; }
        }
      }
    }
  }

  lemma OrderedLinked(nodes: Nodes, to: Links)
    requires Ordered(nodes, to)
    ensures Linked(nodes, to)
  {
    forall n: nat, e: nat | n < |nodes| ensures e in to[n] <==> e < |nodes| && Uses(nodes[e], n) {
      UsersAre(nodes, n, |nodes|, e);
      assert e in to[n] <==> e in multiset(to[n]);
      assert e in UsersBelow(nodes, n, |nodes|) <==> e in multiset(UsersBelow(nodes, n, |nodes|));
    }
  }

  /** `x` comes first, everything else stays in order. */
  function ToFront(s: seq<nat>, x: nat): seq<nat>
    requires x in s
  {
    [x] + Without(s, x)
  }

  function Without(s: seq<nat>, x: nat): seq<nat>
    requires x in s
  {
    if s[0] == x then s[1..] else [s[0]] + Without(s[1..], x)
  }

  lemma {:induction false} WithoutOne(s: seq<nat>, x: nat)
    requires x in s
    ensures multiset(Without(s, x)) + multiset{x} == multiset(s)
  {
    assert s == [s[0]] + s[1..];
    if s[0] != x { WithoutOne(s[1..], x); }
  }

  // ---- a path that the links follow ----

  /** Every expression of the path is a user of the one before. */
  ghost predicate Path(nodes: Nodes, p: seq<nat>) {
    forall i :: 0 <= i < |p| ==> p[i] < |nodes| && (i > 0 ==> p[i - 1] < p[i] && Uses(nodes[p[i]], p[i - 1]))
  }

  lemma {:induction false} PathGrows(nodes: Nodes, p: seq<nat>, i: nat, j: nat)
    requires Path(nodes, p) && i < j < |p|
    ensures p[i] < p[j]
    decreases j
  {
    if i < j - 1 { PathGrows(nodes, p, i, j - 1); }
  }

  /** The place of `n` on the path, or its length. */
  function PlaceOn(p: seq<nat>, n: nat): (i: nat)
    ensures i <= |p| && (i < |p| ==> p[i] == n)
    ensures i == |p| ==> n !in p
  {
    if p == [] || p[0] == n then 0 else 1 + PlaceOn(p[1..], n)
  }

  /** Links in which every expression of the path has the next one first. */
  function Along(nodes: Nodes, p: seq<nat>, n: nat): seq<nat> {
    var users, i := UsersBelow(nodes, n, |nodes|), PlaceOn(p, n);
    if i + 1 < |p| && p[i + 1] in users then ToFront(users, p[i + 1]) else users
  }

  function LinksAlong(nodes: Nodes, p: seq<nat>): Links {
    seq(|nodes|, n requires 0 <= n < |nodes| => Along(nodes, p, n))
  }

  lemma AlongOrdered(nodes: Nodes, p: seq<nat>)
    ensures Ordered(nodes, LinksAlong(nodes, p))
  {
    forall n: nat | n < |nodes| ensures multiset(LinksAlong(nodes, p)[n]) == multiset(UsersBelow(nodes, n, |nodes|)) {
      var users, i := UsersBelow(nodes, n, |nodes|), PlaceOn(p, n);
      if i + 1 < |p| && p[i + 1] in users { WithoutOne(users, p[i + 1]); }
    }
  }

  lemma AlongFollows(nodes: Nodes, p: seq<nat>, i: nat)
    requires Path(nodes, p) && i + 1 < |p|
    ensures p[i] < |nodes| && LinksAlong(nodes, p)[p[i]] != [] && LinksAlong(nodes, p)[p[i]][0] == p[i + 1]
  {
    var j := PlaceOn(p, p[i]);
    if j < i { PathGrows(nodes, p, j, i); }
    if i < j { if j < |p| { PathGrows(nodes, p, i, j); } }
    UsersAre(nodes, p[i], |nodes|, p[i + 1]);
  }

  // ---- the traversal along the path ----

  /** An expression that has been passed over once is never marked. */
  lemma {:induction false} NeverMarked(nodes: Nodes, to: Links, n: nat, k: nat, m: Marks, e: nat)
    requires Acyclic(nodes) && Linked(nodes, to) && n < |nodes| && k <= |to[n]|
    requires e in m.visited && e !in m.hit
    ensures e !in Visit(nodes, to, n, k, m).hit
    decreases |nodes| - n, |to[n]| - k
  {
    if k < |to[n]| {
      var u := to[n][k];
      UserIsLater(nodes, to, n, u);
      var next := Mark(nodes[u], n, u, m);
      if u !in m.visited && GoesOn(nodes[u], n) {
        NeverMarked(nodes, to, u, 0, next, e);
        NeverMarked(nodes, to, n, k + 1, Visit(nodes, to, u, 0, next), e);
      } else {
        NeverMarked(nodes, to, n, k + 1, next, e);
      }
    }
  }

  /** The path ends in an expression that the traversal comes to and does not go on to. */
  ghost predicate DeadEnd(nodes: Nodes, p: seq<nat>) {
    && |p| >= 2 && Path(nodes, p)
    && (forall i :: 0 < i < |p| - 1 ==> GoesOn(nodes[p[i]], p[i - 1]))
    && !GoesOn(nodes[p[|p| - 1]], p[|p| - 2])
  }

  lemma {:induction false} PassedOver(nodes: Nodes, p: seq<nat>, i: nat, m: Marks)
    requires Acyclic(nodes) && DeadEnd(nodes, p) && Linked(nodes, LinksAlong(nodes, p)) && i + 1 < |p|
    requires (forall v :: v in m.visited ==> v <= p[i]) && p[|p| - 1] !in m.hit
    ensures var r := Visit(nodes, LinksAlong(nodes, p), p[i], 0, m); p[|p| - 1] !in r.hit
    ensures p[|p| - 1] in Visit(nodes, LinksAlong(nodes, p), p[i], 0, m).visited
    decreases |p| - i
  {
    hide LinksAlong, Along;
    var to, e, u := LinksAlong(nodes, p), p[|p| - 1], p[i + 1];
    AlongFollows(nodes, p, i);
    UserIsLater(nodes, to, p[i], u);
    assert u !in m.visited;
    var next := Mark(nodes[u], p[i], u, m);
    if i + 2 == |p| {
      NeverMarked(nodes, to, p[i], 1, next, e);
    } else {
      PathGrows(nodes, p, i + 1, |p| - 1);
      PassedOver(nodes, p, i + 1, next);
      NeverMarked(nodes, to, p[i], 1, Visit(nodes, to, u, 0, next), e);
    }
  }

  // ---- where it stops ----

  /** Of the expressions at which the traversal stops there is a first. */
  lemma {:induction false} FirstStop(nodes: Nodes, l: nat, e: nat, y: nat) returns (e': nat, y': nat)
    requires Acyclic(nodes) && Stops(nodes, e, y, l)
    ensures Stops(nodes, e', y', l) && forall f: nat, z: nat :: Stops(nodes, f, z, l) ==> f >= e'
    decreases e
  {
    if f: nat, z: nat :| Stops(nodes, f, z, l) && f < e {
      e', y' := FirstStop(nodes, l, f, z);
    } else {
      e', y' := e, y;
    }
  }

  /** Below the first stop, what depends on the leaf is reached by a path on which the traversal goes on. */
  lemma {:induction false} PathTo(nodes: Nodes, l: nat, y: nat, e: nat) returns (p: seq<nat>)
    requires Acyclic(nodes) && l < |nodes| && Behind(nodes, y, l) && y < e
    requires forall f: nat, z: nat :: Stops(nodes, f, z, l) ==> f >= e
    ensures p != [] && p[0] == l && p[|p| - 1] == y && Path(nodes, p)
    ensures forall i :: 0 < i < |p| ==> GoesOn(nodes[p[i]], p[i - 1])
    decreases y
  {
    if y == l {
      p := [l];
    } else {
      assert Placed(nodes, y);
      var i :| 0 <= i < |nodes[y].inputs| && nodes[y].needs[i]
               && (nodes[y].inputs[i].node == l || DependsOn(nodes, nodes[y].inputs[i].node, l));
      var x := nodes[y].inputs[i].node;
      assert Uses(nodes[y], x) && Behind(nodes, x, l) && !Stops(nodes, y, x, l);
      var q := PathTo(nodes, l, x, e);
      p := q + [y];
    }
  }

  /** The marking of leaf `l` is exact with these links. */
  ghost predicate Exact(nodes: Nodes, to: Links, l: nat)
    requires Acyclic(nodes) && l < |nodes|
  {
    Linked(nodes, to) && forall x: nat :: x < |nodes| ==> (x in Informed(nodes, to, l) <==> DependsOn(nodes, x, l))
  }

  /** If the traversal stops somewhere, then with some order of the links a dependent expression is passed over. */
  lemma StopMissed(nodes: Nodes, l: nat, e: nat, y: nat) returns (to: Links, x: nat)
    requires Acyclic(nodes) && l < |nodes| && Stops(nodes, e, y, l)
    ensures Ordered(nodes, to) && Linked(nodes, to)
    ensures x < |nodes| && DependsOn(nodes, x, l) && x !in Informed(nodes, to, l) && exists z: nat ::
            Stops(nodes, x, z, l)
  {
    hide LinksAlong, DependsOn, GoesOn;
    var z;
    x, z := FirstStop(nodes, l, e, y);
    assert Placed(nodes, x);
    var q := PathTo(nodes, l, z, x);
    var p := q + [x];
    to := LinksAlong(nodes, p);
    AlongOrdered(nodes, p);
    OrderedLinked(nodes, to);
    PassedOver(nodes, p, 0, Marks({}, {}));
  }

  /** The marking of a leaf is exact whatever the order of the links, if and only if the traversal stops nowhere. */
  lemma ExactWhereStraight(nodes: Nodes, l: nat)
    requires Acyclic(nodes) && l < |nodes|
    ensures (forall to :: Ordered(nodes, to) ==> Exact(nodes, to, l)) <==> Straight(nodes, l)
    ensures (forall to :: Linked(nodes, to) ==> Exact(nodes, to, l)) <==> Straight(nodes, l)
  {
    hide Linked, Ordered, DependsOn, Informed;
    if Straight(nodes, l) {
      forall to | Linked(nodes, to) ensures Exact(nodes, to, l) {
        forall x: nat | x < |nodes| ensures x in Informed(nodes, to, l) <==> DependsOn(nodes, x, l) {
          InformedExactly(nodes, to, l, x);
        }
      }
      forall to | Ordered(nodes, to) ensures Linked(nodes, to) { OrderedLinked(nodes, to); }
    } else {
      var e: nat, y: nat :| Stops(nodes, e, y, l);
      var to, x := StopMissed(nodes, l, e, y);
      assert !Exact(nodes, to, l);
    }
  }

  // ---- graphs without stops ----

  /** Operands whose content is not needed may be anything that the leaf does not reach. */
  ghost predicate Spared(nodes: Nodes, l: nat)
    requires Acyclic(nodes)
  {
    forall e: nat, i: nat :: e < |nodes| && nodes[e].Apply? && i < |nodes[e].inputs| && i < |nodes[e].needs|
                             && !nodes[e].needs[i] ==>
      !Behind(nodes, nodes[e].inputs[i].node, l)
  }

  lemma SparedStraight(nodes: Nodes, l: nat)
    requires Acyclic(nodes) && Spared(nodes, l)
    ensures Straight(nodes, l)
  {
    hide DependsOn;
    forall e: nat, y: nat ensures !Stops(nodes, e, y, l) {
      if e < |nodes| && Behind(nodes, y, l) && Uses(nodes[e], y) {
        assert Placed(nodes, e);
        assert nodes[e].inputs[FirstOperand(nodes[e].inputs, y)].node == y;
      }
    }
  }

  /** Every operator needs either all its operands or none. */
  predicate Uniform(nodes: Nodes) {
    forall n: nat, i: nat, j: nat ::
      n < |nodes| && nodes[n].Apply? && i < |nodes[n].needs| && j < |nodes[n].needs| ==>
        nodes[n].needs[i] == nodes[n].needs[j]
  }

  lemma UniformStraight(nodes: Nodes, l: nat)
    requires Acyclic(nodes) && Uniform(nodes)
    ensures Straight(nodes, l)
  {
    forall e: nat, y: nat ensures !Stops(nodes, e, y, l) {
      if Stops(nodes, e, y, l) {
        assert Placed(nodes, e);
        var i :| 0 <= i < |nodes[e].inputs| && nodes[e].needs[i];
      }
    }
  }

  /** An operator that needs only the first of two operands which both depend on the leaf is passed over if the
      traversal comes over the second one first. */
  lemma MixedNeedsMissed(op: Op) returns (to: Links)
    requires op.outputs == 1
    ensures var nodes := [Leaf(true), Apply(op, [Operand(0, 0)], [true]), Apply(op, [Operand(0, 0)], [true]),
                          Apply(op, [Operand(2, 0), Operand(1, 0)], [true, false])];
            Acyclic(nodes) && Ordered(nodes, to) && Linked(nodes, to) && DependsOn(nodes, 3, 0)
            && 3 !in Informed(nodes, to, 0)
  {
    hide Ordered, Linked, Informed;
    var a, c := Apply(op, [Operand(0, 0)], [true]), Apply(op, [Operand(2, 0), Operand(1, 0)], [true, false]);
    var nodes: Nodes := [Leaf(true), a, a, c];
    assert DependsOn(nodes, 1, 0) by { assert nodes[1].inputs[0].node == 0 && nodes[1].needs[0]; }
    assert DependsOn(nodes, 2, 0) by { assert nodes[2].inputs[0].node == 0 && nodes[2].needs[0]; }
    assert DependsOn(nodes, 3, 0) by { assert nodes[3].inputs[0].node == 2 && nodes[3].needs[0]; }
    assert Uses(c, 1) by { assert c.inputs[1].node == 1; }
    assert Stops(nodes, 3, 1, 0);
    var x;
    to, x := StopMissed(nodes, 0, 3, 1);
    var z: nat :| Stops(nodes, x, z, 0);
    assert x == 1 || x == 2 ==> GoesOn(a, z);
  }

  /** An operator that uses the leaf twice and needs it only the second time is never marked. */
  lemma SecondUseMissed(op: Op)
    ensures var nodes: Nodes := [Leaf(true), Apply(op, [Operand(0, 0), Operand(0, 0)], [false, true])];
            Acyclic(nodes) && Stops(nodes, 1, 0, 0)
            && forall to :: Linked(nodes, to) ==> DependsOn(nodes, 1, 0) && 1 !in Informed(nodes, to, 0)
  {
    var e := Apply(op, [Operand(0, 0), Operand(0, 0)], [false, true]);
    var nodes: Nodes := [Leaf(true), e];
    assert e.inputs[1].node == 0 && e.needs[1];
    assert DependsOn(nodes, 1, 0) by { assert nodes[1].inputs[1].node == 0; }
    assert Uses(e, 0) && !GoesOn(e, 0);
    forall to | Linked(nodes, to) ensures 1 !in Informed(nodes, to, 0) {
      assert 1 in to[0];
      var u := to[0][0];
      UserIsLater(nodes, to, 0, u);
      var none := Marks({}, {});
      NeverMarked(nodes, to, 0, 1, Mark(e, 0, 1, none), 1);
    }
  }
}
