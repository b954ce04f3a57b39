/**
The order in which express/Expr.cpp writes the expressions behind some outputs: a depth-first search with a stack,
which marks expressions as visited.
 */
module ExecuteOrder {
  import opened StoredGraph
  import opened Wrappers

  function Unvisited(visited: seq<bool>): nat {
    if visited == [] then 0
    else Unvisited(visited[..|visited| - 1]) + if visited[|visited| - 1] then 0 else 1
  }

  lemma {:induction false} VisitOne(visited: seq<bool>, n: nat)
    requires n < |visited| && !visited[n]
    ensures Unvisited(visited[n := true]) < Unvisited(visited)
  {
    var last := |visited| - 1;
    if n < last {
      VisitOne(visited[..last], n);
      assert visited[n := true][..last] == visited[..last][n := true];
    } else {
      assert visited[n := true][..last] == visited[..last];
    }
  }

  /** The state of the search. */
  ghost predicate Searching(exprs: Exprs, outputs: seq<Option<Var>>, order: seq<nat>, visited: seq<bool>,
      stack: seq<nat>) {
    && Acyclic(exprs) && |visited| == |exprs| && NoRepeats(order)
    && (forall n: nat :: n in order <==> n < |exprs| && visited[n])
    && (forall n :: n in order ==> Wanted(exprs, outputs, n))
    && (forall n :: n in stack ==> n < |exprs| && Wanted(exprs, outputs, n))
  }

  /** Every output so far will be visited. */
  ghost predicate Pending(outputs: seq<Option<Var>>, k: nat, order: seq<nat>, stack: seq<nat>) {
    k <= |outputs| && forall j :: 0 <= j < k && outputs[j].Some? ==>
                                    outputs[j].value.node in order || outputs[j].value.node in stack
  }

  /** Behind the constants, operands come first. */
  ghost predicate Grown(exprs: Exprs, consts: seq<nat>, order: seq<nat>) {
    && consts <= order
    && forall p: nat :: |consts| <= p < |order| ==> After(exprs, order, p)
  }

  /** How much there is to do before the next expression is visited. */
  function Effort(visited: seq<bool>, stack: seq<nat>): nat {
    if stack == [] then 0
    else
      var top := stack[|stack| - 1];
      if top < |visited| && !visited[top] then top else |visited| + |stack|
  }

  lemma TopIs(exprs: Exprs, outputs: seq<Option<Var>>, order: seq<nat>, visited: seq<bool>, stack: seq<nat>)
    requires Searching(exprs, outputs, order, visited, stack) && stack != []
    ensures Acyclic(exprs) && |visited| == |exprs| && stack[|stack| - 1] < |exprs|
  {
    assert stack[|stack| - 1] in stack;
  }

  // Steps of the search.

  lemma Enter(exprs: Exprs, outputs: seq<Option<Var>>, order: seq<nat>, visited: seq<bool>, stack: seq<nat>, n: nat)
    requires Searching(exprs, outputs, order, visited, stack)
    requires n < |exprs| && n < |visited| && !visited[n] && Wanted(exprs, outputs, n)
    ensures Searching(exprs, outputs, order + [n], visited[n := true], stack)
  {
    hide Wanted, Acyclic;
    var more := order + [n];
    assert n !in order;
    forall m: nat | true ensures m in more <==> m in order || m == n {}
    forall p, q | 0 <= p < q < |more| ensures more[p] != more[q] {
      if q == |order| { assert order[p] in order; }
    }
  }

  lemma PushOne(exprs: Exprs, outputs: seq<Option<Var>>, order: seq<nat>, visited: seq<bool>, stack: seq<nat>, n: nat)
    requires Searching(exprs, outputs, order, visited, stack) && n < |exprs| && Wanted(exprs, outputs, n)
    ensures Searching(exprs, outputs, order, visited, stack + [n])
  {
    hide Wanted, Acyclic, NoRepeats;
    forall m | m in stack + [n] ensures m in stack || m == n {}
  }

  lemma PopOne(exprs: Exprs, outputs: seq<Option<Var>>, order: seq<nat>, visited: seq<bool>, stack: seq<nat>)
    requires Searching(exprs, outputs, order, visited, stack) && stack != []
    ensures Searching(exprs, outputs, order, visited, stack[..|stack| - 1])
  {
    hide Wanted, Acyclic, NoRepeats;
    forall m | m in stack[..|stack| - 1] ensures m in stack {}
  }

  lemma StillPending(outputs: seq<Option<Var>>, k: nat, order: seq<nat>, stack: seq<nat>, order': seq<nat>,
      stack': seq<nat>)
    requires Pending(outputs, k, order, stack)
    requires forall n :: n in order || n in stack ==> n in order' || n in stack'
    ensures Pending(outputs, k, order', stack')
  {
  }

  lemma Pop(exprs: Exprs, outputs: seq<Option<Var>>, order: seq<nat>, visited: seq<bool>, stack: seq<nat>)
    requires Searching(exprs, outputs, order, visited, stack) && Pending(outputs, |outputs|, order, stack)
    requires stack != []
    requires stack[|stack| - 1] < |visited| && visited[stack[|stack| - 1]]
    ensures var rest := stack[..|stack| - 1];
            && Searching(exprs, outputs, order, visited, rest) && Pending(outputs, |outputs|, order, rest)
            && Effort(visited, rest) < Effort(visited, stack)
  {
    hide Pending;
    var rest, top := stack[..|stack| - 1], stack[|stack| - 1];
    PopOne(exprs, outputs, order, visited, stack);
    assert top in stack && top in order && stack == rest + [top];
    StillPending(outputs, |outputs|, order, stack, order, rest);
  }

  lemma Push(exprs: Exprs, outputs: seq<Option<Var>>, order: seq<nat>, visited: seq<bool>, stack: seq<nat>, i: nat)
    requires Searching(exprs, outputs, order, visited, stack) && Pending(outputs, |outputs|, order, stack)
    requires stack != []
    requires var n := stack[|stack| - 1];
             n < |visited| && !visited[n] && n < |exprs| && i < |exprs[n].inputs| && exprs[n].inputs[i].Some?
             && exprs[n].inputs[i].value.node < n && !visited[exprs[n].inputs[i].value.node]
    ensures var more := stack + [exprs[stack[|stack| - 1]].inputs[i].value.node];
            && Searching(exprs, outputs, order, visited, more) && Pending(outputs, |outputs|, order, more)
            && Effort(visited, more) < Effort(visited, stack)
  {
    hide Pending, Searching;
    Marked(exprs, outputs, order, visited, stack);
    var n := exprs[stack[|stack| - 1]].inputs[i].value.node;
    assert stack[|stack| - 1] in stack;
    WantedOperand(exprs, outputs, stack[|stack| - 1], i);
    PushOne(exprs, outputs, order, visited, stack, n);
    StillPending(outputs, |outputs|, order, stack, order, stack + [n]);
  }

  lemma Append(exprs: Exprs, outputs: seq<Option<Var>>, consts: seq<nat>, order: seq<nat>, visited: seq<bool>,
      stack: seq<nat>)
    requires Searching(exprs, outputs, order, visited, stack) && Pending(outputs, |outputs|, order, stack)
    requires stack != []
    requires Grown(exprs, consts, order)
    requires var n := stack[|stack| - 1];
             n < |visited| && !visited[n] && n < |exprs|
             && forall i :: 0 <= i < |exprs[n].inputs| && exprs[n].inputs[i].Some? ==>
                  exprs[n].inputs[i].value.node < |visited| && visited[exprs[n].inputs[i].value.node]
    ensures var n, rest := stack[|stack| - 1], stack[..|stack| - 1];
            && Searching(exprs, outputs, order + [n], visited[n := true], rest)
            && Pending(outputs, |outputs|, order + [n], rest) && Grown(exprs, consts, order + [n])
            && Unvisited(visited[n := true]) < Unvisited(visited)
  {
    hide Wanted, Acyclic, Unvisited, Searching, Pending, Grown;
    var n, rest := stack[|stack| - 1], stack[..|stack| - 1];
    assert n in stack && stack == rest + [n];
    Marked(exprs, outputs, order, visited, stack);
    PopOne(exprs, outputs, order, visited, stack);
    Enter(exprs, outputs, order, visited, rest, n);
    StillPending(outputs, |outputs|, order, stack, order + [n], rest);
    VisitOne(visited, n);
    GrownMore(exprs, consts, order, n);
  }

  lemma Marked(exprs: Exprs, outputs: seq<Option<Var>>, order: seq<nat>, visited: seq<bool>, stack: seq<nat>)
    requires Searching(exprs, outputs, order, visited, stack)
    ensures |visited| == |exprs| && forall n: nat :: n in order <==> n < |exprs| && visited[n]
    ensures NoRepeats(order) && Acyclic(exprs) && forall n :: n in order || n in stack ==>
              n < |exprs| && Wanted(exprs, outputs, n)
  {
  }

  lemma Idle(exprs: Exprs, outputs: seq<Option<Var>>)
    requires Acyclic(exprs)
    ensures Searching(exprs, outputs, [], seq(|exprs|, _ => false), []) && Pending(outputs, 0, [], [])
  {
  }

  lemma PendingNext(outputs: seq<Option<Var>>, k: nat, order: seq<nat>, stack: seq<nat>)
    requires Pending(outputs, k, order, stack) && k < |outputs|
    requires outputs[k].Some? ==> outputs[k].value.node in order || outputs[k].value.node in stack
    ensures Pending(outputs, k + 1, order, stack)
  {
  }

  lemma GrownNone(exprs: Exprs, consts: seq<nat>)
    ensures Grown(exprs, consts, consts)
  {
  }

  class Walker {
    const exprs: Exprs
    var visited: seq<bool>

    constructor (es: Exprs)
      ensures exprs == es && visited == seq(|es|, _ => false)
    {
      exprs := es;
      visited := seq(|es|, _ => false);
    }

    /** The expressions behind the outputs, each once. Operands come first exactly if the operands of a constant among
        the outputs are constants among the outputs before it; then nothing is missing. */
    method GetExecuteOrder(outputs: seq<Option<Var>>) returns (order: seq<nat>)
      requires Acyclic(exprs) && visited == seq(|exprs|, _ => false)
      requires forall k :: 0 <= k < |outputs| && outputs[k].Some? ==> outputs[k].value.node < |exprs|
      modifies this`visited
      ensures visited == old(visited)
      ensures NoRepeats(order) && forall n :: n in order ==> n < |exprs| && Wanted(exprs, outputs, n)
      ensures OperandsFirst(exprs, order) <==> OperandsFirst(exprs, Constants(exprs, outputs))
      ensures OperandsFirst(exprs, order) ==> forall n: nat :: Wanted(exprs, outputs, n) ==> n in order
      ensures Constants(exprs, outputs) <= order
      ensures forall p: nat :: |Constants(exprs, outputs)| <= p < |order| ==> After(exprs, order, p)
      ensures forall k :: 0 <= k < |outputs| && outputs[k].Some? ==> outputs[k].value.node in order
    {
      hide Acyclic, Wanted, Searching, Pending, Grown, OperandsFirst, NoRepeats, Unvisited, Constants;
      var stack;
      order, stack := Begin(outputs);
      ghost var consts := Constants(exprs, outputs);
      GrownNone(exprs, consts);
      while stack != []
        invariant Searching(exprs, outputs, order, visited, stack) && Pending(outputs, |outputs|, order, stack)
        invariant Grown(exprs, consts, order)
        decreases Unvisited(visited), Effort(visited, stack)
      {
        TopIs(exprs, outputs, order, visited, stack);
        var expr := stack[|stack| - 1];
        if visited[expr] {
          Pop(exprs, outputs, order, visited, stack);
          stack := stack[..|stack| - 1];
        } else {
          var next := FirstUnvisited(expr);
          if next.Some? {
            Push(exprs, outputs, order, visited, stack, next.value);
            stack := stack + [exprs[expr].inputs[next.value].value.node];
          } else {
            Append(exprs, outputs, consts, order, visited, stack);
            order := order + [expr];
            visited := visited[expr := true];
            stack := stack[..|stack| - 1];
          }
        }
      }
      Complete(exprs, outputs, consts, order);
      GrownIs(exprs, outputs, consts, order);
      Marked(exprs, outputs, order, visited, stack);
      Clear(order);
    }

    /** Constants come at once, everything else goes on the stack. */
    method Begin(outputs: seq<Option<Var>>) returns (order: seq<nat>, stack: seq<nat>)
      requires Acyclic(exprs) && visited == seq(|exprs|, _ => false)
      requires forall k :: 0 <= k < |outputs| && outputs[k].Some? ==> outputs[k].value.node < |exprs|
      modifies this`visited
      ensures order == Constants(exprs, outputs)
      ensures Searching(exprs, outputs, order, visited, stack) && Pending(outputs, |outputs|, order, stack)
    {
      hide Acyclic, Wanted, Searching, Pending, IsConst;
      order, stack := [], [];
      Idle(exprs, outputs);
      for k := 0 to |outputs|
        invariant Searching(exprs, outputs, order, visited, stack) && Pending(outputs, k, order, stack)
        invariant order == Constants(exprs, outputs[..k])
      {
        assert outputs[..k + 1][..k] == outputs[..k];
        if outputs[k].Some? {
          var n := outputs[k].value.node;
          OutputWanted(exprs, outputs, k);
          Marked(exprs, outputs, order, visited, stack);
          if IsConst(exprs[n]) && !visited[n] {
            Enter(exprs, outputs, order, visited, stack, n);
            StillPending(outputs, k, order, stack, order + [n], stack);
            visited := visited[n := true];
            order := order + [n];
          } else {
            PushOne(exprs, outputs, order, visited, stack, n);
            StillPending(outputs, k, order, stack, order, stack + [n]);
            stack := stack + [n];
          }
        }
        PendingNext(outputs, k, order, stack);
      }
      assert outputs[..|outputs|] == outputs;
    }

    /** The first operand that is neither null nor visited. */
    method FirstUnvisited(n: nat) returns (r: Option<nat>)
      requires Acyclic(exprs) && |visited| == |exprs| && n < |exprs|
      ensures r.Some? ==>
                r.value < |exprs[n].inputs| && exprs[n].inputs[r.value].Some? && exprs[n].inputs[r.value].value.node < n
                && !visited[exprs[n].inputs[r.value].value.node]
                && forall i :: 0 <= i < r.value && exprs[n].inputs[i].Some? ==>
                     exprs[n].inputs[i].value.node < n && visited[exprs[n].inputs[i].value.node]
      ensures r.None? ==>
                forall i :: 0 <= i < |exprs[n].inputs| && exprs[n].inputs[i].Some? ==>
                  exprs[n].inputs[i].value.node < n && visited[exprs[n].inputs[i].value.node]
    {
      assert WellPlaced(exprs, n);
      var inputs := exprs[n].inputs;
      for i := 0 to |inputs|
        invariant forall j :: 0 <= j < i && inputs[j].Some? ==> visited[inputs[j].value.node]
      {
        if inputs[i].Some? && !visited[inputs[i].value.node] { return Some(i); }
      }
      return None;
    }

    method Clear(order: seq<nat>)
      requires |visited| == |exprs| && forall n: nat :: n in order <==> n < |exprs| && visited[n]
      modifies this`visited
      ensures visited == seq(|exprs|, _ => false)
    {
      for k := 0 to |order|
        invariant |visited| == |exprs|
        invariant forall n: nat :: n < |exprs| && visited[n] ==> n in order[k..]
      {
        assert order[k] in order && order[k..] == [order[k]] + order[k + 1..];
        visited := visited[order[k] := false];
      }
    }
  }

  lemma OutputWanted(exprs: Exprs, outputs: seq<Option<Var>>, k: nat)
    requires Acyclic(exprs) && k < |outputs| && outputs[k].Some? && outputs[k].value.node < |exprs|
    ensures Wanted(exprs, outputs, outputs[k].value.node)
  {
    assert Reaches(exprs, outputs[k].value.node, outputs[k].value.node);
  }

  /** An expression whose operands have been visited. */
  lemma GrownMore(exprs: Exprs, consts: seq<nat>, order: seq<nat>, n: nat)
    requires Grown(exprs, consts, order) && n < |exprs|
    requires forall i :: 0 <= i < |exprs[n].inputs| && exprs[n].inputs[i].Some? ==>
                           exprs[n].inputs[i].value.node in order
    ensures Grown(exprs, consts, order + [n])
  {
    var more := order + [n];
    forall p: nat | |consts| <= p < |more| ensures After(exprs, more, p) {
      if p < |order| {
        assert After(exprs, order, p) && more[..p] == order[..p];
      } else {
        assert more[..p] == order;
      }
    }
  }

  lemma GrownIs(exprs: Exprs, outputs: seq<Option<Var>>, consts: seq<nat>, order: seq<nat>)
    requires Grown(exprs, consts, order) && Pending(outputs, |outputs|, order, [])
    ensures consts <= order && forall p: nat :: |consts| <= p < |order| ==> After(exprs, order, p)
    ensures forall k :: 0 <= k < |outputs| && outputs[k].Some? ==> outputs[k].value.node in order
  {
  }

  lemma Complete(exprs: Exprs, outputs: seq<Option<Var>>, consts: seq<nat>, order: seq<nat>)
    requires Acyclic(exprs) && consts == Constants(exprs, outputs) && Grown(exprs, consts, order)
    requires Pending(outputs, |outputs|, order, [])
    ensures OperandsFirst(exprs, order) <==> OperandsFirst(exprs, consts)
    ensures OperandsFirst(exprs, order) ==> forall n: nat :: Wanted(exprs, outputs, n) ==> n in order
  {
    forall p: nat | p < |consts| ensures After(exprs, order, p) <==> After(exprs, consts, p) {
      assert order[..p] == consts[..p];
    }
    if OperandsFirst(exprs, consts) {
      forall p: nat | p < |order| ensures After(exprs, order, p) {
        if p < |consts| { assert After(exprs, consts, p); }
      }
    }
    if OperandsFirst(exprs, order) {
      forall p: nat | p < |consts| ensures After(exprs, consts, p) { assert After(exprs, order, p); }
      forall n: nat | Wanted(exprs, outputs, n) ensures n in order {
        var k :| 0 <= k < |outputs| && outputs[k].Some? && outputs[k].value.node < |exprs|
        && Reaches(exprs, outputs[k].value.node, n);
        ReachedInOrder(exprs, order, outputs[k].value.node, n);
      }
    }
  }
}
