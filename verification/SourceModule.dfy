/**
The straight-line kernel that codegen/SourceModule.cpp writes for a list of element-wise commands:
every tensor gets one variable, tensors that no earlier command of the list has produced are loaded
first, and the tensors that nothing in the list reads are stored.
 */
module SourceModule {
  import opened Commands

  /** The state of VarScope and the kernel text so far. */
  datatype Scope = Scope(vars: map<Tensor, nat>, nextVar: nat, inputs: seq<Tensor>, used: set<Tensor>, body: seq<Instr>)

  const EMPTY_SCOPE: Scope := Scope(map[], 0, [], {}, [])

  /** How a tensor that has no variable yet gets into variable `v`. */
  function LoadInstr(ctx: Context, sc: Scope, t: Tensor): Instr {
    if t in ctx.constants then Constant(sc.nextVar, ctx.constants[t])
    else if ctx.sizeOf(t) == 1 then LoadScalar(sc.nextVar, |sc.inputs|)
    else Load(sc.nextVar, |sc.inputs|)
  }

  function UseInput(ctx: Context, sc: Scope, t: Tensor): Scope {
    if t in sc.vars then sc.(used := sc.used + {t})
    else Scope(sc.vars[t := sc.nextVar], sc.nextVar + 1,
               if t in ctx.constants then sc.inputs else sc.inputs + [t],
               sc.used + {t}, sc.body + [LoadInstr(ctx, sc, t)])
  }

  function UseInputs(ctx: Context, sc: Scope, ts: seq<Tensor>): Scope {
    if ts == [] then sc else UseInput(ctx, UseInputs(ctx, sc, ts[..|ts| - 1]), ts[|ts| - 1])
  }

  function VarsOf(sc: Scope, ts: seq<Tensor>): seq<nat> {
    seq(|ts|, k requires 0 <= k < |ts| => if ts[k] in sc.vars then sc.vars[ts[k]] else 0)
  }

  function AddNode(ctx: Context, sc: Scope, cmd: Command): Scope
    requires cmd.op.Elementwise? && |cmd.outputs| == 1
  {
    var loaded, out := UseInputs(ctx, sc, cmd.inputs), cmd.outputs[0];
    Scope(if out in loaded.vars then loaded.vars else loaded.vars[out := loaded.nextVar], loaded.nextVar + 1,
          loaded.inputs, loaded.used, loaded.body + [Compute(loaded.nextVar, cmd.op.f, VarsOf(loaded, cmd.inputs))])
  }

  ghost predicate Fusable(cmds: seq<Command>) {
    forall i :: 0 <= i < |cmds| ==> cmds[i].op.Elementwise? && |cmds[i].outputs| == 1
  }

  function AddNodes(ctx: Context, cmds: seq<Command>): Scope
    requires Fusable(cmds)
  {
    if cmds == [] then EMPTY_SCOPE else AddNode(ctx, AddNodes(ctx, cmds[..|cmds| - 1]), cmds[|cmds| - 1])
  }

  /** The tensors that the kernel must store. */
  function Unused(sc: Scope): set<Tensor> {
    set t | t in sc.vars && t !in sc.used
  }

  // ---- the class that builds it ----

  class VarScope {
    var varIdx: nat
    var varMap: map<Tensor, nat>
    var used: set<Tensor>
    var inputs: seq<Tensor>
    var outputs: seq<Tensor>
    var body: seq<Instr>

    ghost function State(): Scope
      reads this
    {
      Scope(varMap, varIdx, inputs, used, body)
    }

    constructor ()
      ensures State() == EMPTY_SCOPE && outputs == []
    {
      varIdx, varMap, used, inputs, outputs, body := 0, map[], {}, [], [], [];
    }

    method AddVar(t: Tensor) returns (name: nat)
      modifies this`varIdx, this`varMap
      ensures name == old(varIdx) && varIdx == name + 1
      ensures varMap == if t in old(varMap) then old(varMap) else old(varMap)[t := name]
    {
      name := varIdx;
      varIdx := varIdx + 1;
      if t !in varMap { varMap := varMap[t := name]; }
    }

    method AddInput(t: Tensor) returns (name: nat)
      modifies this`inputs
      ensures name == |old(inputs)| && inputs == old(inputs) + [t]
    {
      name := |inputs|;
      inputs := inputs + [t];
    }

    /** One iteration of the operand loop: the variable of operand `t`. */
    method Operand(ctx: Context, t: Tensor) returns (name: nat)
      modifies this`varIdx, this`varMap, this`used, this`inputs, this`body
      ensures State() == UseInput(ctx, old(State()), t)
      ensures t in varMap && name == varMap[t]
    {
      if t in varMap {
        name := varMap[t];
      } else {
        name := AddVar(t);
        var code;
        if t in ctx.constants {
          code := Constant(name, ctx.constants[t]);
        } else {
          var input := AddInput(t);
          code := if ctx.sizeOf(t) == 1 then LoadScalar(name, input) else Load(name, input);
        }
        body := body + [code];
      }
      used := used + {t};
    }

    /** The code of one command. */
    method Node(ctx: Context, cmd: Command)
      requires cmd.op.Elementwise? && |cmd.outputs| == 1
      modifies this`varIdx, this`varMap, this`used, this`inputs, this`body
      ensures State() == AddNode(ctx, old(State()), cmd)
    {
      var names := [];
      ghost var start := State();
      for i := 0 to |cmd.inputs|
        invariant State() == UseInputs(ctx, start, cmd.inputs[..i])
        invariant |names| == i
        invariant forall k :: 0 <= k < i ==> cmd.inputs[k] in varMap && names[k] == varMap[cmd.inputs[k]]
      {
        assert cmd.inputs[..i + 1][..i] == cmd.inputs[..i];
        var name := Operand(ctx, cmd.inputs[i]);
        names := names + [name];
      }
      assert cmd.inputs[..|cmd.inputs|] == cmd.inputs;
      assert names == VarsOf(State(), cmd.inputs);
      var tmp := AddVar(cmd.outputs[0]);
      body := body + [Compute(tmp, cmd.op.f, names)];
    }

    /** Collects what nothing has used, in no particular order. */
    method ComputeOutput()
      modifies this`outputs
      ensures forall t :: t in outputs <==> t in Unused(State())
      ensures forall i, j :: 0 <= i < j < |outputs| ==> outputs[i] != outputs[j]
    {
      outputs := [];
      var keys := varMap.Keys;
      while keys != {}
        invariant keys <= varMap.Keys
        invariant forall t :: t in outputs <==> t in varMap && t !in keys && t !in used
        invariant forall i, j :: 0 <= i < j < |outputs| ==> outputs[i] != outputs[j]
        decreases keys
      {
        var t :| t in keys;
        if t !in used { outputs := outputs + [t]; }
        keys := keys - {t};
      }
    }

    /** The command that runs the kernel. */
    method Finish(ctx: Context) returns (k: Command)
      requires outputs != []
      ensures k == Command(Fused(Kernel(ctx.sizeOf(outputs[0]), body, VarsOf(State(), outputs))), inputs, outputs)
    {
      var stores := seq(|outputs|, j requires 0 <= j < |outputs| reads this =>
        if outputs[j] in varMap then varMap[outputs[j]] else 0);
      assert stores == VarsOf(State(), outputs);
      k := Command(Fused(Kernel(ctx.sizeOf(outputs[0]), body, stores)), inputs, outputs);
    }
  }

  // ---- what the kernel computes ----

  /** The variables stay below the next number, and the body reads only inputs that exist. */
  ghost predicate Tidy(sc: Scope) {
    && (forall t :: t in sc.vars ==> sc.vars[t] < sc.nextVar)
    && (forall k :: 0 <= k < |sc.body| ==> sc.body[k].dst < sc.nextVar && Reads(sc.body[k]) <= |sc.inputs|)
  }

  /** One more than the input that an instruction reads. */
  function Reads(instr: Instr): nat {
    match instr
    case LoadScalar(_, k) => k + 1
    case Load(_, k) => k + 1
    case _ => 0
  }

  lemma {:induction false} MoreInputs(body: seq<Instr>, ins: seq<Value>, more: seq<Value>, offset: nat)
    requires forall k :: 0 <= k < |body| ==> Reads(body[k]) <= |ins|
    ensures RunBody(body, ins + more, offset) == RunBody(body, ins, offset)
  {
    if body != [] { MoreInputs(body[..|body| - 1], ins, more, offset); }
  }

  lemma {:induction false} FreshVariable(body: seq<Instr>, ins: seq<Value>, offset: nat, v: nat)
    requires forall k :: 0 <= k < |body| ==> body[k].dst < v
    ensures v !in RunBody(body, ins, offset)
  {
    if body != [] { FreshVariable(body[..|body| - 1], ins, offset, v); }
  }

  /** At `offset`, every variable holds the element of its tensor in `env`. */
  ghost predicate Faithful(sc: Scope, env: Env, offset: nat) {
    var vars := RunBody(sc.body, Arguments(env, sc.inputs), offset);
    forall t :: t in sc.vars ==> sc.vars[t] in vars && vars[sc.vars[t]] == At(Lookup(env, t), offset)
  }

  lemma UseInputFaithful(ctx: Context, sc: Scope, env: Env, offset: nat, t: Tensor)
    requires Sized(ctx, env) && Tidy(sc) && Faithful(sc, env, offset)
    ensures Tidy(UseInput(ctx, sc, t)) && Faithful(UseInput(ctx, sc, t), env, offset)
  {
    if t !in sc.vars {
      var next := UseInput(ctx, sc, t);
      var ins := Arguments(env, sc.inputs);
      var more := if t in ctx.constants then [] else [Lookup(env, t)];
      assert Arguments(env, next.inputs) == ins + more;
      assert next.body[..|next.body| - 1] == sc.body;
      MoreInputs(sc.body, ins, more, offset);
      FreshVariable(sc.body, ins, offset, sc.nextVar);
    }
  }

  lemma {:induction false} UseInputsFaithful(ctx: Context, sc: Scope, env: Env, offset: nat, ts: seq<Tensor>)
    requires Sized(ctx, env) && Tidy(sc) && Faithful(sc, env, offset)
    ensures Tidy(UseInputs(ctx, sc, ts)) && Faithful(UseInputs(ctx, sc, ts), env, offset)
  {
    hide Tidy, Faithful;
    if ts != [] {
      var init := ts[..|ts| - 1];
      UseInputsFaithful(ctx, sc, env, offset, init);
      UseInputFaithful(ctx, UseInputs(ctx, sc, init), env, offset, ts[|ts| - 1]);
    }
  }

  /** Which variables and uses the operands of a command add. */
  lemma {:induction false} UseInputsCovers(ctx: Context, sc: Scope, ts: seq<Tensor>)
    ensures var next := UseInputs(ctx, sc, ts);
            && (forall t :: t in next.vars <==> t in sc.vars || t in ts)
            && (forall t :: t in next.used <==> t in sc.used || t in ts)
  {
    if ts != [] {
      var init := ts[..|ts| - 1];
      UseInputsCovers(ctx, sc, init);
      assert ts == init + [ts[|ts| - 1]];
    }
  }

  /** What a command has left in `env`. */
  ghost predicate Holds(ctx: Context, cmd: Command, env: Env)
    requires cmd.op.Elementwise? && |cmd.outputs| == 1
  {
    Lookup(env, cmd.outputs[0]) == Pointwise(cmd.op.f, Arguments(env, cmd.inputs), ctx.sizeOf(cmd.outputs[0]))
  }

  /** One element of a command's output is its function of one element of each operand, whether the
      output is a scalar or as large as the kernel. */
  lemma ElementOf(ctx: Context, cmd: Command, env: Env, offset: nat, size: nat)
    requires Sized(ctx, env) && cmd.op.Elementwise? && Shaped(ctx, cmd) && Holds(ctx, cmd, env)
    requires offset < size && (ctx.sizeOf(cmd.outputs[0]) == 1 || ctx.sizeOf(cmd.outputs[0]) == size)
    ensures At(Lookup(env, cmd.outputs[0]), offset) == cmd.op.f(Elements(Arguments(env, cmd.inputs), offset))
  {
    var args, n := Arguments(env, cmd.inputs), ctx.sizeOf(cmd.outputs[0]);
    if n == 1 {
      forall k | 0 <= k < |args| ensures At(args[k], offset) == At(args[k], 0) {
        assert ctx.sizeOf(cmd.inputs[k]) == 1;
      }
      assert Elements(args, offset) == Elements(args, 0);
    }
  }

  /** What the operands of a command hold in their variables. */
  lemma OperandElements(sc: Scope, env: Env, offset: nat, ts: seq<Tensor>)
    requires Faithful(sc, env, offset) && forall k :: 0 <= k < |ts| ==> ts[k] in sc.vars
    ensures Variables(RunBody(sc.body, Arguments(env, sc.inputs), offset), VarsOf(sc, ts))
            == Elements(Arguments(env, ts), offset)
  {
    hide RunBody, At, Lookup;
  }

  /** A new variable that is computed as its tensor was. */
  lemma ComputedFaithful(sc: Scope, next: Scope, env: Env, offset: nat, f: seq<Scalar> -> Scalar, args: seq<nat>,
      out: Tensor)
    requires Tidy(sc) && Faithful(sc, env, offset) && out !in sc.vars
    requires next == Scope(sc.vars[out := sc.nextVar], sc.nextVar + 1, sc.inputs, sc.used,
                           sc.body + [Compute(sc.nextVar, f, args)])
    requires f(Variables(RunBody(sc.body, Arguments(env, sc.inputs), offset), args)) == At(Lookup(env, out), offset)
    ensures Tidy(next) && Faithful(next, env, offset)
  {
    hide At, Lookup, Arguments, Variables;
    assert next.body[..|next.body| - 1] == sc.body;
    FreshVariable(sc.body, Arguments(env, sc.inputs), offset, sc.nextVar);
  }

  lemma AddNodeFaithful(ctx: Context, sc: Scope, env: Env, offset: nat, size: nat, cmd: Command)
    requires Sized(ctx, env) && Tidy(sc) && Faithful(sc, env, offset)
    requires cmd.op.Elementwise? && Shaped(ctx, cmd) && Holds(ctx, cmd, env)
    requires offset < size && (ctx.sizeOf(cmd.outputs[0]) == 1 || ctx.sizeOf(cmd.outputs[0]) == size)
    requires cmd.outputs[0] !in sc.vars && cmd.outputs[0] !in cmd.inputs
    ensures Tidy(AddNode(ctx, sc, cmd)) && Faithful(AddNode(ctx, sc, cmd), env, offset)
  {
    hide Sized, Tidy, Faithful, Holds, UseInputs, RunBody, At, Lookup;
    var loaded, out := UseInputs(ctx, sc, cmd.inputs), cmd.outputs[0];
    UseInputsCovers(ctx, sc, cmd.inputs);
    UseInputsFaithful(ctx, sc, env, offset, cmd.inputs);
    ElementOf(ctx, cmd, env, offset, size);
    forall k | 0 <= k < |cmd.inputs| ensures cmd.inputs[k] in loaded.vars { assert cmd.inputs[k] in cmd.inputs; }
    OperandElements(loaded, env, offset, cmd.inputs);
    ComputedFaithful(loaded, AddNode(ctx, sc, cmd), env, offset, cmd.op.f, VarsOf(loaded, cmd.inputs), out);
  }

  ghost predicate ReadBy(cmds: seq<Command>, t: Tensor) {
    exists i :: 0 <= i < |cmds| && t in cmds[i].inputs
  }

  ghost predicate WrittenBy(cmds: seq<Command>, t: Tensor)
    requires Fusable(cmds)
  {
    exists i :: 0 <= i < |cmds| && t == cmds[i].outputs[0]
  }

  /** No command reads its own or a later output, and outputs differ. */
  ghost predicate Ordered(cmds: seq<Command>)
    requires Fusable(cmds)
  {
    && (forall i, j :: 0 <= i <= j < |cmds| ==> cmds[j].outputs[0] !in cmds[i].inputs)
    && (forall i, j :: 0 <= i < j < |cmds| ==> cmds[i].outputs[0] != cmds[j].outputs[0])
  }

  /** `env` is what staged execution of the commands leaves, and all outputs are scalars or have
      `size` elements. */
  ghost predicate Staged(ctx: Context, cmds: seq<Command>, env: Env, size: nat)
    requires Fusable(cmds)
  {
    && Sized(ctx, env)
    && forall i :: 0 <= i < |cmds| ==>
         && Shaped(ctx, cmds[i]) && Holds(ctx, cmds[i], env)
         && (ctx.sizeOf(cmds[i].outputs[0]) == 1 || ctx.sizeOf(cmds[i].outputs[0]) == size)
  }

  /** Which tensors have a variable, and which are used. */
  ghost predicate Covers(sc: Scope, cmds: seq<Command>)
    requires Fusable(cmds)
  {
    && (forall t :: t in sc.vars <==> ReadBy(cmds, t) || WrittenBy(cmds, t))
    && (forall t :: t in sc.used <==> ReadBy(cmds, t))
  }

  lemma CoversStep(sc: Scope, next: Scope, cmds: seq<Command>)
    requires Fusable(cmds) && cmds != []
    requires Covers(sc, cmds[..|cmds| - 1])
    requires var cmd := cmds[|cmds| - 1];
             && (forall t :: t in next.vars <==> t in sc.vars || t in cmd.inputs || t == cmd.outputs[0])
             && (forall t :: t in next.used <==> t in sc.used || t in cmd.inputs)
    ensures Covers(next, cmds)
  {
    var init := cmds[..|cmds| - 1];
    forall t ensures ReadBy(cmds, t) <==> ReadBy(init, t) || t in cmds[|cmds| - 1].inputs {
      if ReadBy(init, t) { var i :| 0 <= i < |init| && t in init[i].inputs; assert cmds[i] == init[i]; }
      if ReadBy(cmds, t) {
        var i :| 0 <= i < |cmds| && t in cmds[i].inputs;
        if i < |init| { assert init[i] == cmds[i]; }
      }
    }
    forall t ensures WrittenBy(cmds, t) <==> WrittenBy(init, t) || t == cmds[|cmds| - 1].outputs[0] {
      if WrittenBy(init, t) { var i :| 0 <= i < |init| && t == init[i].outputs[0]; assert cmds[i] == init[i]; }
      if WrittenBy(cmds, t) {
        var i :| 0 <= i < |cmds| && t == cmds[i].outputs[0];
        if i < |init| { assert init[i] == cmds[i]; }
      }
    }
  }

  lemma {:induction false} ScopeCovers(ctx: Context, cmds: seq<Command>)
    requires Fusable(cmds)
    ensures Covers(AddNodes(ctx, cmds), cmds)
  {
    if cmds != [] {
      var init, cmd := cmds[..|cmds| - 1], cmds[|cmds| - 1];
      ScopeCovers(ctx, init);
      UseInputsCovers(ctx, AddNodes(ctx, init), cmd.inputs);
      CoversStep(AddNodes(ctx, init), AddNodes(ctx, cmds), cmds);
    }
  }

  /** After all commands, every variable holds what staged execution computes for its tensor. */
  lemma {:induction false} AddNodesFaithful(ctx: Context, cmds: seq<Command>, env: Env, offset: nat, size: nat)
    requires Fusable(cmds) && Ordered(cmds) && Staged(ctx, cmds, env, size) && offset < size
    ensures var sc := AddNodes(ctx, cmds); Tidy(sc) && Faithful(sc, env, offset)
  {
    hide Tidy, Faithful;
    if cmds == [] {
      EmptyFaithful(env, offset);
    } else {
      var init, cmd := cmds[..|cmds| - 1], cmds[|cmds| - 1];
      AddNodesFaithful(ctx, init, env, offset, size);
      ScopeCovers(ctx, init);
      assert !ReadBy(init, cmd.outputs[0]) && !WrittenBy(init, cmd.outputs[0]);
      AddNodeFaithful(ctx, AddNodes(ctx, init), env, offset, size, cmd);
    }
  }

  lemma EmptyFaithful(env: Env, offset: nat)
    ensures Tidy(EMPTY_SCOPE) && Faithful(EMPTY_SCOPE, env, offset)
  {
  }

  /** What a kernel loads from memory is nothing that it computes itself. */
  lemma {:induction false} InputsAreExternal(ctx: Context, cmds: seq<Command>, t: Tensor)
    requires Fusable(cmds) && Ordered(cmds) && t in AddNodes(ctx, cmds).inputs
    ensures ReadBy(cmds, t) && !WrittenBy(cmds, t)
  {
    if cmds != [] {
      var init, cmd := cmds[..|cmds| - 1], cmds[|cmds| - 1];
      var sc := AddNodes(ctx, init);
      NewInputs(ctx, sc, cmd.inputs, t);
      if t in sc.inputs {
        InputsAreExternal(ctx, init, t);
        var i :| 0 <= i < |init| && t in init[i].inputs;
        assert cmds[i] == init[i];
        assert forall j :: 0 <= j < |init| ==> cmds[j] == init[j];
      } else {
        OutputsHaveVariables(ctx, init);
        assert forall j :: 0 <= j < |init| ==> cmds[j] == init[j];
      }
    }
  }

  lemma {:induction false} NewInputs(ctx: Context, sc: Scope, ts: seq<Tensor>, t: Tensor)
    ensures t in UseInputs(ctx, sc, ts).inputs ==> t in sc.inputs || (t in ts && t !in sc.vars)
    ensures forall u :: u in sc.vars ==> u in UseInputs(ctx, sc, ts).vars
  {
    if ts != [] { NewInputs(ctx, sc, ts[..|ts| - 1], t); }
  }

  lemma {:induction false} OutputsHaveVariables(ctx: Context, cmds: seq<Command>)
    requires Fusable(cmds)
    ensures forall i :: 0 <= i < |cmds| ==> cmds[i].outputs[0] in AddNodes(ctx, cmds).vars
  {
    if cmds != [] {
      var init, cmd := cmds[..|cmds| - 1], cmds[|cmds| - 1];
      OutputsHaveVariables(ctx, init);
      NewInputs(ctx, AddNodes(ctx, init), cmd.inputs, 0);
      forall i | 0 <= i < |cmds| ensures cmds[i].outputs[0] in AddNodes(ctx, cmds).vars {
        if i < |init| { assert cmds[i] == init[i]; }
      }
    }
  }

  /** The kernel of a list whose last output is its only result. */
  function KernelOf(ctx: Context, cmds: seq<Command>): Command
    requires Fusable(cmds) && cmds != []
  {
    var sc, out := AddNodes(ctx, cmds), cmds[|cmds| - 1].outputs[0];
    Command(Fused(Kernel(ctx.sizeOf(out), sc.body, VarsOf(sc, [out]))), sc.inputs, [out])
  }

  lemma KernelElement(ctx: Context, cmds: seq<Command>, env: Env, offset: nat)
    requires Fusable(cmds) && cmds != [] && Ordered(cmds)
    requires Staged(ctx, cmds, env, ctx.sizeOf(cmds[|cmds| - 1].outputs[0]))
    requires offset < ctx.sizeOf(cmds[|cmds| - 1].outputs[0])
    ensures var k, out := KernelOf(ctx, cmds), cmds[|cmds| - 1].outputs[0];
            Variable(RunBody(k.op.kernel.body, Arguments(env, k.inputs), offset), k.op.kernel.stores[0])
            == At(Lookup(env, out), offset)
  {
    var sc, out := AddNodes(ctx, cmds), cmds[|cmds| - 1].outputs[0];
    AddNodesFaithful(ctx, cmds, env, offset, ctx.sizeOf(out));
    ScopeCovers(ctx, cmds);
    assert WrittenBy(cmds, out);
    assert out in sc.vars && VarsOf(sc, [out])[0] == sc.vars[out];
  }

  /** Running the kernel once per element gives what running the commands one after another on whole
      tensors gives. */
  lemma KernelIsStaged(ctx: Context, cmds: seq<Command>, env: Env)
    requires Fusable(cmds) && cmds != [] && Ordered(cmds)
    requires Staged(ctx, cmds, env, ctx.sizeOf(cmds[|cmds| - 1].outputs[0]))
    ensures var k, out := KernelOf(ctx, cmds), cmds[|cmds| - 1].outputs[0];
            RunKernel(k.op.kernel, Arguments(env, k.inputs)) == [Lookup(env, out)]
  {
    hide AddNodes, RunBody, Ordered;
    var k, out := KernelOf(ctx, cmds), cmds[|cmds| - 1].outputs[0];
    var size := ctx.sizeOf(out);
    var v := Lookup(env, out);
    assert |v| == size by { assert Holds(ctx, cmds[|cmds| - 1], env); }
    var ins := Arguments(env, k.inputs);
    var result := RunKernel(k.op.kernel, ins)[0];
    forall offset | 0 <= offset < size ensures result[offset] == v[offset] {
      KernelElement(ctx, cmds, env, offset);
    }
    assert result == v;
  }

  /** Sorts nodes by topoIndex. */
  function Insert(n: nat, s: seq<nat>): (r: seq<nat>)
    ensures forall m :: m in r <==> m == n || m in s
  {
    if s == [] || n <= s[0] then [n] + s else [s[0]] + Insert(n, s[1..])
  }

  ghost predicate Ascending(s: seq<nat>) {
    forall i, j :: 0 <= i < j < |s| ==> s[i] < s[j]
  }

  function SortNodes(s: seq<nat>): (r: seq<nat>)
    ensures forall m :: m in r <==> m in s
  {
    if s == [] then [] else Insert(s[0], SortNodes(s[1..]))
  }

  lemma {:induction false} InsertAscending(n: nat, s: seq<nat>)
    requires Ascending(s) && n !in s
    ensures Ascending(Insert(n, s))
  {
    if s != [] && n > s[0] {
      InsertAscending(n, s[1..]);
      var r := Insert(n, s[1..]);
      forall k | 0 <= k < |r| ensures s[0] < r[k] { assert r[k] in r; }
    }
  }

  lemma {:induction false} SortAscending(s: seq<nat>)
    requires forall i, j :: 0 <= i < j < |s| ==> s[i] != s[j]
    ensures Ascending(SortNodes(s))
  {
    if s != [] {
      SortAscending(s[1..]);
      InsertAscending(s[0], SortNodes(s[1..]));
    }
  }

  function Select(cmds: seq<Command>, nodes: seq<nat>): (r: seq<Command>)
    requires forall k :: 0 <= k < |nodes| ==> nodes[k] < |cmds|
    ensures |r| == |nodes| && forall k :: 0 <= k < |nodes| ==> r[k] == cmds[nodes[k]]
  {
    seq(|nodes|, k requires 0 <= k < |nodes| => cmds[nodes[k]])
  }

  /** Builds the kernel of the nodes `sorted`, of which the last must have the only unused output. */
  method BuildSorted(ctx: Context, cmds: seq<Command>, sorted: seq<nat>) returns (k: Command)
    requires forall i :: 0 <= i < |sorted| ==> sorted[i] < |cmds|
    requires var list := Select(cmds, sorted);
             Fusable(list) && list != [] && Unused(AddNodes(ctx, list)) == {list[|list| - 1].outputs[0]}
    ensures k == KernelOf(ctx, Select(cmds, sorted))
  {
    hide AddNode, Unused;
    ghost var list := Select(cmds, sorted);
    var scope := new VarScope();
    for i := 0 to |sorted|
      invariant scope.State() == AddNodes(ctx, list[..i])
    {
      assert list[..i + 1][..i] == list[..i];
      scope.Node(ctx, cmds[sorted[i]]);
    }
    assert list[..|sorted|] == list;
    scope.ComputeOutput();
    SoleElement(scope.outputs, list[|list| - 1].outputs[0]);
    k := scope.Finish(ctx);
  }

  /** Sorts the nodes and builds their kernel. */
  method BuildKernel(ctx: Context, cmds: seq<Command>, nodes: seq<nat>) returns (k: Command)
    requires forall i :: 0 <= i < |SortNodes(nodes)| ==> SortNodes(nodes)[i] < |cmds|
    requires var list := Select(cmds, SortNodes(nodes));
             Fusable(list) && list != [] && Unused(AddNodes(ctx, list)) == {list[|list| - 1].outputs[0]}
    ensures k == KernelOf(ctx, Select(cmds, SortNodes(nodes)))
  {
    k := BuildSorted(ctx, cmds, SortNodes(nodes));
  }

  lemma SoleElement(s: seq<Tensor>, t: Tensor)
    requires forall u :: u in s <==> u in {t}
    requires forall i, j :: 0 <= i < j < |s| ==> s[i] != s[j]
    ensures s == [t]
  {
    assert t in s;
    forall i | 0 <= i < |s| ensures s[i] == t { assert s[i] in s; }
    assert s[0] == s[|s| - 1];
  }
}
