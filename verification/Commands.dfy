/**
What a command list computes. Tensors are names with a fixed number of elements, operator payloads
are functions, and a fused kernel is a straight-line program that is run once for every element of
its output.
 */
module Commands {
  type Tensor = nat
  type Scalar = real
  type Value = seq<Scalar>
  type Env = map<Tensor, Value>

  /** One line of a kernel: variables and inputs are numbered as in their names `var_k`, `input_k`. */
  datatype Instr =
    | Constant(dst: nat, v: Scalar)
    | LoadScalar(dst: nat, input: nat)
    | Load(dst: nat, input: nat)
    | Compute(dst: nat, f: seq<Scalar> -> Scalar, args: seq<nat>)

  /** The body, then one store of a variable for every output, for each of `size` offsets. */
  datatype Kernel = Kernel(size: nat, body: seq<Instr>, stores: seq<nat>)

  datatype Op =
    | Elementwise(f: seq<Scalar> -> Scalar)
    | Other(g: seq<Value> -> seq<Value>)
    | Fused(kernel: Kernel)
    | Erased

  datatype Command = Command(op: Op, inputs: seq<Tensor>, outputs: seq<Tensor>)

  /** What is known before anything runs: the element counts and the constant scalars. */
  datatype Context = Context(sizeOf: Tensor -> nat, constants: map<Tensor, Scalar>)

  function Lookup(env: Env, t: Tensor): Value {
    if t in env then env[t] else []
  }

  function Arguments(env: Env, ts: seq<Tensor>): seq<Value> {
    seq(|ts|, k requires 0 <= k < |ts| => Lookup(env, ts[k]))
  }

  /** Element `i` of a value, where a scalar stands for every element. */
  function At(v: Value, i: nat): Scalar {
    if |v| == 1 then v[0] else if i < |v| then v[i] else 0.0
  }

  function Elements(args: seq<Value>, i: nat): seq<Scalar> {
    seq(|args|, k requires 0 <= k < |args| => At(args[k], i))
  }

  function Pointwise(f: seq<Scalar> -> Scalar, args: seq<Value>, n: nat): (v: Value)
    ensures |v| == n
  {
    seq(n, i requires 0 <= i < n => f(Elements(args, i)))
  }

  // ---- kernels ----

  function InputElement(ins: seq<Value>, k: nat, i: nat): Scalar {
    if k < |ins| && i < |ins[k]| then ins[k][i] else 0.0
  }

  function Variable(vars: map<nat, Scalar>, v: nat): Scalar {
    if v in vars then vars[v] else 0.0
  }

  function Variables(vars: map<nat, Scalar>, vs: seq<nat>): seq<Scalar> {
    seq(|vs|, k requires 0 <= k < |vs| => Variable(vars, vs[k]))
  }

  function RunInstr(instr: Instr, ins: seq<Value>, offset: nat, vars: map<nat, Scalar>): map<nat, Scalar> {
    match instr
    case Constant(dst, v) => vars[dst := v]
    case LoadScalar(dst, input) => vars[dst := InputElement(ins, input, 0)]
    case Load(dst, input) => vars[dst := InputElement(ins, input, offset)]
    case Compute(dst, f, args) => vars[dst := f(Variables(vars, args))]
  }

  function RunBody(body: seq<Instr>, ins: seq<Value>, offset: nat): map<nat, Scalar> {
    if body == [] then map[]
    else RunInstr(body[|body| - 1], ins, offset, RunBody(body[..|body| - 1], ins, offset))
  }

  function RunKernel(k: Kernel, ins: seq<Value>): seq<Value> {
    seq(|k.stores|, j requires 0 <= j < |k.stores| =>
      seq(k.size, offset requires 0 <= offset < k.size => Variable(RunBody(k.body, ins, offset), k.stores[j])))
  }

  // ---- commands ----

  function Results(ctx: Context, cmd: Command, args: seq<Value>): seq<Value> {
    match cmd.op
    case Elementwise(f) => if cmd.outputs == [] then [] else [Pointwise(f, args, ctx.sizeOf(cmd.outputs[0]))]
    case Other(g) => g(args)
    case Fused(kernel) => RunKernel(kernel, args)
    case Erased => []
  }

  function Assign(env: Env, ts: seq<Tensor>, vs: seq<Value>): Env
    decreases |ts|
  {
    if ts == [] || vs == [] then env else Assign(env[ts[0] := vs[0]], ts[1..], vs[1..])
  }

  function Exec(ctx: Context, cmd: Command, env: Env): Env {
    Assign(env, cmd.outputs, Results(ctx, cmd, Arguments(env, cmd.inputs)))
  }

  /** The tensors after the commands have run in order. */
  function ExecAll(ctx: Context, cmds: seq<Command>, env: Env): Env {
    if cmds == [] then env
    else Exec(ctx, cmds[|cmds| - 1], ExecAll(ctx, cmds[..|cmds| - 1], env))
  }

  // ---- what the pass is given ----

  ghost predicate Sized(ctx: Context, env: Env) {
    && (forall t :: t in env ==> |env[t]| == ctx.sizeOf(t))
    && (forall t :: t in ctx.constants ==> ctx.sizeOf(t) == 1 && t in env && env[t] == [ctx.constants[t]])
  }

  /** An element-wise command has one output, and its operands are scalars or as large as that. */
  ghost predicate Shaped(ctx: Context, cmd: Command) {
    match cmd.op
    case Elementwise(f) =>
      && |cmd.outputs| == 1
      && forall k :: 0 <= k < |cmd.inputs| ==>
           ctx.sizeOf(cmd.inputs[k]) == 1 || ctx.sizeOf(cmd.inputs[k]) == ctx.sizeOf(cmd.outputs[0])
    case Other(g) =>
      forall args :: |g(args)| == |cmd.outputs|
                     && forall k :: 0 <= k < |cmd.outputs| ==> |g(args)[k]| == ctx.sizeOf(cmd.outputs[k])
    case _ => false
  }

  /** Every tensor is written by one command at most, and before it is read. */
  ghost predicate WellFormed(ctx: Context, cmds: seq<Command>) {
    && (forall i :: 0 <= i < |cmds| ==> Shaped(ctx, cmds[i]))
    && (forall i, j, t :: 0 <= i < j < |cmds| && t in cmds[i].outputs ==> t !in cmds[j].outputs)
    && (forall i, j, t :: 0 <= i <= j < |cmds| && t in cmds[i].inputs ==> t !in cmds[j].outputs)
    && (forall i, t :: 0 <= i < |cmds| && t in cmds[i].outputs ==> t !in ctx.constants)
  }

  // ---- running ----

  lemma {:induction false} AssignOther(env: Env, ts: seq<Tensor>, vs: seq<Value>, t: Tensor)
    requires t !in ts
    ensures Lookup(Assign(env, ts, vs), t) == Lookup(env, t) && (t in Assign(env, ts, vs) <==> t in env)
    decreases |ts|
  {
    if ts != [] && vs != [] { AssignOther(env[ts[0] := vs[0]], ts[1..], vs[1..], t); }
  }

  /** Assignments of the same values make the same difference. */
  lemma {:induction false} AssignSame(env: Env, other: Env, ts: seq<Tensor>, vs: seq<Value>, t: Tensor)
    requires |ts| == |vs|
    requires t !in ts ==> Lookup(env, t) == Lookup(other, t)
    ensures Lookup(Assign(env, ts, vs), t) == Lookup(Assign(other, ts, vs), t)
    decreases |ts|
  {
    if ts != [] { AssignSame(env[ts[0] := vs[0]], other[ts[0] := vs[0]], ts[1..], vs[1..], t); }
  }

  lemma {:induction false} AssignSized(ctx: Context, env: Env, ts: seq<Tensor>, vs: seq<Value>)
    requires Sized(ctx, env) && |ts| == |vs|
    requires forall k :: 0 <= k < |ts| ==> |vs[k]| == ctx.sizeOf(ts[k]) && ts[k] !in ctx.constants
    ensures Sized(ctx, Assign(env, ts, vs))
    decreases |ts|
  {
    if ts != [] { AssignSized(ctx, env[ts[0] := vs[0]], ts[1..], vs[1..]); }
  }

  lemma ResultsSized(ctx: Context, cmd: Command, args: seq<Value>)
    requires Shaped(ctx, cmd)
    ensures |Results(ctx, cmd, args)| == |cmd.outputs|
    ensures forall k :: 0 <= k < |cmd.outputs| ==> |Results(ctx, cmd, args)[k]| == ctx.sizeOf(cmd.outputs[k])
  {
  }

  lemma {:induction false} ExecSized(ctx: Context, cmds: seq<Command>, env: Env)
    requires Sized(ctx, env) && WellFormed(ctx, cmds)
    ensures Sized(ctx, ExecAll(ctx, cmds, env))
  {
    if cmds != [] {
      var init, last := cmds[..|cmds| - 1], cmds[|cmds| - 1];
      ExecSized(ctx, init, env);
      var before := ExecAll(ctx, init, env);
      ResultsSized(ctx, last, Arguments(before, last.inputs));
      AssignSized(ctx, before, last.outputs, Results(ctx, last, Arguments(before, last.inputs)));
    }
  }

  /** A tensor that no command of `cmds[i..j]` writes keeps its value over them. */
  lemma {:induction false} Untouched(ctx: Context, cmds: seq<Command>, env: Env, i: nat, j: nat, t: Tensor)
    requires i <= j <= |cmds|
    requires forall k :: i <= k < j ==> t !in cmds[k].outputs
    ensures Lookup(ExecAll(ctx, cmds[..j], env), t) == Lookup(ExecAll(ctx, cmds[..i], env), t)
    decreases j
  {
    if i < j {
      Untouched(ctx, cmds, env, i, j - 1, t);
      assert cmds[..j][..j - 1] == cmds[..j - 1];
      var before := ExecAll(ctx, cmds[..j - 1], env);
      AssignOther(before, cmds[j - 1].outputs, Results(ctx, cmds[j - 1], Arguments(before, cmds[j - 1].inputs)), t);
    }
  }

  /** Once an element-wise command has run, its output is for good its function of its inputs. */
  lemma Settled(ctx: Context, cmds: seq<Command>, env: Env, i: nat, j: nat)
    requires WellFormed(ctx, cmds) && i < j <= |cmds| && cmds[i].op.Elementwise?
    ensures var after := ExecAll(ctx, cmds[..j], env);
            Lookup(after, cmds[i].outputs[0])
            == Pointwise(cmds[i].op.f, Arguments(after, cmds[i].inputs), ctx.sizeOf(cmds[i].outputs[0]))
  {
    var c := cmds[i];
    var before, after := ExecAll(ctx, cmds[..i], env), ExecAll(ctx, cmds[..j], env);
    assert Shaped(ctx, c);
    forall k | 0 <= k < |c.inputs| ensures Lookup(after, c.inputs[k]) == Lookup(before, c.inputs[k]) {
      assert c.inputs[k] in c.inputs;
      Untouched(ctx, cmds, env, i, j, c.inputs[k]);
    }
    assert Arguments(after, c.inputs) == Arguments(before, c.inputs);
    var out := c.outputs[0];
    assert out in c.outputs;
    Untouched(ctx, cmds, env, i + 1, j, out);
    assert cmds[..i + 1][..i] == cmds[..i];
    var results := Results(ctx, c, Arguments(before, c.inputs));
    assert c.outputs == [out] && c.outputs[1..] == [] && |results| == 1;
    assert Assign(before, c.outputs, results) == before[out := results[0]];
  }
}
