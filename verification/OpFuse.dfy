/**
The pass of codegen/OpFuse.cpp as a whole: it builds the data-flow graph of a command list and its
post-dominator tree, finds the regions to fuse, puts one kernel into the place of every region's
root and removes the other members.
 */
module OpFuse {
  import opened Wrappers
  import opened PostDominators
  import opened FuseRegions
  import opened Commands
  import opened SourceModule

  /** `j` reads something that `i` writes. */
  ghost predicate Feeds(cmds: seq<Command>, i: nat, j: nat)
    requires i < |cmds| && j < |cmds|
  {
    exists t :: t in cmds[i].outputs && t in cmds[j].inputs
  }

  ghost predicate GraphOf(cmds: seq<Command>, succ: Graph) {
    && |succ| == |cmds|
    && (forall i, j: nat :: 0 <= i < |cmds| && j in succ[i] ==> j < |cmds|)
    && (forall i: nat, j: nat :: i < |cmds| && j < |cmds| ==> (j in succ[i] <==> Feeds(cmds, i, j)))
  }

  /** Whether isLegal accepts a command: the element-wise operators. */
  predicate IsLegal(cmd: Command) {
    cmd.op.Elementwise?
  }

  ghost predicate LegalOf(cmds: seq<Command>, legal: seq<bool>) {
    |legal| == |cmds| && forall i :: 0 <= i < |cmds| ==> legal[i] == IsLegal(cmds[i])
  }

  /** Everything that holds between the command list and the graph when kernels are generated. */
  ghost predicate Analysed(ctx: Context, cmds: seq<Command>, succ: Graph, dom: Parents, legal: seq<bool>) {
    WellFormed(ctx, cmds) && GraphOf(cmds, succ) && TreeFor(succ, dom, 0) && LegalOf(cmds, legal)
  }

  lemma EdgesGoForward(ctx: Context, cmds: seq<Command>, succ: Graph)
    requires WellFormed(ctx, cmds) && GraphOf(cmds, succ)
    ensures Forward(succ)
  {
    forall i, k | 0 <= i < |succ| && 0 <= k < |succ[i]| ensures i < succ[i][k] < |succ| {
      var j := succ[i][k];
      assert j in succ[i];
      var t :| t in cmds[i].outputs && t in cmds[j].inputs;
    }
  }

  // ---- the commands of one region ----

  /** The members of a region in the order in which the kernel runs them. */
  ghost predicate IsOrder(members: seq<nat>, order: seq<nat>) {
    Ascending(order) && forall m :: m in order <==> m in members
  }

  lemma MembersLegal(ctx: Context, cmds: seq<Command>, succ: Graph, dom: Parents, legal: seq<bool>, members: seq<nat>,
      m: nat)
    requires Analysed(ctx, cmds, succ, dom, legal) && IsUnit(succ, dom, legal, members) && m in members
    ensures m < |cmds| && cmds[m].op.Elementwise? && |cmds[m].outputs| == 1 && m <= Root(members)
    ensures InRegion(succ, dom, legal, Root(members), m)
  {
    assert Root(members) in members;
    RegionIsUnit(succ, dom, legal, Root(members), m);
    assert Shaped(ctx, cmds[m]);
  }

  /** A member other than the root feeds a member, and only members. */
  lemma MembersFeed(ctx: Context, cmds: seq<Command>, succ: Graph, dom: Parents, legal: seq<bool>, members: seq<nat>,
      m: nat, x: nat)
    requires Analysed(ctx, cmds, succ, dom, legal) && IsUnit(succ, dom, legal, members)
    requires m in members && m != Root(members) && x < |cmds|
    ensures m < |cmds|
    ensures Feeds(cmds, m, x) ==> x in members
    ensures exists y: nat :: y in members && m < y < |cmds| && cmds[m].outputs[0] in cmds[y].inputs
  {
    var root := Root(members);
    MembersLegal(ctx, cmds, succ, dom, legal, members, m);
    assert root in members;
    if Feeds(cmds, m, x) {
      var k :| 0 <= k < |succ[m]| && succ[m][k] == x;
      RegionClosed(succ, dom, legal, root, m, k);
      RegionIsUnit(succ, dom, legal, root, x);
    }
    assert Chain(dom, Some(m)) == {m} + Chain(dom, dom[m]);
    assert root in PostDoms(succ, m) && succ[m] != [];
    var y := succ[m][0];
    assert y in succ[m];
    RegionClosed(succ, dom, legal, root, m, 0);
    RegionIsUnit(succ, dom, legal, root, y);
    assert Feeds(cmds, m, y);
  }

  /** Every output in a region is a scalar or as large as the root's. */
  lemma {:induction false} MemberSize(ctx: Context, cmds: seq<Command>, succ: Graph, dom: Parents, legal: seq<bool>,
                                      members: seq<nat>, m: nat)
    requires Analysed(ctx, cmds, succ, dom, legal) && IsUnit(succ, dom, legal, members) && m in members
    ensures m < |cmds| && Root(members) < |cmds| && |cmds[m].outputs| == |cmds[Root(members)].outputs| == 1
    ensures var n := ctx.sizeOf(cmds[m].outputs[0]); n == 1 || n == ctx.sizeOf(cmds[Root(members)].outputs[0])
    decreases |cmds| - m
  {
    MembersLegal(ctx, cmds, succ, dom, legal, members, m);
    assert Root(members) in members;
    MembersLegal(ctx, cmds, succ, dom, legal, members, Root(members));
    if m != Root(members) {
      MembersFeed(ctx, cmds, succ, dom, legal, members, m, m);
      var y: nat :| y in members && m < y < |cmds| && cmds[m].outputs[0] in cmds[y].inputs;
      MembersLegal(ctx, cmds, succ, dom, legal, members, y);
      MemberSize(ctx, cmds, succ, dom, legal, members, y);
      assert Shaped(ctx, cmds[y]);
    }
  }

  /** The kernel of a region is well defined, and the root's output is all that it must store. */
  lemma RegionKernel(ctx: Context, cmds: seq<Command>, succ: Graph, dom: Parents, legal: seq<bool>,
                     members: seq<nat>, order: seq<nat>)
    requires Analysed(ctx, cmds, succ, dom, legal) && IsUnit(succ, dom, legal, members) && IsOrder(members, order)
    ensures order != [] && order[|order| - 1] == Root(members)
    ensures forall k :: 0 <= k < |order| ==> order[k] < |cmds|
    ensures var list := Select(cmds, order);
            && Fusable(list) && Ordered(list)
            && Unused(AddNodes(ctx, list)) == {cmds[Root(members)].outputs[0]}
  {
    var root := Root(members);
    assert root in members && root in order;
    forall k | 0 <= k < |order| ensures order[k] in members && order[k] < |cmds| && order[k] <= root
                                        && cmds[order[k]].op.Elementwise? && |cmds[order[k]].outputs| == 1 {
      assert order[k] in order;
      MembersLegal(ctx, cmds, succ, dom, legal, members, order[k]);
    }
    var last := order[|order| - 1];
    var r :| 0 <= r < |order| && order[r] == root;
    var list := Select(cmds, order);
    OrderIsOrdered(ctx, cmds, order);
    OnlyRootUnused(ctx, cmds, succ, dom, legal, members, order);
  }

  lemma OrderIsOrdered(ctx: Context, cmds: seq<Command>, order: seq<nat>)
    requires WellFormed(ctx, cmds) && Ascending(order)
    requires forall k :: 0 <= k < |order| ==>
               order[k] < |cmds| && cmds[order[k]].op.Elementwise? && |cmds[order[k]].outputs| == 1
    ensures Fusable(Select(cmds, order)) && Ordered(Select(cmds, order))
  {
    var list := Select(cmds, order);
    forall i, j | 0 <= i <= j < |list| ensures list[j].outputs[0] !in list[i].inputs {
      assert order[i] <= order[j] && list[j].outputs[0] in cmds[order[j]].outputs;
    }
    forall i, j | 0 <= i < j < |list| ensures list[i].outputs[0] != list[j].outputs[0] {
      assert order[i] < order[j] && list[i].outputs[0] in cmds[order[i]].outputs
      && list[j].outputs[0] in cmds[order[j]].outputs;
    }
  }

  lemma OnlyRootUnused(ctx: Context, cmds: seq<Command>, succ: Graph, dom: Parents, legal: seq<bool>,
                       members: seq<nat>, order: seq<nat>)
    requires Analysed(ctx, cmds, succ, dom, legal) && IsUnit(succ, dom, legal, members) && IsOrder(members, order)
    requires forall k :: 0 <= k < |order| ==>
               order[k] < |cmds| && order[k] <= Root(members) && cmds[order[k]].op.Elementwise?
               && |cmds[order[k]].outputs| == 1
    requires Fusable(Select(cmds, order)) && Ordered(Select(cmds, order)) && Root(members) in members
    ensures Unused(AddNodes(ctx, Select(cmds, order))) == {cmds[Root(members)].outputs[0]}
  {
    var root, list := Root(members), Select(cmds, order);
    var out := cmds[root].outputs[0];
    ScopeCovers(ctx, list);
    assert root in order;
    var r :| 0 <= r < |order| && order[r] == root;
    assert WrittenBy(list, out) by { assert list[r] == cmds[root]; }
    assert !ReadBy(list, out) by {
      forall i | 0 <= i < |list| ensures out !in list[i].inputs {
        assert out in cmds[root].outputs && order[i] <= root;
      }
    }
    forall t | WrittenBy(list, t) && t != out ensures ReadBy(list, t) {
      var i :| 0 <= i < |list| && t == list[i].outputs[0];
      assert order[i] in order;
      MembersFeed(ctx, cmds, succ, dom, legal, members, order[i], root);
      var y: nat :| y in members && order[i] < y < |cmds| && cmds[order[i]].outputs[0] in cmds[y].inputs;
      assert y in order;
      var k :| 0 <= k < |order| && order[k] == y;
      assert list[k] == cmds[y];
    }
  }

  // ---- replacing the commands ----

  ghost predicate RegionReady(cmds: seq<Command>, members: seq<nat>) {
    var order := SortNodes(members);
    && order != []
    && (forall k :: 0 <= k < |order| ==> order[k] < |cmds|)
    && Fusable(Select(cmds, order))
  }

  /** The command that takes the place of the root. */
  ghost function RegionCommand(ctx: Context, cmds: seq<Command>, members: seq<nat>): Command
    requires RegionReady(cmds, members)
  {
    KernelOf(ctx, Select(cmds, SortNodes(members)))
  }

  ghost predicate InNone(sets: seq<seq<nat>>, i: nat) {
    forall a :: 0 <= a < |sets| ==> i !in sets[a]
  }

  /** The root of a region has its kernel, and the other members have nothing. */
  ghost predicate RegionReplaced(ctx: Context, cmds: seq<Command>, members: seq<nat>, fused: seq<Command>) {
    && |fused| == |cmds| && Root(members) < |cmds| && RegionReady(cmds, members)
    && fused[Root(members)] == RegionCommand(ctx, cmds, members)
    && forall m :: m in members && m != Root(members) ==> m < |cmds| && fused[m].op.Erased?
  }

  /** The list with the regions in `sets` replaced, and nothing else. */
  ghost predicate Replaced(ctx: Context, cmds: seq<Command>, sets: seq<seq<nat>>, fused: seq<Command>) {
    && |fused| == |cmds|
    && (forall a :: 0 <= a < |sets| ==> RegionReplaced(ctx, cmds, sets[a], fused))
    && (forall i: nat :: i < |cmds| && InNone(sets, i) ==> fused[i] == cmds[i])
  }

  /** What the pass has done to a command list. */
  ghost predicate FusedBy(ctx: Context, cmds: seq<Command>, succ: Graph, dom: Parents, legal: seq<bool>,
                          sets: seq<seq<nat>>, fused: seq<Command>) {
    Analysed(ctx, cmds, succ, dom, legal) && AreUnits(succ, dom, legal, sets) && Replaced(ctx, cmds, sets, fused)
  }

  /** The commands that are left. */
  function Live(cmds: seq<Command>): seq<Command> {
    if cmds == [] then []
    else Live(cmds[..|cmds| - 1]) + if cmds[|cmds| - 1].op.Erased? then [] else [cmds[|cmds| - 1]]
  }

  /** Removing the erased commands changes no result. */
  lemma {:induction false} LiveRunsTheSame(ctx: Context, cmds: seq<Command>, env: Env)
    ensures ExecAll(ctx, Live(cmds), env) == ExecAll(ctx, cmds, env)
  {
    if cmds != [] {
      var init, last := cmds[..|cmds| - 1], cmds[|cmds| - 1];
      LiveRunsTheSame(ctx, init, env);
      if last.op.Erased? {
        assert Live(cmds) == Live(init);
      } else {
        assert Live(cmds)[..|Live(cmds)| - 1] == Live(init);
      }
    }
  }

  /** Different regions have no member in common. */
  lemma SetsApart(ctx: Context, cmds: seq<Command>, succ: Graph, dom: Parents, legal: seq<bool>,
                  sets: seq<seq<nat>>, a: nat, b: nat, m: nat)
    requires Analysed(ctx, cmds, succ, dom, legal) && AreUnits(succ, dom, legal, sets)
    requires a < |sets| && b < |sets| && m in sets[a] && m in sets[b]
    ensures a == b
  {
    assert Root(sets[a]) == Root(sets[b]);
  }

  /** A tensor that a removed command would have written. */
  ghost predicate Gone(cmds: seq<Command>, sets: seq<seq<nat>>, j: nat, t: Tensor)
    requires j <= |cmds|
  {
    exists a, m: nat :: 0 <= a < |sets| && m in sets[a] && m != Root(sets[a]) && m < j && t in cmds[m].outputs
  }

  /** A command reads removed outputs only inside the region they belong to. */
  lemma ReadsNothingGone(ctx: Context, cmds: seq<Command>, succ: Graph, dom: Parents, legal: seq<bool>,
                         sets: seq<seq<nat>>, i: nat, t: Tensor)
    requires Analysed(ctx, cmds, succ, dom, legal) && AreUnits(succ, dom, legal, sets)
    requires i < |cmds| && t in cmds[i].inputs && Gone(cmds, sets, |cmds|, t)
    ensures exists a, m: nat :: 0 <= a < |sets| && i in sets[a] && m in sets[a] && m < |cmds| && t in cmds[m].outputs
  {
    var a, m: nat :| 0 <= a < |sets| && m in sets[a] && m != Root(sets[a]) && m < |cmds| && t in cmds[m].outputs;
    MembersFeed(ctx, cmds, succ, dom, legal, sets[a], m, i);
    assert Feeds(cmds, m, i);
  }

  ghost predicate Agree(cmds: seq<Command>, sets: seq<seq<nat>>, j: nat, e: Env, f: Env)
    requires j <= |cmds|
  {
    forall t :: !Gone(cmds, sets, j, t) ==> Lookup(e, t) == Lookup(f, t)
  }

  /** A command outside all regions runs on the same operands. */
  lemma OtherStep(ctx: Context, cmds: seq<Command>, succ: Graph, dom: Parents, legal: seq<bool>,
                  sets: seq<seq<nat>>, fused: seq<Command>, i: nat, e: Env, f: Env)
    requires FusedBy(ctx, cmds, succ, dom, legal, sets, fused) && i < |cmds|
    requires forall a :: 0 <= a < |sets| ==> i !in sets[a]
    requires Agree(cmds, sets, i, e, f)
    ensures Agree(cmds, sets, i + 1, Exec(ctx, cmds[i], e), Exec(ctx, fused[i], f))
  {
    var c := cmds[i];
    forall k | 0 <= k < |c.inputs| ensures Lookup(e, c.inputs[k]) == Lookup(f, c.inputs[k]) {
      var t := c.inputs[k];
      assert t in c.inputs;
      if Gone(cmds, sets, i, t) { ReadsNothingGone(ctx, cmds, succ, dom, legal, sets, i, t); }
    }
    assert Arguments(e, c.inputs) == Arguments(f, c.inputs);
    var results := Results(ctx, c, Arguments(e, c.inputs));
    ResultsSized(ctx, c, Arguments(e, c.inputs));
    forall t | !Gone(cmds, sets, i + 1, t) ensures Lookup(Exec(ctx, c, e), t) == Lookup(Exec(ctx, c, f), t) {
      assert !Gone(cmds, sets, i, t);
      AssignSame(e, f, c.outputs, results, t);
    }
  }

  /** A removed command changes only what is gone. */
  lemma ErasedStep(ctx: Context, cmds: seq<Command>, sets: seq<seq<nat>>, erased: Command, i: nat, a: nat, e: Env,
      f: Env)
    requires i < |cmds| && a < |sets|
    requires i in sets[a] && i != Root(sets[a]) && erased.op.Erased?
    requires Agree(cmds, sets, i, e, f)
    ensures Agree(cmds, sets, i + 1, Exec(ctx, cmds[i], e), Exec(ctx, erased, f))
  {
    forall t | !Gone(cmds, sets, i + 1, t) ensures Lookup(Exec(ctx, cmds[i], e), t) == Lookup(Exec(ctx, erased, f), t) {
      assert !Gone(cmds, sets, i, t) && t !in cmds[i].outputs;
      AssignOther(e, cmds[i].outputs, Results(ctx, cmds[i], Arguments(e, cmds[i].inputs)), t);
    }
  }

  /** When the root has run, staged execution of the whole region has happened. */
  lemma RegionStaged(ctx: Context, cmds: seq<Command>, succ: Graph, dom: Parents, legal: seq<bool>,
                     members: seq<nat>, env: Env)
    requires Analysed(ctx, cmds, succ, dom, legal) && IsUnit(succ, dom, legal, members) && Sized(ctx, env)
    ensures RegionReady(cmds, members) && Root(members) < |cmds| && |cmds[Root(members)].outputs| == 1
    ensures var list, out := Select(cmds, SortNodes(members)), cmds[Root(members)].outputs[0];
            && list != [] && Ordered(list) && list[|list| - 1].outputs[0] == out
            && Staged(ctx, list, ExecAll(ctx, cmds[..Root(members) + 1], env), ctx.sizeOf(out))
  {
    hide *;
    var root, order := Root(members), SortNodes(members);
    AnalysedParts(ctx, cmds, succ, dom, legal);
    UnitOrder(succ, dom, legal, members);
    RegionKernel(ctx, cmds, succ, dom, legal, members, order);
    MembersLegal(ctx, cmds, succ, dom, legal, members, root);
    var list, after := Select(cmds, order), ExecAll(ctx, cmds[..root + 1], env);
    PrefixWellFormed(ctx, cmds, root + 1);
    ExecSized(ctx, cmds[..root + 1], env);
    assert list[|list| - 1] == cmds[root];
    forall k | 0 <= k < |list| ensures StagedAt(ctx, list[k], after, ctx.sizeOf(cmds[root].outputs[0])) {
      InOrder(members, order, order[k]);
      MemberStaged(ctx, cmds, succ, dom, legal, members, env, order[k]);
    }
    AllStaged(ctx, list, after, ctx.sizeOf(cmds[root].outputs[0]));
    ReadyOf(ctx, cmds, members);
  }

  ghost predicate StagedAt(ctx: Context, cmd: Command, env: Env, size: nat) {
    && cmd.op.Elementwise? && |cmd.outputs| == 1 && Shaped(ctx, cmd) && Holds(ctx, cmd, env)
    && (ctx.sizeOf(cmd.outputs[0]) == 1 || ctx.sizeOf(cmd.outputs[0]) == size)
  }

  lemma AllStaged(ctx: Context, list: seq<Command>, env: Env, size: nat)
    requires Fusable(list) && Sized(ctx, env) && forall k :: 0 <= k < |list| ==> StagedAt(ctx, list[k], env, size)
    ensures Staged(ctx, list, env, size)
  {
    hide Shaped, Holds, Sized;
  }

  lemma ReadyOf(ctx: Context, cmds: seq<Command>, members: seq<nat>)
    requires SortNodes(members) != [] && forall k :: 0 <= k < |SortNodes(members)| ==> SortNodes(members)[k] < |cmds|
    requires Fusable(Select(cmds, SortNodes(members)))
    ensures RegionReady(cmds, members)
    ensures RegionCommand(ctx, cmds, members) == KernelOf(ctx, Select(cmds, SortNodes(members)))
  {
    hide Fusable, SortNodes, KernelOf;
  }

  lemma UnitOrder(succ: Graph, dom: Parents, legal: seq<bool>, members: seq<nat>)
    requires TreeFor(succ, dom, 0) && |legal| == |succ| && IsUnit(succ, dom, legal, members)
    ensures IsOrder(members, SortNodes(members)) && Root(members) in members
  {
    hide TreeFor, Unit, SortNodes;
    SortAscending(members);
  }

  lemma AnalysedParts(ctx: Context, cmds: seq<Command>, succ: Graph, dom: Parents, legal: seq<bool>)
    requires Analysed(ctx, cmds, succ, dom, legal)
    ensures WellFormed(ctx, cmds) && TreeFor(succ, dom, 0) && |legal| == |succ| == |cmds|
  {
    hide WellFormed, TreeFor, Feeds;
  }

  lemma MemberStaged(ctx: Context, cmds: seq<Command>, succ: Graph, dom: Parents, legal: seq<bool>,
                     members: seq<nat>, env: Env, m: nat)
    requires Analysed(ctx, cmds, succ, dom, legal) && IsUnit(succ, dom, legal, members) && m in members
    ensures m < |cmds| && Root(members) < |cmds| && |cmds[Root(members)].outputs| == 1
    ensures StagedAt(ctx, cmds[m], ExecAll(ctx, cmds[..Root(members) + 1], env),
                     ctx.sizeOf(cmds[Root(members)].outputs[0]))
  {
    hide GraphOf, TreeFor, LegalOf, IsUnit, ExecAll;
    MembersLegal(ctx, cmds, succ, dom, legal, members, m);
    MemberSize(ctx, cmds, succ, dom, legal, members, m);
    Settled(ctx, cmds, env, m, Root(members) + 1);
  }

  lemma PrefixWellFormed(ctx: Context, cmds: seq<Command>, j: nat)
    requires WellFormed(ctx, cmds) && j <= |cmds|
    ensures WellFormed(ctx, cmds[..j])
  {
  }

  /** The kernel in the root's place gets the same operands and computes the same output. */
  lemma RootStep(ctx: Context, cmds: seq<Command>, succ: Graph, dom: Parents, legal: seq<bool>,
                 sets: seq<seq<nat>>, fused: seq<Command>, a: nat, env: Env, f: Env)
    requires FusedBy(ctx, cmds, succ, dom, legal, sets, fused) && Sized(ctx, env) && a < |sets|
    requires Agree(cmds, sets, Root(sets[a]), ExecAll(ctx, cmds[..Root(sets[a])], env), f)
    ensures Agree(cmds, sets, Root(sets[a]) + 1, ExecAll(ctx, cmds[..Root(sets[a]) + 1], env),
                  Exec(ctx, fused[Root(sets[a])], f))
    ensures fused[Root(sets[a])].outputs == cmds[Root(sets[a])].outputs
  {
    hide *;
    var i := Root(sets[a]);
    AtRoot(ctx, cmds, succ, dom, legal, sets, fused, a);
    MoreGone(cmds, sets, i);
    var e, after := ExecAll(ctx, cmds[..i], env), ExecAll(ctx, cmds[..i + 1], env);
    RegionStaged(ctx, cmds, succ, dom, legal, sets[a], env);
    var list, out := Select(cmds, SortNodes(sets[a])), cmds[i].outputs[0];
    var k := KernelOf(ctx, list);
    assert cmds[i].outputs == [out];
    forall n | 0 <= n < |k.inputs| ensures Lookup(after, k.inputs[n]) == Lookup(f, k.inputs[n]) {
      var t := k.inputs[n];
      OperandSurvives(ctx, cmds, succ, dom, legal, sets, a, t);
      Untouched(ctx, cmds, env, i, i + 1, t);
      AgreeAt(cmds, sets, i, e, f, t);
    }
    KernelRuns(ctx, list, after, f);
    forall t | !Gone(cmds, sets, i + 1, t) ensures Lookup(after, t) == Lookup(Exec(ctx, k, f), t) {
      if t != out {
        AgreeAt(cmds, sets, i, e, f, t);
        Untouched(ctx, cmds, env, i, i + 1, t);
      }
    }
    AgreeOn(cmds, sets, i + 1, after, Exec(ctx, k, f));
  }

  /** What FusedBy says about one root. */
  lemma AtRoot(ctx: Context, cmds: seq<Command>, succ: Graph, dom: Parents, legal: seq<bool>,
               sets: seq<seq<nat>>, fused: seq<Command>, a: nat)
    requires FusedBy(ctx, cmds, succ, dom, legal, sets, fused) && a < |sets|
    ensures Analysed(ctx, cmds, succ, dom, legal) && WellFormed(ctx, cmds) && TreeFor(succ, dom, 0) && |legal| == |succ|
    ensures AreUnits(succ, dom, legal, sets) && IsUnit(succ, dom, legal, sets[a]) && |fused| == |cmds|
    ensures Root(sets[a]) < |cmds| && RegionReady(cmds, sets[a])
    ensures (forall k :: 0 <= k < |SortNodes(sets[a])| ==> SortNodes(sets[a])[k] < |cmds|)
    ensures Fusable(Select(cmds, SortNodes(sets[a])))
    ensures var list, k := Select(cmds, SortNodes(sets[a])), fused[Root(sets[a])];
            && list != [] && k == KernelOf(ctx, list)
            && k.op.Fused? && k.inputs == AddNodes(ctx, list).inputs && k.outputs == [list[|list| - 1].outputs[0]]
  {
    hide *;
    FusedParts(ctx, cmds, succ, dom, legal, sets, fused);
    UnitAt(succ, dom, legal, sets, a);
    RegionAt(ctx, cmds, sets, fused, a);
    RegionParts(ctx, cmds, sets[a], fused);
  }

  lemma RegionParts(ctx: Context, cmds: seq<Command>, members: seq<nat>, fused: seq<Command>)
    requires RegionReplaced(ctx, cmds, members, fused)
    ensures Root(members) < |cmds| == |fused| && RegionReady(cmds, members)
    ensures (forall k :: 0 <= k < |SortNodes(members)| ==> SortNodes(members)[k] < |cmds|)
    ensures Fusable(Select(cmds, SortNodes(members)))
    ensures var list, k := Select(cmds, SortNodes(members)), fused[Root(members)];
            && list != [] && k == KernelOf(ctx, list)
            && k.op.Fused? && k.inputs == AddNodes(ctx, list).inputs && k.outputs == [list[|list| - 1].outputs[0]]
  {
    hide SortNodes, AddNodes, Root;
  }

  lemma UnitAt(succ: Graph, dom: Parents, legal: seq<bool>, sets: seq<seq<nat>>, a: nat)
    requires TreeFor(succ, dom, 0) && |legal| == |succ| && AreUnits(succ, dom, legal, sets) && a < |sets|
    ensures IsUnit(succ, dom, legal, sets[a])
  {
    hide IsUnit, TreeFor;
  }

  /** The kernel of a staged list gets the same operands from `f`, and puts the result there. */
  lemma KernelRuns(ctx: Context, list: seq<Command>, after: Env, f: Env)
    requires Fusable(list) && list != [] && Ordered(list)
    requires Staged(ctx, list, after, ctx.sizeOf(list[|list| - 1].outputs[0]))
    requires forall n :: 0 <= n < |KernelOf(ctx, list).inputs| ==>
               Lookup(after, KernelOf(ctx, list).inputs[n]) == Lookup(f, KernelOf(ctx, list).inputs[n])
    ensures var out := list[|list| - 1].outputs[0];
            forall t :: Lookup(Exec(ctx, KernelOf(ctx, list), f), t) == Lookup(if t == out then after else f, t)
  {
    hide AddNodes, Staged, Ordered, RunKernel;
    var k, out := KernelOf(ctx, list), list[|list| - 1].outputs[0];
    KernelIsStaged(ctx, list, after);
    assert Arguments(after, k.inputs) == Arguments(f, k.inputs);
    OneOutput(f, out, Lookup(after, out));
  }

  lemma MoreGone(cmds: seq<Command>, sets: seq<seq<nat>>, j: nat)
    requires j < |cmds|
    ensures forall t :: Gone(cmds, sets, j, t) ==> Gone(cmds, sets, j + 1, t)
  {
  }

  lemma AgreeAt(cmds: seq<Command>, sets: seq<seq<nat>>, j: nat, e: Env, f: Env, t: Tensor)
    requires j <= |cmds| && Agree(cmds, sets, j, e, f) && !Gone(cmds, sets, j, t)
    ensures Lookup(e, t) == Lookup(f, t)
  {
  }

  lemma AgreeOn(cmds: seq<Command>, sets: seq<seq<nat>>, j: nat, e: Env, f: Env)
    requires j <= |cmds| && forall t :: !Gone(cmds, sets, j, t) ==> Lookup(e, t) == Lookup(f, t)
    ensures Agree(cmds, sets, j, e, f)
  {
  }

  lemma OneOutput(f: Env, out: Tensor, v: Value)
    ensures Assign(f, [out], [v]) == f[out := v]
  {
    assert [out][1..] == [];
  }

  /** What a kernel loads was written by a command that is still there, before the root. */
  lemma OperandSurvives(ctx: Context, cmds: seq<Command>, succ: Graph, dom: Parents, legal: seq<bool>,
                        sets: seq<seq<nat>>, a: nat, t: Tensor)
    requires Analysed(ctx, cmds, succ, dom, legal) && AreUnits(succ, dom, legal, sets) && a < |sets|
    requires RegionReady(cmds, sets[a]) && Root(sets[a]) < |cmds| && |cmds[Root(sets[a])].outputs| == 1
    requires t in AddNodes(ctx, Select(cmds, SortNodes(sets[a]))).inputs
    ensures !Gone(cmds, sets, Root(sets[a]), t) && t != cmds[Root(sets[a])].outputs[0]
  {
    hide *;
    var order := SortNodes(sets[a]);
    AnalysedParts(ctx, cmds, succ, dom, legal);
    UnitAt(succ, dom, legal, sets, a);
    UnitOrder(succ, dom, legal, sets[a]);
    RegionKernel(ctx, cmds, succ, dom, legal, sets[a], order);
    var list, out := Select(cmds, order), cmds[Root(sets[a])].outputs[0];
    InputsAreExternal(ctx, list, t);
    InOrder(sets[a], order, Root(sets[a]));
    WrittenAt(cmds, order, Root(sets[a]));
    WiderGone(cmds, sets, Root(sets[a]), t);
    if Gone(cmds, sets, |cmds|, t) {
      var i := ReaderOf(list, t);
      assert order[i] in order;
      InOrder(sets[a], order, order[i]);
      ReadsNothingGone(ctx, cmds, succ, dom, legal, sets, order[i], t);
      var b, m: nat :| 0 <= b < |sets| && order[i] in sets[b] && m in sets[b] && m < |cmds| && t in cmds[m].outputs;
      SetsApart(ctx, cmds, succ, dom, legal, sets, a, b, order[i]);
      MembersLegal(ctx, cmds, succ, dom, legal, sets[a], m);
      InOrder(sets[a], order, m);
      WrittenAt(cmds, order, m);
      assert t == cmds[m].outputs[0];
    }
  }

  lemma InOrder(members: seq<nat>, order: seq<nat>, m: nat)
    requires IsOrder(members, order)
    ensures m in order <==> m in members
  {
  }

  lemma WrittenAt(cmds: seq<Command>, order: seq<nat>, m: nat)
    requires (forall k :: 0 <= k < |order| ==> order[k] < |cmds|) && Fusable(Select(cmds, order))
    requires m in order
    ensures m < |cmds| && |cmds[m].outputs| == 1 && WrittenBy(Select(cmds, order), cmds[m].outputs[0])
  {
    var k :| 0 <= k < |order| && order[k] == m;
    assert Select(cmds, order)[k] == cmds[m];
  }

  lemma ReaderOf(list: seq<Command>, t: Tensor) returns (i: nat)
    requires ReadBy(list, t)
    ensures i < |list| && t in list[i].inputs
  {
    i :| 0 <= i < |list| && t in list[i].inputs;
  }

  lemma WiderGone(cmds: seq<Command>, sets: seq<seq<nat>>, j: nat, t: Tensor)
    requires j <= |cmds|
    ensures Gone(cmds, sets, j, t) ==> Gone(cmds, sets, |cmds|, t)
  {
  }

  lemma MemberErased(ctx: Context, cmds: seq<Command>, sets: seq<seq<nat>>, fused: seq<Command>, a: nat, m: nat)
    requires Replaced(ctx, cmds, sets, fused) && a < |sets| && m in sets[a] && m != Root(sets[a])
    ensures m < |cmds| && fused[m].op.Erased?
  {
    hide RegionReady, RegionCommand, Root;
    assert RegionReplaced(ctx, cmds, sets[a], fused);
  }

  lemma StartAgree(ctx: Context, cmds: seq<Command>, sets: seq<seq<nat>>, fused: seq<Command>, env: Env)
    ensures Agree(cmds, sets, 0, ExecAll(ctx, cmds[..0], env), ExecAll(ctx, fused[..0], env))
  {
  }

  lemma ExecNext(ctx: Context, cmds: seq<Command>, env: Env, i: nat)
    requires i < |cmds|
    ensures ExecAll(ctx, cmds[..i + 1], env) == Exec(ctx, cmds[i], ExecAll(ctx, cmds[..i], env))
  {
    hide Exec;
    assert cmds[..i + 1][..i] == cmds[..i];
  }

  lemma FusedParts(ctx: Context, cmds: seq<Command>, succ: Graph, dom: Parents, legal: seq<bool>,
                   sets: seq<seq<nat>>, fused: seq<Command>)
    requires FusedBy(ctx, cmds, succ, dom, legal, sets, fused)
    ensures Analysed(ctx, cmds, succ, dom, legal) && WellFormed(ctx, cmds) && TreeFor(succ, dom, 0) && |legal| == |succ|
    ensures AreUnits(succ, dom, legal, sets) && Replaced(ctx, cmds, sets, fused) && |fused| == |cmds|
  {
    hide AreUnits, TreeFor, WellFormed, RegionCommand, RegionReady;
  }

  /** Up to any point, both lists agree on everything but what is gone. */
  lemma {:induction false} Simulation(ctx: Context, cmds: seq<Command>, succ: Graph, dom: Parents, legal: seq<bool>,
                                      sets: seq<seq<nat>>, fused: seq<Command>, env: Env, j: nat)
    requires FusedBy(ctx, cmds, succ, dom, legal, sets, fused) && Sized(ctx, env) && j <= |cmds|
    ensures Agree(cmds, sets, j, ExecAll(ctx, cmds[..j], env), ExecAll(ctx, fused[..j], env))
  {
    hide *;
    FusedParts(ctx, cmds, succ, dom, legal, sets, fused);
    if j == 0 {
      StartAgree(ctx, cmds, sets, fused, env);
    } else {
      var i := j - 1;
      Simulation(ctx, cmds, succ, dom, legal, sets, fused, env, i);
      ExecNext(ctx, cmds, env, i);
      ExecNext(ctx, fused, env, i);
      var e, f := ExecAll(ctx, cmds[..i], env), ExecAll(ctx, fused[..i], env);
      if a :| 0 <= a < |sets| && i in sets[a] {
        if i == Root(sets[a]) {
          RootStep(ctx, cmds, succ, dom, legal, sets, fused, a, env, f);
        } else {
          MemberErased(ctx, cmds, sets, fused, a, i);
          ErasedStep(ctx, cmds, sets, fused[i], i, a, e, f);
        }
      } else {
        OtherStep(ctx, cmds, succ, dom, legal, sets, fused, i, e, f);
      }
    }
  }

  /** What a surviving command writes is not gone. */
  lemma SurvivorsStay(ctx: Context, cmds: seq<Command>, succ: Graph, dom: Parents, legal: seq<bool>,
                      sets: seq<seq<nat>>, fused: seq<Command>, i: nat, t: Tensor)
    requires FusedBy(ctx, cmds, succ, dom, legal, sets, fused)
    requires i < |cmds| && !fused[i].op.Erased? && t in cmds[i].outputs
    ensures !Gone(cmds, sets, |cmds|, t)
  {
    assert WellFormed(ctx, cmds) && Replaced(ctx, cmds, sets, fused);
    hide WellFormed, Replaced, FusedBy;
    forall a, m: nat | 0 <= a < |sets| && m in sets[a] && m != Root(sets[a]) && m < |cmds|
      ensures t !in cmds[m].outputs
    {
      MemberErased(ctx, cmds, sets, fused, a, m);
      OneWriter(ctx, cmds, i, m, t);
    }
  }

  lemma OneWriter(ctx: Context, cmds: seq<Command>, i: nat, j: nat, t: Tensor)
    requires WellFormed(ctx, cmds) && i < |cmds| && j < |cmds| && i != j && t in cmds[i].outputs
    ensures t !in cmds[j].outputs
  {
  }

  /** Fusion preserves meaning: whatever the tensors hold at first, every command that survives
      leaves its outputs as they would have been. */
  lemma FusionPreservesMeaning(ctx: Context, cmds: seq<Command>, succ: Graph, dom: Parents, legal: seq<bool>,
                               sets: seq<seq<nat>>, fused: seq<Command>, env: Env, i: nat, t: Tensor)
    requires FusedBy(ctx, cmds, succ, dom, legal, sets, fused) && Sized(ctx, env)
    requires i < |cmds| && !fused[i].op.Erased? && t in cmds[i].outputs
    ensures fused[i].outputs == cmds[i].outputs
    ensures Lookup(ExecAll(ctx, Live(fused), env), t) == Lookup(ExecAll(ctx, cmds, env), t)
  {
    SurvivorsStay(ctx, cmds, succ, dom, legal, sets, fused, i, t);
    hide Analysed, AreUnits, Sized, Exec, ExecAll, Gone, Live;
    Simulation(ctx, cmds, succ, dom, legal, sets, fused, env, |cmds|);
    LiveRunsTheSame(ctx, fused, env);
    assert cmds[..|cmds|] == cmds && fused[..|cmds|] == fused;
    if a :| 0 <= a < |sets| && i in sets[a] {
      Simulation(ctx, cmds, succ, dom, legal, sets, fused, env, i);
      RootStep(ctx, cmds, succ, dom, legal, sets, fused, a, env, ExecAll(ctx, fused[..i], env));
    }
  }

  // ---- the pass itself ----

  /** Where the tensors written by the first commands come from. */
  ghost predicate Writers(cmds: seq<Command>, j: nat, writer: map<Tensor, nat>)
    requires j <= |cmds|
  {
    && (forall t :: t in writer ==> writer[t] < j && t in cmds[writer[t]].outputs)
    && (forall i, t :: 0 <= i < j && t in cmds[i].outputs ==> t in writer)
  }

  /** The edges between the first `j` commands. */
  ghost predicate EdgesUpTo(cmds: seq<Command>, j: nat, succ: Graph)
    requires j <= |cmds|
  {
    && |succ| == j
    && (forall i, x: nat :: 0 <= i < j && x in succ[i] ==> x < j)
    && (forall i: nat, x: nat :: i < j && x < j ==> (x in succ[i] <==> Feeds(cmds, i, x)))
  }

  /** The same with the edges from the first `k` operands of command `j`. */
  ghost predicate EdgesAt(cmds: seq<Command>, j: nat, k: nat, succ: Graph)
    requires j < |cmds| && k <= |cmds[j].inputs|
  {
    && |succ| == j + 1
    && (forall i, x: nat :: 0 <= i <= j && x in succ[i] ==> x <= j)
    && (forall i: nat, x: nat :: i <= j && x < j ==> (x in succ[i] <==> (i < j && Feeds(cmds, i, x))))
    && (forall i: nat :: i <= j ==> (j in succ[i] <==> exists q :: 0 <= q < k && cmds[j].inputs[q] in cmds[i].outputs))
  }

  lemma EdgesBegin(ctx: Context, cmds: seq<Command>, j: nat, succ: Graph)
    requires j < |cmds| && EdgesUpTo(cmds, j, succ)
    ensures EdgesAt(cmds, j, 0, succ + [[]])
  {
    hide Feeds;
  }

  /** One more operand: an edge from its writer, if one is known. */
  lemma EdgesMore(ctx: Context, cmds: seq<Command>, j: nat, k: nat, succ: Graph, writer: map<Tensor, nat>)
    requires WellFormed(ctx, cmds) && j < |cmds| && k < |cmds[j].inputs|
    requires EdgesAt(cmds, j, k, succ) && Writers(cmds, j, writer)
    ensures var t := cmds[j].inputs[k];
            EdgesAt(cmds, j, k + 1, if t in writer then succ[writer[t] := succ[writer[t]] + [j]] else succ)
  {
    var t := cmds[j].inputs[k];
    assert t in cmds[j].inputs;
    var next := if t in writer then succ[writer[t] := succ[writer[t]] + [j]] else succ;
    forall i: nat | i <= j
      ensures j in next[i] <==> exists q :: 0 <= q < k + 1 && cmds[j].inputs[q] in cmds[i].outputs
    {
      OnlyWriter(ctx, cmds, j, writer, i, t);
    }
    hide WellFormed, Writers, Feeds;
  }

  lemma OnlyWriter(ctx: Context, cmds: seq<Command>, j: nat, writer: map<Tensor, nat>, i: nat, t: Tensor)
    requires WellFormed(ctx, cmds) && i <= j < |cmds| && t in cmds[j].inputs && Writers(cmds, j, writer)
    ensures t in cmds[i].outputs <==> t in writer && writer[t] == i
  {
    hide Shaped;
  }

  lemma EdgesEnd(ctx: Context, cmds: seq<Command>, j: nat, succ: Graph)
    requires WellFormed(ctx, cmds) && j < |cmds| && EdgesAt(cmds, j, |cmds[j].inputs|, succ)
    ensures EdgesUpTo(cmds, j + 1, succ)
  {
    forall i: nat | i <= j ensures j in succ[i] <==> Feeds(cmds, i, j) {
      if t :| t in cmds[i].outputs && t in cmds[j].inputs {
        var q :| 0 <= q < |cmds[j].inputs| && cmds[j].inputs[q] == t;
      }
    }
    forall x: nat | x <= j ensures !Feeds(cmds, j, x) { NotBack(ctx, cmds, j, x); }
  }

  lemma NotBack(ctx: Context, cmds: seq<Command>, i: nat, x: nat)
    requires WellFormed(ctx, cmds) && x <= i < |cmds|
    ensures !Feeds(cmds, i, x)
  {
  }

  /** `list` holds the nodes from `from` on with parent `p`, once each. */
  ghost predicate NodesWith(dom: Parents, p: Option<nat>, from: nat, list: seq<nat>) {
    Distinct(list) && forall c: nat :: c in list <==> from <= c < |dom| && dom[c] == p
  }

  /** Every node from `from` on is listed under its parent or in the queue. */
  ghost predicate Listed(dom: Parents, domSucc: Graph, queue: seq<nat>, from: nat) {
    && |domSucc| == |dom| && from <= |dom|
    && (forall c :: 0 <= c < from ==> dom[c].None?)
    && (forall p: nat :: p < |dom| ==> NodesWith(dom, Some(p), from, domSucc[p]))
    && NodesWith(dom, None, from, queue)
  }

  /** The tree for the nodes from `from` on: parents, children and the nodes without parents. */
  ghost predicate Tree(succ: Graph, dom: Parents, domSucc: Graph, queue: seq<nat>, from: nat) {
    TreeFor(succ, dom, from) && Listed(dom, domSucc, queue, from)
  }

  lemma NodesWithNext(dom: Parents, p: Option<nat>, i: nat, list: seq<nat>, parent: Option<nat>)
    requires NodesWith(dom, p, i + 1, list) && i < |dom|
    ensures NodesWith(dom[i := parent], p, i, if p == parent then list + [i] else list)
  {
    assert i !in list;
    forall k | 0 <= k < |list| ensures list[k] != i { assert list[k] in list; }
  }

  lemma ListedNext(dom: Parents, domSucc: Graph, queue: seq<nat>, i: nat, parent: Option<nat>)
    requires Listed(dom, domSucc, queue, i + 1) && (parent.Some? ==> i < parent.value < |dom|)
    ensures Listed(dom[i := parent],
                   if parent.Some? then domSucc[parent.value := domSucc[parent.value] + [i]] else domSucc,
                   if parent.Some? then queue else queue + [i], i)
  {
    forall p: nat | p < |dom|
      ensures NodesWith(dom[i := parent], Some(p), i, if Some(p) == parent then domSucc[p] + [i] else domSucc[p])
    {
      NodesWithNext(dom, Some(p), i, domSucc[p], parent);
    }
    NodesWithNext(dom, None, i, queue, parent);
    hide NodesWith;
  }

  lemma TreeNext(succ: Graph, dom: Parents, domSucc: Graph, queue: seq<nat>, i: nat, parent: Option<nat>)
    requires i < |succ| && Tree(succ, dom, domSucc, queue, i + 1)
    requires parent.Some? ==> i < parent.value < |dom|
    requires Chain(dom, parent) == if succ[i] == [] then {} else Meet(succ, i, |succ[i]|)
    ensures Tree(succ, dom[i := parent],
                 if parent.Some? then domSucc[parent.value := domSucc[parent.value] + [i]] else domSucc,
                 if parent.Some? then queue else queue + [i], i)
  {
    hide Listed, PostDoms, Meet;
    ListedNext(dom, domSucc, queue, i, parent);
    TreeStep(succ, dom, i, parent);
  }

  class FusePass {
    var commands: seq<Command>
    var succ: Graph
    var domPred: Parents
    var domSucc: Graph
    var queue: seq<nat>
    var fuseSets: seq<seq<nat>>

    constructor (cmds: seq<Command>)
      ensures commands == cmds
    {
      commands, succ, domPred, domSucc, queue, fuseSets := cmds, [], [], [], [], [];
    }

    /** One node for every command, and an edge from every writer to every reader. */
    method BuildGraph(ghost ctx: Context)
      requires WellFormed(ctx, commands)
      modifies this`succ
      ensures GraphOf(commands, succ)
    {
      hide WellFormed, Writers, EdgesUpTo, EdgesAt, Feeds;
      var writer: map<Tensor, nat> := map[];
      succ := [];
      GraphBegins(commands);
      for j := 0 to |commands|
        invariant EdgesUpTo(commands, j, succ) && Writers(commands, j, writer)
      {
        var cmd := commands[j];
        EdgesBegin(ctx, commands, j, succ);
        succ := succ + [[]];
        for k := 0 to |cmd.inputs|
          invariant EdgesAt(commands, j, k, succ)
        {
          EdgesMore(ctx, commands, j, k, succ, writer);
          if cmd.inputs[k] in writer {
            var pre := writer[cmd.inputs[k]];
            NodeBound(commands, j, k, succ, writer, cmd.inputs[k]);
            succ := succ[pre := succ[pre] + [j]];
          }
        }
        EdgesEnd(ctx, commands, j, succ);
        ghost var before := writer;
        for k := 0 to |cmd.outputs|
          invariant forall t :: t in writer <==> t in before || t in cmd.outputs[..k]
          invariant forall t :: t in writer ==> writer[t] == if t in cmd.outputs[..k] then j else before[t]
        {
          assert cmd.outputs[..k + 1] == cmd.outputs[..k] + [cmd.outputs[k]];
          writer := writer[cmd.outputs[k] := j];
        }
        assert cmd.outputs[..|cmd.outputs|] == cmd.outputs;
        MoreWriters(commands, j, before, writer);
      }
      GraphEnds(commands, succ);
    }

    /** The post-dominator tree, from the last node to the first. */
    method BuildTree()
      requires Forward(succ)
      modifies this`domPred, this`domSucc, this`queue
      ensures Tree(succ, domPred, domSucc, queue, 0)
    {
      hide Tree, Forward, Meet;
      domPred := seq(|succ|, _ => None);
      domSucc := seq(|succ|, _ => []);
      queue := [];
      TreeBegins(succ, domPred, domSucc);
      for i := |succ| downto 0
        invariant |domPred| == |domSucc| == |succ|
        invariant Tree(succ, domPred, domSucc, queue, i)
      {
        TreePart(succ, domPred, domSucc, queue, i + 1);
        var parent: Option<nat> := None;
        if succ[i] != [] { parent := MeetOfSuccessors(succ, domPred, i); }
        TreeNext(succ, domPred, domSucc, queue, i, parent);
        domPred := domPred[i := parent];
        if parent.Some? {
          domSucc := domSucc[parent.value := domSucc[parent.value] + [i]];
        } else {
          queue := queue + [i];
        }
      }
    }

    /** One kernel for every region: in the place of the root, and nothing in the other places. */
    method Codegen(ctx: Context, ghost legal: seq<bool>)
      requires Analysed(ctx, commands, succ, domPred, legal) && AreUnits(succ, domPred, legal, fuseSets)
      modifies this`commands
      ensures Replaced(ctx, old(commands), fuseSets, commands)
    {
      hide *;
      ghost var cmds := commands;
      NothingReplaced(ctx, cmds);
      assert fuseSets[..0] == [];
      for a := 0 to |fuseSets|
        invariant Replaced(ctx, cmds, fuseSets[..a], commands)
      {
        var compSet := fuseSets[a];
        NotReplacedYet(ctx, cmds, succ, domPred, legal, fuseSets, a, commands);
        var kernel := BuildKernel(ctx, commands, compSet);
        ghost var before := commands;
        SetBegins(before, compSet, kernel);
        for i := 0 to |compSet|
          invariant SetDone(before, compSet, i, kernel, commands)
        {
          MemberInRange(before, compSet, i, kernel, commands);
          SetNext(before, compSet, i, kernel, commands);
          if i == |compSet| - 1 {
            commands := commands[compSet[i] := kernel];
          } else {
            commands := commands[compSet[i] := commands[compSet[i]].(op := Erased)];
          }
        }
        SetReplaced(ctx, cmds, succ, domPred, legal, fuseSets, a, before, kernel, commands);
      }
      assert fuseSets[..|fuseSets|] == fuseSets;
    }

    /** Removes the commands without an operator. */
    method Erase()
      modifies this`commands
      ensures commands == Live(old(commands))
    {
      hide Live;
      ghost var cmds := commands;
      ghost var k := 0;
      LiveNone();
      assert cmds[..0] == [] && cmds[0..] == cmds;
      var iter := 0;
      while iter < |commands|
        invariant k <= |cmds| && iter == |Live(cmds[..k])| && commands == Live(cmds[..k]) + cmds[k..]
        decreases |cmds| - k
      {
        LiveNext(cmds, k);
        PassOne(commands, Live(cmds[..k]), cmds, k);
        if commands[iter].op.Erased? {
          commands := commands[..iter] + commands[iter + 1..];
        } else {
          iter := iter + 1;
        }
        k := k + 1;
      }
      assert cmds[..|cmds|] == cmds;
    }

    /** The whole pass. Whatever the tensors hold at first, every command that is left computes what
        the commands computed before; what no command reads is still computed; and every command that can go into
        the kernel of another has gone into that of the farthest one, so that nothing is left over. */
    method Run(ctx: Context) returns (ghost legal: seq<bool>, ghost fused: seq<Command>)
      requires WellFormed(ctx, commands)
      modifies this
      ensures forall env, c, t :: Sized(ctx, env) && c in commands && t in c.outputs ==>
                Lookup(ExecAll(ctx, commands, env), t) == Lookup(ExecAll(ctx, old(commands), env), t)
      ensures forall i, t :: 0 <= i < |old(commands)| && t in old(commands)[i].outputs && !ReadBy(old(commands), t) ==>
                WrittenIn(commands, t)
      ensures Analysed(ctx, old(commands), succ, domPred, legal) && AreUnits(succ, domPred, legal, fuseSets)
      ensures AllFound(succ, domPred, legal, fuseSets, NodesBelow(|succ|))
      ensures GraphOf(old(commands), succ) && |legal| == |old(commands)|
      ensures forall i :: 0 <= i < |legal| ==> legal[i] == old(commands)[i].op.Elementwise?
      ensures FusesAll(succ, legal, fuseSets)
      ensures Replaced(ctx, old(commands), fuseSets, fused) && commands == Live(fused)
    {
      hide *;
      ghost var cmds := commands;
      BuildGraph(ctx);
      EdgesGoForward(ctx, commands, succ);
      BuildTree();
      var answers := seq(|commands|, i requires 0 <= i < |commands| reads this => IsLegal(commands[i]));
      legal := answers;
      AnalysisDone(ctx, commands, succ, domPred, domSucc, queue, legal);
      fuseSets := FindFuseSets(succ, domPred, domSucc, answers, queue);
      Codegen(ctx, legal);
      fused := commands;
      Erase();
      Preserved(ctx, cmds, succ, domPred, legal, fuseSets, fused);
    }
  }

  /** Some command writes `t`. */
  ghost predicate WrittenIn(cmds: seq<Command>, t: Tensor) {
    exists c :: c in cmds && t in c.outputs
  }

  lemma AnalysisDone(ctx: Context, cmds: seq<Command>, succ: Graph, dom: Parents, domSucc: Graph, queue: seq<nat>,
      legal: seq<bool>)
    requires WellFormed(ctx, cmds) && GraphOf(cmds, succ) && Tree(succ, dom, domSucc, queue, 0)
    requires |legal| == |cmds| && forall i :: 0 <= i < |cmds| ==> legal[i] == IsLegal(cmds[i])
    ensures Analysed(ctx, cmds, succ, dom, legal) && Built(succ, dom, domSucc, legal) && Distinct(queue)
    ensures |legal| == |succ| && TreeFor(succ, dom, 0)
    ensures forall r: nat :: r in queue <==> r < |succ| && dom[r].None?
    ensures forall i :: 0 <= i < |legal| ==> legal[i] == cmds[i].op.Elementwise?
  {
    hide WellFormed, Distinct, Feeds, Chain, PostDoms, Forward, Upward;
    assert |domSucc| == |dom| == |succ| && NodesWith(dom, None, 0, queue);
    forall p: nat | p < |dom| ensures NodesWith(dom, Some(p), 0, domSucc[p]) {}
  }

  lemma LiveNone()
    ensures Live([]) == []
  {
  }

  /** One command more has been looked at, and stays or goes. */
  lemma PassOne(all: seq<Command>, done: seq<Command>, cmds: seq<Command>, k: nat)
    requires k <= |cmds| && all == done + cmds[k..] && |done| < |all|
    ensures k < |cmds| && all[|done|] == cmds[k]
    ensures all[..|done|] + all[|done| + 1..] == done + cmds[k + 1..]
    ensures all == (done + [cmds[k]]) + cmds[k + 1..]
  {
    assert cmds[k..] == [cmds[k]] + cmds[k + 1..];
  }

  lemma LiveNext(cmds: seq<Command>, k: nat)
    requires k < |cmds|
    ensures Live(cmds[..k + 1]) == Live(cmds[..k]) + if cmds[k].op.Erased? then [] else [cmds[k]]
  {
    assert cmds[..k + 1][..k] == cmds[..k];
  }

  lemma NothingReplaced(ctx: Context, cmds: seq<Command>)
    ensures Replaced(ctx, cmds, [], cmds)
  {
  }

  /** The region that is next: its commands are still the original ones, and it has a kernel. */
  lemma NotReplacedYet(ctx: Context, cmds: seq<Command>, succ: Graph, dom: Parents, legal: seq<bool>,
                       sets: seq<seq<nat>>, a: nat, now: seq<Command>)
    requires Analysed(ctx, cmds, succ, dom, legal) && AreUnits(succ, dom, legal, sets) && a < |sets|
    requires Replaced(ctx, cmds, sets[..a], now)
    ensures var order := SortNodes(sets[a]);
            && |now| == |cmds| && (forall i :: 0 <= i < |order| ==> order[i] < |cmds|)
            && Select(now, order) == Select(cmds, order)
            && var list := Select(cmds, order);
               Fusable(list) && list != [] && Unused(AddNodes(ctx, list)) == {list[|list| - 1].outputs[0]}
    ensures Distinct(sets[a]) && (forall k :: 0 <= k < |sets[a]| ==> sets[a][k] < |cmds|) && RegionReady(cmds, sets[a])
    ensures RegionCommand(ctx, cmds, sets[a]) == KernelOf(ctx, Select(cmds, SortNodes(sets[a])))
  {
    hide *;
    var order := SortNodes(sets[a]);
    AnalysedParts(ctx, cmds, succ, dom, legal);
    UnitAt(succ, dom, legal, sets, a);
    UnitOrder(succ, dom, legal, sets[a]);
    RegionKernel(ctx, cmds, succ, dom, legal, sets[a], order);
    ReadyOf(ctx, cmds, sets[a]);
    UnitMembers(succ, dom, legal, sets[a]);
    SameLength(ctx, cmds, sets[..a], now);
    forall k | 0 <= k < |order| ensures now[order[k]] == cmds[order[k]] {
      InOrder(sets[a], order, order[k]);
      forall b | 0 <= b < a ensures order[k] !in sets[..a][b] {
        assert sets[..a][b] == sets[b];
        SetsDiffer(ctx, cmds, succ, dom, legal, sets, a, b, order[k]);
      }
      assert InNone(sets[..a], order[k]) by { NoneOf(sets[..a], order[k]); }
      Elsewhere(ctx, cmds, sets[..a], now, order[k]);
    }
  }

  lemma NoneOf(sets: seq<seq<nat>>, i: nat)
    requires forall a :: 0 <= a < |sets| ==> i !in sets[a]
    ensures InNone(sets, i)
  {
  }

  lemma UnitMembers(succ: Graph, dom: Parents, legal: seq<bool>, members: seq<nat>)
    requires TreeFor(succ, dom, 0) && |legal| == |succ| && IsUnit(succ, dom, legal, members)
    ensures members != [] && Distinct(members) && forall k :: 0 <= k < |members| ==> members[k] < |succ|
  {
    hide TreeFor, Unit, Distinct;
    forall k | 0 <= k < |members| ensures members[k] < |succ| { assert members[k] in members; }
  }

  lemma SetsDiffer(ctx: Context, cmds: seq<Command>, succ: Graph, dom: Parents, legal: seq<bool>,
                   sets: seq<seq<nat>>, a: nat, b: nat, m: nat)
    requires Analysed(ctx, cmds, succ, dom, legal) && AreUnits(succ, dom, legal, sets)
    requires a < |sets| && b < |sets| && a != b && m in sets[a]
    ensures m !in sets[b]
  {
    hide *;
    if m in sets[b] { SetsApart(ctx, cmds, succ, dom, legal, sets, a, b, m); }
  }

  lemma SameLength(ctx: Context, cmds: seq<Command>, sets: seq<seq<nat>>, fused: seq<Command>)
    requires Replaced(ctx, cmds, sets, fused)
    ensures |fused| == |cmds|
  {
  }

  lemma Elsewhere(ctx: Context, cmds: seq<Command>, sets: seq<seq<nat>>, fused: seq<Command>, i: nat)
    requires Replaced(ctx, cmds, sets, fused) && i < |cmds| && InNone(sets, i)
    ensures |fused| == |cmds| && fused[i] == cmds[i]
  {
  }

  /** The first `i` members of a set have been dealt with. */
  ghost predicate SetDone(before: seq<Command>, members: seq<nat>, i: nat, kernel: Command, now: seq<Command>) {
    && |now| == |before| && i <= |members| && Distinct(members)
    && (forall k :: 0 <= k < |members| ==> members[k] < |now|)
    && (forall k :: 0 <= k < i ==> if k == |members| - 1 then now[members[k]] == kernel else now[members[k]].op.Erased?)
    && (forall m: nat :: m < |now| && m !in members[..i] ==> now[m] == before[m])
  }

  lemma SetBegins(before: seq<Command>, members: seq<nat>, kernel: Command)
    requires Distinct(members) && forall k :: 0 <= k < |members| ==> members[k] < |before|
    ensures SetDone(before, members, 0, kernel, before)
  {
  }

  lemma MemberInRange(before: seq<Command>, members: seq<nat>, i: nat, kernel: Command, now: seq<Command>)
    requires SetDone(before, members, i, kernel, now) && i < |members|
    ensures members[i] < |now|
  {
  }

  lemma SetNext(before: seq<Command>, members: seq<nat>, i: nat, kernel: Command, now: seq<Command>)
    requires SetDone(before, members, i, kernel, now) && i < |members| && members[i] < |now|
    ensures SetDone(before, members, i + 1, kernel,
                    now[members[i] := if i == |members| - 1 then kernel else now[members[i]].(op := Erased)])
  {
    assert members[..i + 1] == members[..i] + [members[i]];
  }

  /** When a set is done, one more region has been replaced. */
  lemma SetReplaced(ctx: Context, cmds: seq<Command>, succ: Graph, dom: Parents, legal: seq<bool>,
                    sets: seq<seq<nat>>, a: nat, before: seq<Command>, kernel: Command, now: seq<Command>)
    requires Analysed(ctx, cmds, succ, dom, legal) && AreUnits(succ, dom, legal, sets) && a < |sets|
    requires Replaced(ctx, cmds, sets[..a], before) && SetDone(before, sets[a], |sets[a]|, kernel, now)
    requires RegionReady(cmds, sets[a]) && kernel == RegionCommand(ctx, cmds, sets[a])
    ensures Replaced(ctx, cmds, sets[..a + 1], now)
  {
    hide *;
    AnalysedParts(ctx, cmds, succ, dom, legal);
    UnitAt(succ, dom, legal, sets, a);
    UnitMembers(succ, dom, legal, sets[a]);
    SameLength(ctx, cmds, sets[..a], before);
    SetDoneIs(before, sets[a], kernel, now);
    RegionDone(ctx, cmds, sets[a], before, kernel, now);
    forall b | 0 <= b < a ensures RegionReplaced(ctx, cmds, sets[b], now) {
      forall m | m in sets[b] ensures m !in sets[a] { SetsDiffer(ctx, cmds, succ, dom, legal, sets, b, a, m); }
      assert sets[..a][b] == sets[b];
      RegionAt(ctx, cmds, sets[..a], before, b);
      UnitAt(succ, dom, legal, sets, b);
      UnitOrder(succ, dom, legal, sets[b]);
      RegionKept(ctx, cmds, sets[b], before, now);
    }
    forall i: nat | i < |cmds| && InNone(sets[..a + 1], i) ensures now[i] == cmds[i] {
      NoneBefore(sets, a, i);
      Elsewhere(ctx, cmds, sets[..a], before, i);
    }
    AllReplaced(ctx, cmds, sets[..a + 1], now);
  }

  lemma NoneBefore(sets: seq<seq<nat>>, a: nat, i: nat)
    requires a < |sets| && InNone(sets[..a + 1], i)
    ensures InNone(sets[..a], i) && i !in sets[a]
  {
    assert sets[..a + 1][a] == sets[a];
    assert forall b :: 0 <= b < a ==> sets[..a][b] == sets[..a + 1][b];
  }

  lemma AllReplaced(ctx: Context, cmds: seq<Command>, sets: seq<seq<nat>>, fused: seq<Command>)
    requires |fused| == |cmds| && forall a :: 0 <= a < |sets| ==> RegionReplaced(ctx, cmds, sets[a], fused)
    requires forall i: nat :: i < |cmds| && InNone(sets, i) ==> fused[i] == cmds[i]
    ensures Replaced(ctx, cmds, sets, fused)
  {
    hide RegionReplaced;
  }

  lemma RegionAt(ctx: Context, cmds: seq<Command>, sets: seq<seq<nat>>, fused: seq<Command>, a: nat)
    requires Replaced(ctx, cmds, sets, fused) && a < |sets|
    ensures RegionReplaced(ctx, cmds, sets[a], fused)
  {
    hide RegionReplaced;
  }

  lemma SetDoneIs(before: seq<Command>, members: seq<nat>, kernel: Command, now: seq<Command>)
    requires SetDone(before, members, |members|, kernel, now)
    ensures |now| == |before| && forall m: nat :: m < |now| && m !in members ==> now[m] == before[m]
  {
    assert members[..|members|] == members;
  }

  lemma RegionDone(ctx: Context, cmds: seq<Command>, members: seq<nat>, before: seq<Command>, kernel: Command,
      now: seq<Command>)
    requires SetDone(before, members, |members|, kernel, now) && |before| == |cmds| && members != []
    requires RegionReady(cmds, members) && kernel == RegionCommand(ctx, cmds, members)
    ensures RegionReplaced(ctx, cmds, members, now)
  {
    hide RegionReady, RegionCommand;
  }

  lemma RegionKept(ctx: Context, cmds: seq<Command>, members: seq<nat>, before: seq<Command>, now: seq<Command>)
    requires RegionReplaced(ctx, cmds, members, before) && |now| == |cmds| && Root(members) in members
    requires forall m :: m in members && m < |now| ==> now[m] == before[m]
    ensures RegionReplaced(ctx, cmds, members, now)
  {
    hide RegionReady, RegionCommand, Root;
  }

  lemma Preserved(ctx: Context, cmds: seq<Command>, succ: Graph, dom: Parents, legal: seq<bool>,
                  sets: seq<seq<nat>>, fused: seq<Command>)
    requires Analysed(ctx, cmds, succ, dom, legal) && |legal| == |succ| && TreeFor(succ, dom, 0)
    requires AreUnits(succ, dom, legal, sets) && Replaced(ctx, cmds, sets, fused)
    ensures forall env, c, t :: Sized(ctx, env) && c in Live(fused) && t in c.outputs ==>
              Lookup(ExecAll(ctx, Live(fused), env), t) == Lookup(ExecAll(ctx, cmds, env), t)
    ensures forall i, t :: 0 <= i < |cmds| && t in cmds[i].outputs && !ReadBy(cmds, t) ==> WrittenIn(Live(fused), t)
  {
    assert FusedBy(ctx, cmds, succ, dom, legal, sets, fused);
    hide *;
    SameLength(ctx, cmds, sets, fused);
    forall env, c, t | Sized(ctx, env) && c in Live(fused) && t in c.outputs
      ensures Lookup(ExecAll(ctx, Live(fused), env), t) == Lookup(ExecAll(ctx, cmds, env), t)
    {
      var i := LiveFrom(fused, c);
      KeepsOutputs(ctx, cmds, succ, dom, legal, sets, fused, i);
      FusionPreservesMeaning(ctx, cmds, succ, dom, legal, sets, fused, env, i, t);
    }
    forall i: nat, t | i < |cmds| && t in cmds[i].outputs && !ReadBy(cmds, t) ensures WrittenIn(Live(fused), t) {
      UnreadStays(ctx, cmds, succ, dom, legal, sets, fused, i, t);
    }
  }

  lemma {:induction false} LiveFrom(cmds: seq<Command>, c: Command) returns (i: nat)
    requires c in Live(cmds)
    ensures i < |cmds| && cmds[i] == c && !c.op.Erased?
  {
    var n := |cmds| - 1;
    if c in Live(cmds[..n]) { i := LiveFrom(cmds[..n], c); } else { i := n; }
  }

  lemma {:induction false} LiveHas(cmds: seq<Command>, i: nat)
    requires i < |cmds| && !cmds[i].op.Erased?
    ensures cmds[i] in Live(cmds)
  {
    if i < |cmds| - 1 { LiveHas(cmds[..|cmds| - 1], i); }
  }

  lemma GraphBegins(cmds: seq<Command>)
    ensures EdgesUpTo(cmds, 0, []) && Writers(cmds, 0, map[])
  {
  }

  lemma GraphEnds(cmds: seq<Command>, succ: Graph)
    requires EdgesUpTo(cmds, |cmds|, succ)
    ensures GraphOf(cmds, succ)
  {
    hide Feeds;
  }

  lemma NodeBound(cmds: seq<Command>, j: nat, k: nat, succ: Graph, writer: map<Tensor, nat>, t: Tensor)
    requires j < |cmds| && k <= |cmds[j].inputs| && EdgesAt(cmds, j, k, succ) && Writers(cmds, j, writer) && t in writer
    ensures writer[t] < |succ|
  {
    hide Feeds;
  }

  lemma MoreWriters(cmds: seq<Command>, j: nat, before: map<Tensor, nat>, writer: map<Tensor, nat>)
    requires j < |cmds| && Writers(cmds, j, before)
    requires forall t :: t in writer <==> t in before || t in cmds[j].outputs
    requires forall t :: t in writer ==> writer[t] == if t in cmds[j].outputs then j else before[t]
    ensures Writers(cmds, j + 1, writer)
  {
  }

  lemma TreeBegins(succ: Graph, dom: Parents, domSucc: Graph)
    requires Forward(succ) && |dom| == |domSucc| == |succ|
    requires forall i :: 0 <= i < |succ| ==> dom[i] == None && domSucc[i] == []
    ensures Tree(succ, dom, domSucc, [], |succ|)
  {
  }

  lemma TreePart(succ: Graph, dom: Parents, domSucc: Graph, queue: seq<nat>, from: nat)
    requires Tree(succ, dom, domSucc, queue, from)
    ensures TreeFor(succ, dom, from) && Forward(succ) && Upward(dom) && Chain(dom, None) == {}
  {
    hide Listed, PostDoms;
  }

  /** A command whose output nobody reads is the root of its region or in none. */
  lemma UnreadStays(ctx: Context, cmds: seq<Command>, succ: Graph, dom: Parents, legal: seq<bool>,
                    sets: seq<seq<nat>>, fused: seq<Command>, i: nat, t: Tensor)
    requires FusedBy(ctx, cmds, succ, dom, legal, sets, fused)
    requires i < |cmds| && t in cmds[i].outputs && !ReadBy(cmds, t)
    ensures WrittenIn(Live(fused), t)
  {
    hide *;
    FusedParts(ctx, cmds, succ, dom, legal, sets, fused);
    if a :| 0 <= a < |sets| && i in sets[a] {
      UnitAt(succ, dom, legal, sets, a);
      NotRead(ctx, cmds, succ, dom, legal, sets[a], i, t);
      AtRoot(ctx, cmds, succ, dom, legal, sets, fused, a);
      RootOutputs(ctx, cmds, succ, dom, legal, sets, fused, a);
    } else {
      NoneOf(sets, i);
      Elsewhere(ctx, cmds, sets, fused, i);
      NotErased(ctx, cmds, i);
    }
    LiveHas(fused, i);
    WrittenBySome(Live(fused), fused[i], t);
  }

  /** A command that is still there writes what it wrote before. */
  lemma KeepsOutputs(ctx: Context, cmds: seq<Command>, succ: Graph, dom: Parents, legal: seq<bool>,
                     sets: seq<seq<nat>>, fused: seq<Command>, i: nat)
    requires FusedBy(ctx, cmds, succ, dom, legal, sets, fused) && i < |cmds|
    ensures |fused| == |cmds| && (!fused[i].op.Erased? ==> fused[i].outputs == cmds[i].outputs)
  {
    hide *;
    FusedParts(ctx, cmds, succ, dom, legal, sets, fused);
    if a :| 0 <= a < |sets| && i in sets[a] {
      if i == Root(sets[a]) {
        RootOutputs(ctx, cmds, succ, dom, legal, sets, fused, a);
      } else {
        MemberErased(ctx, cmds, sets, fused, a, i);
      }
    } else {
      NoneOf(sets, i);
      Elsewhere(ctx, cmds, sets, fused, i);
    }
  }

  lemma WrittenBySome(cmds: seq<Command>, c: Command, t: Tensor)
    requires c in cmds && t in c.outputs
    ensures WrittenIn(cmds, t)
  {
  }

  lemma NotErased(ctx: Context, cmds: seq<Command>, i: nat)
    requires WellFormed(ctx, cmds) && i < |cmds|
    ensures !cmds[i].op.Erased?
  {
    assert Shaped(ctx, cmds[i]);
  }

  lemma NotRead(ctx: Context, cmds: seq<Command>, succ: Graph, dom: Parents, legal: seq<bool>,
                members: seq<nat>, i: nat, t: Tensor)
    requires Analysed(ctx, cmds, succ, dom, legal) && IsUnit(succ, dom, legal, members)
    requires i in members && i < |cmds| && t in cmds[i].outputs && !ReadBy(cmds, t)
    ensures i == Root(members)
  {
    if i != Root(members) {
      MembersLegal(ctx, cmds, succ, dom, legal, members, i);
      MembersFeed(ctx, cmds, succ, dom, legal, members, i, i);
    }
  }

  lemma RootOutputs(ctx: Context, cmds: seq<Command>, succ: Graph, dom: Parents, legal: seq<bool>,
                    sets: seq<seq<nat>>, fused: seq<Command>, a: nat)
    requires FusedBy(ctx, cmds, succ, dom, legal, sets, fused) && a < |sets|
    ensures Root(sets[a]) < |cmds| && |fused| == |cmds| && fused[Root(sets[a])].op.Fused?
    ensures fused[Root(sets[a])].outputs == cmds[Root(sets[a])].outputs
  {
    hide *;
    AtRoot(ctx, cmds, succ, dom, legal, sets, fused, a);
    UnitOrder(succ, dom, legal, sets[a]);
    RegionKernel(ctx, cmds, succ, dom, legal, sets[a], SortNodes(sets[a]));
    MembersLegal(ctx, cmds, succ, dom, legal, sets[a], Root(sets[a]));
  }
}
