/**
 * rewriteTMABufferUpdates: each descriptor op gets its own counter, stepped
 * modulo the number of stages where the descriptor is written. When the op
 * sits inside nested `scf.if`s, every enclosing if is given one more result
 * that yields the stepped counter on the side holding the op and the old
 * counter on the other side, up to the loop body, where the outermost value
 * is yielded. Any other enclosing op, or a descriptor that `createTMADesc`
 * cannot write, makes the rewrite fail.
 */
module DescCounter {
  import opened Wrappers
  import opened RingCounters
  import opened CarriedState

  datatype NodeKind = ForNode | IfNode | OtherNode

  /** An op of the loop nest: its kind, its parent op, and whether it sits in the then-region of that parent. */
  datatype Node = Node(kind: NodeKind, parent: Option<nat>, inThen: bool)

  /** Parents are numbered before their children. */
  predicate WellNested(nodes: seq<Node>) {
    forall i :: 0 <= i < |nodes| && nodes[i].parent.Some? ==> nodes[i].parent.value < i
  }

  /** `forOp` is a proper ancestor of `c`. */
  predicate Below(nodes: seq<Node>, c: nat, forOp: nat)
    requires WellNested(nodes) && c < |nodes|
    decreases c
  {
    nodes[c].parent.Some? && (nodes[c].parent.value == forOp || Below(nodes, nodes[c].parent.value, forOp))
  }

  /** The counter value a yield operand denotes: the block argument, the stepped counter, or a result of a rebuilt if. */
  datatype CVal = Old | Next | IfResult(ifOp: nat)

  /** The new result of an if: what its then- and else-region yield for it. */
  datatype IfPatch = IfPatch(ifOp: nat, thenYield: CVal, elseYield: CVal)

  /**
   * The walk from `cur` up to the loop body, starting with the value `next`
   * that `cur`'s region yields: the patches, innermost first, and the value
   * the loop yields; or the first enclosing op that is not an if.
   */
  function Walk(nodes: seq<Node>, forOp: nat, cur: nat, next: CVal): Result<(seq<IfPatch>, CVal), nat>
    requires WellNested(nodes) && cur < |nodes| && Below(nodes, cur, forOp)
    decreases cur
  {
    var p := nodes[cur].parent.value;
    if p == forOp then Success(([], next))
    else if nodes[p].kind != IfNode then Failure(p)
    else
      var patch := if nodes[cur].inThen then IfPatch(p, next, Old) else IfPatch(p, Old, next);
      Prepend([patch], Walk(nodes, forOp, p, IfResult(p)))
  }

  function Prepend(ps: seq<IfPatch>, r: Result<(seq<IfPatch>, CVal), nat>): Result<(seq<IfPatch>, CVal), nat> {
    match r
    case Failure(e) => Failure(e)
    case Success((qs, v)) => Success((ps + qs, v))
  }

  /** Every op strictly between `c` and the loop body is an if. */
  predicate OnlyIfsAbove(nodes: seq<Node>, c: nat, forOp: nat)
    requires WellNested(nodes) && c < |nodes| && Below(nodes, c, forOp)
    decreases c
  {
    var p := nodes[c].parent.value;
    p == forOp || (nodes[p].kind == IfNode && OnlyIfsAbove(nodes, p, forOp))
  }

  /** `a` is a proper ancestor of `c` strictly inside the loop body, and everything between them is an if. */
  predicate IfChainTo(nodes: seq<Node>, c: nat, forOp: nat, a: nat)
    requires WellNested(nodes) && c < |nodes| && Below(nodes, c, forOp)
    decreases c
  {
    var p := nodes[c].parent.value;
    p != forOp && (p == a || (nodes[p].kind == IfNode && IfChainTo(nodes, p, forOp, a)))
  }

  /** With `taken[i]` the branch if `i` takes, op `c` runs in this iteration. */
  predicate Executes(nodes: seq<Node>, c: nat, forOp: nat, taken: seq<bool>)
    requires WellNested(nodes) && c < |nodes| && Below(nodes, c, forOp) && |taken| == |nodes|
    decreases c
  {
    var p := nodes[c].parent.value;
    p == forOp || (taken[p] == nodes[c].inThen && Executes(nodes, p, forOp, taken))
  }

  /** Whether `v` is the stepped counter when each if `i` takes branch `taken[i]`; patches are looked up from the outermost. */
  function IsStepped(v: CVal, patches: seq<IfPatch>, taken: seq<bool>): bool
    decreases |patches|
  {
    match v
    case Old => false
    case Next => true
    case IfResult(i) =>
      if patches == [] then false
      else
        var last := patches[|patches| - 1];
        if last.ifOp == i && i < |taken| then
          IsStepped(if taken[i] then last.thenYield else last.elseYield, patches[..|patches| - 1], taken)
        else IsStepped(v, patches[..|patches| - 1], taken)
  }

  /** The walk fails exactly when a non-if op encloses the descriptor op inside the loop, and it names the innermost one. */
  lemma {:induction false} WalkFailsOnNonIf(nodes: seq<Node>, forOp: nat, cur: nat, next: CVal)
    requires WellNested(nodes) && cur < |nodes| && Below(nodes, cur, forOp)
    ensures Walk(nodes, forOp, cur, next).Success? <==> OnlyIfsAbove(nodes, cur, forOp)
    ensures Walk(nodes, forOp, cur, next).Failure? ==>
      var a := Walk(nodes, forOp, cur, next).error;
      a < |nodes| && nodes[a].kind != IfNode && IfChainTo(nodes, cur, forOp, a)
    decreases cur
  {
    var p := nodes[cur].parent.value;
    if p != forOp && nodes[p].kind == IfNode {
      WalkFailsOnNonIf(nodes, forOp, p, IfResult(p));
    }
  }

  /**
   * The meaning of a successful walk: evaluated after the patches already in
   * place, the value the loop finally yields is the stepped counter exactly
   * when the value `next` yielded at `cur` is, and `cur` runs in this iteration.
   */
  lemma {:induction false} WalkMeaning(nodes: seq<Node>, forOp: nat, cur: nat, next: CVal,
                                       pre: seq<IfPatch>, taken: seq<bool>)
    requires WellNested(nodes) && cur < |nodes| && Below(nodes, cur, forOp) && |taken| == |nodes|
    requires Walk(nodes, forOp, cur, next).Success?
    ensures var (ps, v) := Walk(nodes, forOp, cur, next).value;
      IsStepped(v, pre + ps, taken) == (IsStepped(next, pre, taken) && Executes(nodes, cur, forOp, taken))
    decreases cur
  {
    var p := nodes[cur].parent.value;
    if p == forOp {
      assert pre + [] == pre;
    } else {
      var patch := if nodes[cur].inThen then IfPatch(p, next, Old) else IfPatch(p, Old, next);
      WalkMeaning(nodes, forOp, p, IfResult(p), pre + [patch], taken);
      var (qs, v) := Walk(nodes, forOp, p, IfResult(p)).value;
      assert Walk(nodes, forOp, cur, next).value == ([patch] + qs, v);
      assert pre + ([patch] + qs) == (pre + [patch]) + qs;
      assert (pre + [patch])[..|pre + [patch]| - 1] == pre;
      assert IsStepped(IfResult(p), pre + [patch], taken) == (taken[p] == nodes[cur].inThen && IsStepped(next, pre, taken));
    }
  }

  /**
   * For one descriptor op: the counter the loop yields is the stepped counter
   * exactly in the iterations where the op runs, and the old counter otherwise.
   */
  lemma CounterSteppedIffExecuted(nodes: seq<Node>, forOp: nat, op: nat, taken: seq<bool>)
    requires WellNested(nodes) && op < |nodes| && Below(nodes, op, forOp) && |taken| == |nodes|
    requires Walk(nodes, forOp, op, Next).Success?
    ensures var (ps, v) := Walk(nodes, forOp, op, Next).value;
      IsStepped(v, ps, taken) <==> Executes(nodes, op, forOp, taken)
  {
    WalkMeaning(nodes, forOp, op, Next, [], taken);
    assert [] + Walk(nodes, forOp, op, Next).value.0 == Walk(nodes, forOp, op, Next).value.0;
  }

  /** The while loop that climbs from the descriptor op to the loop body. */
  method PropagateCounter(nodes: seq<Node>, forOp: nat, op: nat) returns (res: Result<(seq<IfPatch>, CVal), nat>)
    requires WellNested(nodes) && op < |nodes| && Below(nodes, op, forOp)
    ensures res == Walk(nodes, forOp, op, Next)
  {
    var nextCounter := Next;
    var patches: seq<IfPatch> := [];
    var curOp: nat := op;
    var parent: nat := nodes[op].parent.value;
    assert Prepend(patches, Walk(nodes, forOp, op, Next)) == Walk(nodes, forOp, op, Next) by {
      var w := Walk(nodes, forOp, op, Next);
      if w.Success? {
        assert patches + w.value.0 == w.value.0;
      }
    }
    while parent != forOp
      invariant curOp < |nodes| && Below(nodes, curOp, forOp) && parent == nodes[curOp].parent.value
      invariant Walk(nodes, forOp, op, Next) == Prepend(patches, Walk(nodes, forOp, curOp, nextCounter))
      decreases curOp
    {
      if nodes[parent].kind != IfNode {
        return Failure(parent);
      }
      var patch := if nodes[curOp].inThen then IfPatch(parent, nextCounter, Old)
                   else IfPatch(parent, Old, nextCounter);
      ghost var w := Walk(nodes, forOp, parent, IfResult(parent));
      assert w.Success? ==> patches + ([patch] + w.value.0) == (patches + [patch]) + w.value.0;
      patches := patches + [patch];
      nextCounter := IfResult(parent);
      curOp := parent;
      parent := nodes[parent].parent.value;
    }
    assert patches + [] == patches;
    return Success((patches, nextCounter));
  }

  /**
   * Why the rewrite stopped: `createTMADesc` failed to write the descriptor
   * of the op, or the op's climb met an enclosing op that is not an if.
   */
  datatype RewriteError = DescFailed(op: nat) | NotInIf(parent: nat)

  /** What the rewrite does with descriptor op `op`, given whether `createTMADesc` succeeds for it: write it first, then climb. */
  function OpOutcome(nodes: seq<Node>, forOp: nat, op: nat, descOk: bool): Result<(seq<IfPatch>, CVal), RewriteError>
    requires WellNested(nodes) && op < |nodes| && Below(nodes, op, forOp)
  {
    if !descOk then Failure(DescFailed(op))
    else match Walk(nodes, forOp, op, Next)
      case Failure(p) => Failure(NotInIf(p))
      case Success(v) => Success(v)
  }

  /** Every descriptor op is inside the loop. */
  predicate DescOpsInLoop(nodes: seq<Node>, forOp: nat, descOps: seq<nat>) {
    WellNested(nodes) && forall k :: 0 <= k < |descOps| ==> descOps[k] < |nodes| && Below(nodes, descOps[k], forOp)
  }

  /**
   * The loop over the descriptor ops. `descOk[k]` says whether
   * `createTMADesc` succeeds in writing the descriptor of op `k`; its body is
   * not part of this model. On success every descriptor was written, each
   * op's walk result is returned in order and its yield slot holds its
   * updated counter. On failure the rewrite stops at the first op whose
   * descriptor cannot be written or whose climb fails, the slots of the ops
   * before it already patched.
   */
  method RewriteTMABufferUpdates(loop: ForLoop, nodes: seq<Node>, forOp: nat, descOps: seq<nat>, descOk: seq<bool>,
                                 tmaCounterArgsStartIdx: nat)
    returns (res: Result<seq<(seq<IfPatch>, CVal)>, RewriteError>)
    requires DescOpsInLoop(nodes, forOp, descOps) && |descOk| == |descOps|
    requires loop.Valid() && tmaCounterArgsStartIdx >= 1
    requires |loop.yieldOperands| == tmaCounterArgsStartIdx - 1 + |descOps|
    modifies loop
    ensures loop.initArgs == old(loop.initArgs) && loop.Valid()
    ensures res.Success? ==>
      && |res.value| == |descOps|
      && (forall k :: 0 <= k < |descOps| ==> OpOutcome(nodes, forOp, descOps[k], descOk[k]) == Success(res.value[k]))
      && loop.yieldOperands ==
           old(loop.yieldOperands)[..tmaCounterArgsStartIdx - 1] + UpdatedVals(DescSlots(|descOps|))
    ensures res.Failure? ==>
      exists k :: 0 <= k < |descOps| && OpOutcome(nodes, forOp, descOps[k], descOk[k]) == Failure(res.error)
        && (forall j :: 0 <= j < k ==> OpOutcome(nodes, forOp, descOps[j], descOk[j]).Success?)
        && loop.yieldOperands ==
             old(loop.yieldOperands)[..tmaCounterArgsStartIdx - 1] + UpdatedVals(DescSlots(k))
             + old(loop.yieldOperands)[tmaCounterArgsStartIdx - 1 + k..]
  {
    var base := tmaCounterArgsStartIdx - 1;
    ghost var y0 := loop.yieldOperands;
    var done: seq<(seq<IfPatch>, CVal)> := [];
    for iOp := 0 to |descOps|
      invariant loop.initArgs == old(loop.initArgs) && loop.Valid()
      invariant |done| == iOp
      invariant forall k :: 0 <= k < iOp ==> OpOutcome(nodes, forOp, descOps[k], descOk[k]) == Success(done[k])
      invariant DescPatched(loop.yieldOperands, y0, base, iOp)
    {
      if !descOk[iOp] {
        DescPatchedForm(loop.yieldOperands, y0, base, iOp);
        return Failure(DescFailed(descOps[iOp]));
      }
      var r := PropagateCounter(nodes, forOp, descOps[iOp]);
      if r.Failure? {
        DescPatchedForm(loop.yieldOperands, y0, base, iOp);
        return Failure(NotInIf(r.error));
      }
      loop.yieldOperands := loop.yieldOperands[base + iOp := Updated(DescIdx(iOp))];
      done := done + [r.value];
    }
    DescPatchedForm(loop.yieldOperands, y0, base, |descOps|);
    return Success(done);
  }

  /** The yield operands `y` are `y0` with the `i` descriptor slots from `base` on holding their updated counters. */
  predicate DescPatched(y: seq<Val>, y0: seq<Val>, base: nat, i: nat) {
    && |y| == |y0|
    && forall j :: 0 <= j < |y| ==> y[j] == if base <= j < base + i then Updated(DescIdx(j - base)) else y0[j]
  }

  /** The patched operands as the unchanged prefix, the updated descriptor counters and the untouched rest. */
  lemma DescPatchedForm(y: seq<Val>, y0: seq<Val>, base: nat, i: nat)
    requires DescPatched(y, y0, base, i) && base + i <= |y0|
    ensures y == y0[..base] + UpdatedVals(DescSlots(i)) + y0[base + i..]
  {
    var z := y0[..base] + UpdatedVals(DescSlots(i)) + y0[base + i..];
    assert |z| == |y|;
    forall j | 0 <= j < |y|
      ensures y[j] == z[j]
    {
      if j < base {
        assert z[j] == y0[j];
      } else if j < base + i {
        assert z[j] == UpdatedVals(DescSlots(i))[j - base];
      } else {
        assert z[j] == y0[base + i..][j - base - i];
      }
    }
  }

  lemma UpdatedValsAppend(a: seq<Slot>, b: seq<Slot>)
    ensures UpdatedVals(a + b) == UpdatedVals(a) + UpdatedVals(b)
  {
    assert |UpdatedVals(a + b)| == |UpdatedVals(a) + UpdatedVals(b)|;
    forall k | 0 <= k < |a + b|
      ensures UpdatedVals(a + b)[k] == (UpdatedVals(a) + UpdatedVals(b))[k]
    {
    }
  }

  /** Each descriptor op is rewritten exactly when its descriptor can be written and only ifs enclose it inside the loop. */
  lemma WalksSucceedOnIfs(nodes: seq<Node>, forOp: nat, descOps: seq<nat>, descOk: seq<bool>)
    requires DescOpsInLoop(nodes, forOp, descOps) && |descOk| == |descOps|
    ensures forall k :: 0 <= k < |descOps| ==>
      (OpOutcome(nodes, forOp, descOps[k], descOk[k]).Success? <==> descOk[k] && OnlyIfsAbove(nodes, descOps[k], forOp))
  {
    forall k | 0 <= k < |descOps|
      ensures OpOutcome(nodes, forOp, descOps[k], descOk[k]).Success? <==> descOk[k] && OnlyIfsAbove(nodes, descOps[k], forOp)
    {
      WalkFailsOnNonIf(nodes, forOp, descOps[k], Next);
    }
  }

  /**
   * The loop-carried part of createAsyncOps end to end: once the slots are
   * appended and both the groups' and the descriptors' yield operands are
   * patched, every appended argument starts at its initial value and is
   * yielded its updated value; the rewrite succeeds exactly when every
   * descriptor can be written and every descriptor op is enclosed only by
   * ifs inside the loop.
   */
  method RewriteLoopCounters(loop: ForLoop, stageGroups: seq<StageGroup>, nodes: seq<Node>, forOp: nat,
                             descOps: seq<nat>, descOk: seq<bool>)
    returns (res: Result<seq<(seq<IfPatch>, CVal)>, RewriteError>)
    requires loop.Valid() && DescOpsInLoop(nodes, forOp, descOps) && |descOk| == |descOps|
    modifies loop
    ensures loop.initArgs == old(loop.initArgs) + InitVals(Slots(stageGroups, |descOps|))
    ensures res.Success? <==> forall k :: 0 <= k < |descOps| ==> descOk[k] && OnlyIfsAbove(nodes, descOps[k], forOp)
    ensures res.Success? ==>
      loop.yieldOperands == old(loop.yieldOperands) + UpdatedVals(Slots(stageGroups, |descOps|))
  {
    ghost var y0 := loop.yieldOperands;
    var tmaCounterArgsStartIdx := CreateCarriedState(loop, stageGroups, |descOps|);
    ghost var y1 := loop.yieldOperands;
    res := RewriteTMABufferUpdates(loop, nodes, forOp, descOps, descOk, tmaCounterArgsStartIdx);
    RewriteOutcome(nodes, forOp, descOps, descOk, res);
    if res.Success? {
      CountersYield(y0, y1, loop.yieldOperands, stageGroups, |descOps|, tmaCounterArgsStartIdx - 1);
    }
  }

  /** Splicing the descriptor updates over the initial values of the appended arguments. */
  lemma CountersYield(y0: seq<Val>, y1: seq<Val>, y: seq<Val>, stageGroups: seq<StageGroup>, n: nat, base: nat)
    requires y1 == y0 + UpdatedVals(GroupSlots(stageGroups)) + InitVals(DescSlots(n))
    requires base == |y0| + |GroupSlots(stageGroups)|
    requires y == y1[..base] + UpdatedVals(DescSlots(n))
    ensures y == y0 + UpdatedVals(Slots(stageGroups, n))
  {
    var groupVals, descVals := UpdatedVals(GroupSlots(stageGroups)), UpdatedVals(DescSlots(n));
    assert y1[..base] == y0 + groupVals;
    assert UpdatedVals(Slots(stageGroups, n)) == groupVals + descVals by {
      UpdatedValsAppend(GroupSlots(stageGroups), DescSlots(n));
    }
    assert (y0 + groupVals) + descVals == y0 + (groupVals + descVals);
  }

  /** The rewrite of all descriptor ops succeeds exactly when every descriptor can be written and each op is enclosed only by ifs. */
  lemma RewriteOutcome(nodes: seq<Node>, forOp: nat, descOps: seq<nat>, descOk: seq<bool>,
                       res: Result<seq<(seq<IfPatch>, CVal)>, RewriteError>)
    requires DescOpsInLoop(nodes, forOp, descOps) && |descOk| == |descOps|
    requires res.Success? ==>
      |res.value| == |descOps| &&
      forall k :: 0 <= k < |descOps| ==> OpOutcome(nodes, forOp, descOps[k], descOk[k]) == Success(res.value[k])
    requires res.Failure? ==>
      exists k :: 0 <= k < |descOps| && OpOutcome(nodes, forOp, descOps[k], descOk[k]) == Failure(res.error)
    ensures res.Success? <==> forall k :: 0 <= k < |descOps| ==> descOk[k] && OnlyIfsAbove(nodes, descOps[k], forOp)
  {
    WalksSucceedOnIfs(nodes, forOp, descOps, descOk);
    if res.Failure? {
      var k :| 0 <= k < |descOps| && OpOutcome(nodes, forOp, descOps[k], descOk[k]) == Failure(res.error);
      assert !(descOk[k] && OnlyIfsAbove(nodes, descOps[k], forOp));
    }
  }

  /** The counter after the iterations `execs`, stepping only in the iterations where the descriptor op runs. */
  function CounterAfter(numStages: int, execs: seq<bool>): int
    decreases |execs|
  {
    if execs == [] then 0
    else
      var c := CounterAfter(numStages, execs[..|execs| - 1]);
      if execs[|execs| - 1] then IncrementModulo(c, numStages) else c
  }

  function CountTrue(execs: seq<bool>): nat
    decreases |execs|
  {
    if execs == [] then 0 else CountTrue(execs[..|execs| - 1]) + (if execs[|execs| - 1] then 1 else 0)
  }

  /**
   * However the ifs branch, the counter is the number of executions of the
   * descriptor op so far modulo the number of stages, so the descriptor it
   * writes stays inside its buffer of `numStages` descriptors.
   */
  lemma {:induction false} CounterCountsExecutions(numStages: int, descSize: nat, execs: seq<bool>)
    requires numStages >= 1
    ensures CounterAfter(numStages, execs) == CountTrue(execs) % numStages
    ensures descSize * CounterAfter(numStages, execs) + descSize <= numStages * descSize
    decreases |execs|
  {
    if execs != [] {
      var pre := execs[..|execs| - 1];
      CounterCountsExecutions(numStages, descSize, pre);
      DivModStep(CountTrue(pre), numStages);
    }
    SlotInside(CounterAfter(numStages, execs), numStages, descSize);
  }
}
