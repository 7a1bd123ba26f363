/**
 * Waits for asynchronous MMAv3 dots (`warp_group_dot`): rule 3a of
 * `dotCanBeProperlyAsync`, the waits `insertAsyncWarpGroupDotWaitInLoop` adds
 * to the loop, and the duplicate-free operand list `threadValuesThroughWait`
 * gives every new wait.
 */
module DotWaits {
  import opened Wrappers

  /** SSA values are numbered. */
  type Value = nat

  // ---------------------------------------------------------------------------
  // threadValuesThroughWait: the operands of the new wait
  // ---------------------------------------------------------------------------

  predicate NoDup(s: seq<Value>) {
    forall i, j :: 0 <= i < j < |s| ==> s[i] != s[j]
  }

  /** The `SetVector` holding `acc` after the values of `s` are inserted one by one. */
  function InsertAll(acc: seq<Value>, s: seq<Value>): seq<Value>
    decreases |s|
  {
    if s == [] then acc
    else
      var r := InsertAll(acc, s[..|s| - 1]);
      if s[|s| - 1] in r then r else r + [s[|s| - 1]]
  }

  /** The position of the first occurrence of `x` in `s`. */
  function FirstIndex(s: seq<Value>, x: Value): (k: nat)
    requires x in s
    ensures k < |s| && s[k] == x && forall j :: 0 <= j < k ==> s[j] != x
  {
    if s[0] == x then 0 else 1 + FirstIndex(s[1..], x)
  }

  lemma FirstIndexOfPrefix(s: seq<Value>, p: nat, x: Value)
    requires p <= |s| && x in s[..p]
    ensures FirstIndex(s, x) == FirstIndex(s[..p], x)
  {
    var k := FirstIndex(s[..p], x);
    var k' := FirstIndex(s, x);
    assert s[k] == x;
    assert s[..p][k'] == x by {
      assert k' <= k;
    }
  }

  /**
   * Inserting into a duplicate-free vector keeps it duplicate-free, keeps the
   * old entries in front, and holds exactly the old entries and the inserted ones.
   */
  lemma {:induction false} InsertAllFacts(acc: seq<Value>, s: seq<Value>)
    requires NoDup(acc)
    ensures NoDup(InsertAll(acc, s))
    ensures |acc| <= |InsertAll(acc, s)| && InsertAll(acc, s)[..|acc|] == acc
    ensures forall x :: x in InsertAll(acc, s) <==> x in acc || x in s
    decreases |s|
  {
    if s != [] {
      var pre := s[..|s| - 1];
      InsertAllFacts(acc, pre);
      assert s == pre + [s[|s| - 1]];
    }
  }

  /** `x` first occurs in `s` before `y` does. */
  predicate FirstBefore(s: seq<Value>, x: Value, y: Value) {
    x in s && y in s && FirstIndex(s, x) < FirstIndex(s, y)
  }

  /** The entries after the old ones come in the order of their first occurrence among the inserted values. */
  lemma {:induction false} InsertAllOrder(acc: seq<Value>, s: seq<Value>)
    requires NoDup(acc)
    ensures forall i, j :: |acc| <= i < j < |InsertAll(acc, s)| ==> FirstBefore(s, InsertAll(acc, s)[i], InsertAll(acc, s)[j])
    decreases |s|
  {
    if s != [] {
      var n := |s| - 1;
      var pre := s[..n];
      var r := InsertAll(acc, pre);
      InsertAllOrder(acc, pre);
      InsertAllFacts(acc, pre);
      var r' := InsertAll(acc, s);
      forall i, j | |acc| <= i < j < |r'|
        ensures FirstBefore(s, r'[i], r'[j])
      {
        assert r'[i] == r[i] && r[i] !in acc by {
          assert r[..|acc|] == acc;
        }
        assert r[i] in pre;
        FirstIndexOfPrefix(s, n, r[i]);
        if j < |r| {
          assert r'[j] == r[j] && r[j] !in acc by {
            assert r[..|acc|] == acc;
          }
          assert FirstBefore(pre, r[i], r[j]);
          FirstIndexOfPrefix(s, n, r[j]);
        } else {
          assert r'[j] == s[n] && s[n] !in pre;
          assert FirstIndex(s, s[n]) == n;
        }
      }
    }
  }

  /** The operands of the new wait: the old ones, then the values, then the memory descriptors of the dots they depend on. */
  function ThreadedOperands(operands: seq<Value>, values: seq<Value>, memDescs: seq<Value>): seq<Value> {
    InsertAll(operands, values + memDescs)
  }

  /**
   * The new wait keeps every old operand at its old position (so result `i`
   * of the old wait is result `i` of the new one), has no duplicates, holds
   * exactly the old operands, the values and the memory descriptors, and
   * orders the new entries by their first occurrence among the inserted values.
   */
  lemma ThreadedOperandsFacts(operands: seq<Value>, values: seq<Value>, memDescs: seq<Value>)
    requires NoDup(operands)
    ensures var r := ThreadedOperands(operands, values, memDescs);
      && NoDup(r)
      && |operands| <= |r| && r[..|operands|] == operands
      && (forall x :: x in r <==> x in operands || x in values || x in memDescs)
      && |r| <= |operands| + |values| + |memDescs|
      && (forall i, j :: |operands| <= i < j < |r| ==> FirstBefore(values + memDescs, r[i], r[j]))
  {
    InsertAllFacts(operands, values + memDescs);
    InsertAllOrder(operands, values + memDescs);
    InsertAllLength(operands, values + memDescs);
  }

  lemma {:induction false} InsertAllLength(acc: seq<Value>, s: seq<Value>)
    ensures |InsertAll(acc, s)| <= |acc| + |s|
    decreases |s|
  {
    if s != [] {
      InsertAllLength(acc, s[..|s| - 1]);
    }
  }

  /** threadValuesThroughWait: insert the values, then the memory descriptors, into the wait's operand vector. */
  method ThreadValuesThroughWait(operands: seq<Value>, values: seq<Value>, memDescs: seq<Value>)
    returns (newOperands: seq<Value>)
    requires NoDup(operands)
    ensures newOperands == ThreadedOperands(operands, values, memDescs)
  {
    newOperands := operands;
    var added := values + memDescs;
    for k := 0 to |added|
      invariant newOperands == InsertAll(operands, added[..k])
    {
      assert added[..k + 1][..k] == added[..k];
      if added[k] !in newOperands {
        newOperands := newOperands + [added[k]];
      }
    }
    assert added[..|added|] == added;
  }

  // ---------------------------------------------------------------------------
  // Rule 3a of dotCanBeProperlyAsync
  // ---------------------------------------------------------------------------

  /** A use of the loop-carried dot result: whether its owner is a `warp_group_dot`, and as which operand. */
  datatype IterArgUse = IterArgUse(ownerIsDot: bool, operandNumber: nat)

  /** What rule 3a decides about a dot that passed rules 1 and 2. */
  datatype Rule3a = ProperlyAsync(iterArgIdx: nat) | TryRule3b | NotAsync | NullDereference

  /** The iter arg found by rule 2, if any: its index and its uses. */
  datatype IterArg = IterArg(idx: nat, uses: seq<IterArgUse>)

  /** A use that reads the previous iteration's result as the accumulator `c` (operand 2) of another dot. */
  predicate AccumulatorUse(u: IterArgUse) {
    u.ownerIsDot && u.operandNumber == 2
  }

  /** `llvm::all_of` over the uses. */
  function AllAccumulatorUses(uses: seq<IterArgUse>): (b: bool)
    ensures b <==> forall k :: 0 <= k < |uses| ==> AccumulatorUse(uses[k])
    ensures |uses| == 0 ==> b
  {
    if uses == [] then true else AccumulatorUse(uses[0]) && AllAccumulatorUses(uses[1..])
  }

  /** Rule 3a as written: it reads the uses of the iter arg rule 2 found, which is null when rule 2 found no yield use. */
  function Rule3aAsWritten(iterArg: Option<IterArg>): (r: Rule3a)
    ensures r == NullDereference <==> iterArg.None?
  {
    if iterArg.None? then NullDereference
    else if AllAccumulatorUses(iterArg.value.uses) then ProperlyAsync(iterArg.value.idx)
    else TryRule3b
  }

  /** Rule 3a with a missing iter arg treated as "cannot be made properly async". */
  function Rule3aChecked(iterArg: Option<IterArg>): (r: Rule3a)
    ensures r != NullDereference
    ensures r == NotAsync <==> iterArg.None?
    ensures iterArg.Some? ==> r == Rule3aAsWritten(iterArg)
  {
    if iterArg.None? then NotAsync
    else if AllAccumulatorUses(iterArg.value.uses) then ProperlyAsync(iterArg.value.idx)
    else TryRule3b
  }

  /**
   * A dot is properly async by rule 3a exactly when its previous result is
   * read only as the `c` operand of dots (vacuously so when it is not read),
   * and then it is reported with its iter-arg index; otherwise rule 3b decides.
   */
  lemma Rule3aDecides(a: IterArg)
    ensures Rule3aChecked(Some(a)).ProperlyAsync? <==> forall u :: u in a.uses ==> AccumulatorUse(u)
    ensures Rule3aChecked(Some(a)).ProperlyAsync? ==> Rule3aChecked(Some(a)).iterArgIdx == a.idx
    ensures Rule3aChecked(Some(a)) == TryRule3b <==> exists u :: u in a.uses && !AccumulatorUse(u)
    ensures a.uses == [] ==> Rule3aChecked(Some(a)) == ProperlyAsync(a.idx)
  {
    if forall u :: u in a.uses ==> AccumulatorUse(u) {
      assert forall k :: 0 <= k < |a.uses| ==> AccumulatorUse(a.uses[k]) by {
        forall k | 0 <= k < |a.uses|
          ensures AccumulatorUse(a.uses[k])
        {
          assert a.uses[k] in a.uses;
        }
      }
    }
  }

  /**
   * A dot whose result is read only by a non-yield op inside an `scf.if` of
   * the loop passes rule 2 without an iter arg; rule 3a as written then reads
   * the uses of a null value.
   */
  lemma NullIterArgDereferenced()
    ensures Rule3aAsWritten(None) == NullDereference
    ensures Rule3aChecked(None) == NotAsync
  {
  }

  // ---------------------------------------------------------------------------
  // insertAsyncWarpGroupDotWaitInLoop
  // ---------------------------------------------------------------------------

  /** A use of a properly async dot's result: whether it is owned by an `scf.yield` (of the loop or of an `scf.if`), and the block of its owner. */
  datatype DotUse = DotUse(isYield: bool, block: nat)

  /** A properly async dot: its op, its result, its iter-arg index and the uses of its result. */
  datatype AsyncDot = AsyncDot(op: nat, result: Value, iterArgIdx: nat, uses: seq<DotUse>)

  /** Where a new wait goes: at the start of a block, or right after an op. */
  datatype Place = AtBlockStart(block: nat) | After(op: nat)

  /** A new `warp_group_dot_wait`. */
  datatype DotWait = DotWait(place: Place, pendings: nat, operands: seq<Value>)

  /**
   * The blocks holding a non-yield use, each once. The source walks a
   * DenseMap keyed by block, whose order is unspecified; the model fixes the
   * order of first use. Each block gets its own wait at its start, so the
   * order does not change the resulting IR.
   */
  function UseBlocks(uses: seq<DotUse>): seq<nat>
    decreases |uses|
  {
    if uses == [] then []
    else
      var r := UseBlocks(uses[..|uses| - 1]);
      var u := uses[|uses| - 1];
      if u.isYield || u.block in r then r else r + [u.block]
  }

  /** The values used by the non-yield uses in block `b`: the dot's result, once per use. */
  function UsersIn(uses: seq<DotUse>, b: nat, v: Value): seq<Value>
    decreases |uses|
  {
    if uses == [] then []
    else
      var r := UsersIn(uses[..|uses| - 1], b, v);
      var u := uses[|uses| - 1];
      if !u.isYield && u.block == b then r + [v] else r
  }

  lemma {:induction false} UseBlocksFacts(uses: seq<DotUse>)
    ensures NoDup(UseBlocks(uses))
    ensures forall b: nat :: b in UseBlocks(uses) <==> exists k :: 0 <= k < |uses| && !uses[k].isYield && uses[k].block == b
    decreases |uses|
  {
    if uses != [] {
      var pre := uses[..|uses| - 1];
      UseBlocksFacts(pre);
      forall b: nat
        ensures b in UseBlocks(uses) <==> exists k :: 0 <= k < |uses| && !uses[k].isYield && uses[k].block == b
      {
        if b in UseBlocks(pre) {
          var k :| 0 <= k < |pre| && !pre[k].isYield && pre[k].block == b;
          assert uses[k] == pre[k];
        }
        if exists k :: 0 <= k < |uses| && !uses[k].isYield && uses[k].block == b {
          var k :| 0 <= k < |uses| && !uses[k].isYield && uses[k].block == b;
          if k < |pre| {
            assert pre[k] == uses[k];
          }
        }
      }
    }
  }

  lemma {:induction false} UsersInFacts(uses: seq<DotUse>, b: nat, v: Value)
    ensures forall x :: x in UsersIn(uses, b, v) ==> x == v
    ensures (exists k :: 0 <= k < |uses| && !uses[k].isYield && uses[k].block == b) ==> |UsersIn(uses, b, v)| > 0
    decreases |uses|
  {
    if uses != [] {
      var pre := uses[..|uses| - 1];
      UsersInFacts(pre, b, v);
      if exists k :: 0 <= k < |uses| && !uses[k].isYield && uses[k].block == b {
        var k :| 0 <= k < |uses| && !uses[k].isYield && uses[k].block == b;
        if k < |pre| {
          assert pre[k] == uses[k];
        }
      }
    }
  }

  /** The memory descriptors reached from the values: for each value, those of the dots its backward slice meets. */
  function Reached(values: seq<Value>, reach: Value -> seq<Value>): seq<Value>
    decreases |values|
  {
    if values == [] then [] else Reached(values[..|values| - 1], reach) + reach(values[|values| - 1])
  }

  /** The `wait 0` put at the start of block `b` for the uses of a dot there. */
  function StartWait(dot: AsyncDot, b: nat, reach: Value -> seq<Value>): DotWait {
    var users := UsersIn(dot.uses, b, dot.result);
    DotWait(AtBlockStart(b), 0, ThreadedOperands([], users, Reached(users, reach)))
  }

  function StartWaitsFor(dot: AsyncDot, blocks: seq<nat>, reach: Value -> seq<Value>): (r: seq<DotWait>)
    ensures |r| == |blocks| && forall j :: 0 <= j < |blocks| ==> r[j] == StartWait(dot, blocks[j], reach)
  {
    seq(|blocks|, j requires 0 <= j < |blocks| => StartWait(dot, blocks[j], reach))
  }

  /** The start-of-block waits for the dots, dot after dot. */
  function StartWaits(dots: seq<AsyncDot>, reach: Value -> seq<Value>): seq<DotWait>
    decreases |dots|
  {
    if dots == [] then []
    else
      var last := dots[|dots| - 1];
      StartWaits(dots[..|dots| - 1], reach) + StartWaitsFor(last, UseBlocks(last.uses), reach)
  }

  function Results(dots: seq<AsyncDot>): (r: seq<Value>)
    ensures |r| == |dots| && forall d :: 0 <= d < |dots| ==> r[d] == dots[d].result
  {
    seq(|dots|, d requires 0 <= d < |dots| => dots[d].result)
  }

  /** The wait after the last properly async dot: at most as many dots in flight as there are properly async dots. */
  function FinalWait(dots: seq<AsyncDot>, reach: Value -> seq<Value>): DotWait
    requires |dots| > 0
  {
    var results := Results(dots);
    DotWait(After(dots[|dots| - 1].op), |dots|, ThreadedOperands([], results, Reached(results, reach)))
  }

  /** The waits the pass adds to the loop: the start-of-block waits of every dot, then the final wait. */
  function LoopWaits(dots: seq<AsyncDot>, bodyWaitPendings: seq<nat>, reach: Value -> seq<Value>): seq<DotWait> {
    if |dots| == 0 || 0 in bodyWaitPendings then []
    else StartWaits(dots, reach) + [FinalWait(dots, reach)]
  }

  /** `w` is the wait put at the start of one of the dot's use blocks. */
  predicate IsStartWaitOf(dot: AsyncDot, w: DotWait, reach: Value -> seq<Value>) {
    w.place.AtBlockStart? && w.place.block in UseBlocks(dot.uses) && w == StartWait(dot, w.place.block, reach)
  }

  /** Every wait of the start-of-block list is the wait of some dot at one of its use blocks, and each such wait is there. */
  lemma StartWaitsMembers(dots: seq<AsyncDot>, reach: Value -> seq<Value>)
    ensures forall w :: w in StartWaits(dots, reach) <==> exists d :: 0 <= d < |dots| && IsStartWaitOf(dots[d], w, reach)
  {
    forall w
      ensures w in StartWaits(dots, reach) <==> exists d :: 0 <= d < |dots| && IsStartWaitOf(dots[d], w, reach)
    {
      if w in StartWaits(dots, reach) {
        var d := StartWaitOwner(dots, reach, w);
      }
      if exists d :: 0 <= d < |dots| && IsStartWaitOf(dots[d], w, reach) {
        var d :| 0 <= d < |dots| && IsStartWaitOf(dots[d], w, reach);
        StartWaitPresent(dots, reach, d, w);
      }
    }
  }

  /** The dot a start-of-block wait was made for. */
  lemma {:induction false} StartWaitOwner(dots: seq<AsyncDot>, reach: Value -> seq<Value>, w: DotWait) returns (d: nat)
    requires w in StartWaits(dots, reach)
    ensures d < |dots| && IsStartWaitOf(dots[d], w, reach)
    decreases |dots|
  {
    var pre := dots[..|dots| - 1];
    var last := dots[|dots| - 1];
    var blocks := UseBlocks(last.uses);
    var tail := StartWaitsFor(last, blocks, reach);
    assert StartWaits(dots, reach) == StartWaits(pre, reach) + tail;
    if w in tail {
      var j :| 0 <= j < |tail| && tail[j] == w;
      assert blocks[j] in blocks;
      d := |dots| - 1;
    } else {
      d := StartWaitOwner(pre, reach, w);
      assert dots[d] == pre[d];
    }
  }

  /** The wait of a dot at one of its use blocks is in the list. */
  lemma {:induction false} StartWaitPresent(dots: seq<AsyncDot>, reach: Value -> seq<Value>, d: nat, w: DotWait)
    requires d < |dots| && IsStartWaitOf(dots[d], w, reach)
    ensures w in StartWaits(dots, reach)
    decreases |dots|
  {
    var pre := dots[..|dots| - 1];
    var last := dots[|dots| - 1];
    var blocks := UseBlocks(last.uses);
    var tail := StartWaitsFor(last, blocks, reach);
    assert StartWaits(dots, reach) == StartWaits(pre, reach) + tail;
    if d < |pre| {
      assert pre[d] == dots[d];
      StartWaitPresent(pre, reach, d, w);
    } else {
      var j :| 0 <= j < |blocks| && blocks[j] == w.place.block;
      assert tail[j] == w;
    }
  }

  /** A start-of-block wait waits for everything (`pendings` 0) and threads the dot's result first and once. */
  lemma StartWaitFacts(dot: AsyncDot, b: nat, reach: Value -> seq<Value>)
    requires b in UseBlocks(dot.uses)
    ensures var w := StartWait(dot, b, reach);
      && w.place == AtBlockStart(b) && w.pendings == 0
      && NoDup(w.operands) && |w.operands| > 0 && w.operands[0] == dot.result
  {
    var users := UsersIn(dot.uses, b, dot.result);
    UseBlocksFacts(dot.uses);
    UsersInFacts(dot.uses, b, dot.result);
    var s := users + Reached(users, reach);
    ThreadedOperandsFacts([], users, Reached(users, reach));
    InsertAllOrder([], s);
    var ops := InsertAll([], s);
    assert s[0] == dot.result by {
      assert users[0] in users;
    }
    assert FirstIndex(s, dot.result) == 0;
  }

  /**
   * The waits in the loop: none when there is no properly async dot or the
   * body already holds a `wait 0`; otherwise a `wait 0` at the start of every
   * block where a dot's result is used other than by the yield, one per dot
   * and block, and last a wait after the last dot letting at most as many
   * dots stay in flight as there are properly async dots, threading every
   * dot's result exactly once.
   */
  lemma LoopWaitsPlacement(dots: seq<AsyncDot>, bodyWaitPendings: seq<nat>, reach: Value -> seq<Value>)
    ensures var ws := LoopWaits(dots, bodyWaitPendings, reach);
      && (ws == [] <==> |dots| == 0 || 0 in bodyWaitPendings)
      && (ws != [] ==>
            && ws[|ws| - 1].place == After(dots[|dots| - 1].op)
            && ws[|ws| - 1].pendings == |dots|
            && NoDup(ws[|ws| - 1].operands)
            && (forall d :: 0 <= d < |dots| ==> dots[d].result in ws[|ws| - 1].operands))
      && (ws != [] ==> forall d, k :: 0 <= d < |dots| && 0 <= k < |dots[d].uses| && !dots[d].uses[k].isYield ==>
            StartWait(dots[d], dots[d].uses[k].block, reach) in ws[..|ws| - 1])
      && (ws != [] ==> forall w :: w in ws[..|ws| - 1] ==>
            w.pendings == 0 && w.place.AtBlockStart?
            && exists d :: 0 <= d < |dots| && IsStartWaitOf(dots[d], w, reach))
  {
    var ws := LoopWaits(dots, bodyWaitPendings, reach);
    if ws != [] {
      var starts := StartWaits(dots, reach);
      assert ws[..|ws| - 1] == starts;
      StartWaitsMembers(dots, reach);
      var results := Results(dots);
      ThreadedOperandsFacts([], results, Reached(results, reach));
      forall d | 0 <= d < |dots|
        ensures dots[d].result in ws[|ws| - 1].operands
      {
        assert results[d] in results;
      }
      UseBlocksFactsAll(dots);
      forall d, k | 0 <= d < |dots| && 0 <= k < |dots[d].uses| && !dots[d].uses[k].isYield
        ensures StartWait(dots[d], dots[d].uses[k].block, reach) in starts
      {
        assert dots[d].uses[k].block in UseBlocks(dots[d].uses);
        StartWaitFacts(dots[d], dots[d].uses[k].block, reach);
        assert IsStartWaitOf(dots[d], StartWait(dots[d], dots[d].uses[k].block, reach), reach);
      }
      forall w | w in starts
        ensures w.pendings == 0 && w.place.AtBlockStart?
          && exists d :: 0 <= d < |dots| && IsStartWaitOf(dots[d], w, reach)
      {
        var d :| 0 <= d < |dots| && IsStartWaitOf(dots[d], w, reach);
        StartWaitFacts(dots[d], w.place.block, reach);
      }
    }
  }

  lemma UseBlocksFactsAll(dots: seq<AsyncDot>)
    ensures forall d, k :: 0 <= d < |dots| && 0 <= k < |dots[d].uses| && !dots[d].uses[k].isYield ==>
      dots[d].uses[k].block in UseBlocks(dots[d].uses)
  {
    forall d, k | 0 <= d < |dots| && 0 <= k < |dots[d].uses| && !dots[d].uses[k].isYield
      ensures dots[d].uses[k].block in UseBlocks(dots[d].uses)
    {
      UseBlocksFacts(dots[d].uses);
    }
  }

  /** The grouping of a dot's non-yield uses by the block of their owner. */
  method GroupUsesByBlock(dot: AsyncDot) returns (blocks: seq<nat>, blockToUsers: map<nat, seq<Value>>)
    ensures blocks == UseBlocks(dot.uses)
    ensures forall b :: b in blocks ==> b in blockToUsers && blockToUsers[b] == UsersIn(dot.uses, b, dot.result)
  {
    blocks := [];
    blockToUsers := map[];
    for k := 0 to |dot.uses|
      invariant blocks == UseBlocks(dot.uses[..k])
      invariant forall b :: b in blockToUsers <==> b in blocks
      invariant forall b :: b in blocks ==> blockToUsers[b] == UsersIn(dot.uses[..k], b, dot.result)
    {
      var use := dot.uses[k];
      assert dot.uses[..k + 1][..k] == dot.uses[..k];
      if !use.isYield {
        if use.block in blockToUsers {
          blockToUsers := blockToUsers[use.block := blockToUsers[use.block] + [dot.result]];
        } else {
          blocks := blocks + [use.block];
          blockToUsers := blockToUsers[use.block := [dot.result]];
          assert UsersIn(dot.uses[..k], use.block, dot.result) == [] by {
            UsersInAbsent(dot.uses[..k], use.block, dot.result);
          }
        }
      }
    }
    assert dot.uses[..|dot.uses|] == dot.uses;
  }

  lemma {:induction false} UsersInAbsent(uses: seq<DotUse>, b: nat, v: Value)
    requires b !in UseBlocks(uses)
    ensures UsersIn(uses, b, v) == []
    decreases |uses|
  {
    if uses != [] {
      var pre := uses[..|uses| - 1];
      UsersInAbsent(pre, b, v);
    }
  }

  /** The `Reached` loop over the values of one call. */
  method GatherMemDescs(values: seq<Value>, reach: Value -> seq<Value>) returns (memDescs: seq<Value>)
    ensures memDescs == Reached(values, reach)
  {
    memDescs := [];
    for k := 0 to |values|
      invariant memDescs == Reached(values[..k], reach)
    {
      assert values[..k + 1][..k] == values[..k];
      memDescs := memDescs + reach(values[k]);
    }
    assert values[..|values|] == values;
  }

  /** The scan for a wait in the body that already waits for everything (`pendings` 0). */
  method AnyWaitZero(bodyWaitPendings: seq<nat>) returns (anyWaitZero: bool)
    ensures anyWaitZero <==> 0 in bodyWaitPendings
  {
    anyWaitZero := false;
    for i := 0 to |bodyWaitPendings|
      invariant anyWaitZero <==> 0 in bodyWaitPendings[..i]
    {
      assert bodyWaitPendings[..i + 1] == bodyWaitPendings[..i] + [bodyWaitPendings[i]];
      if bodyWaitPendings[i] == 0 {
        anyWaitZero := true;
      }
    }
    assert bodyWaitPendings[..|bodyWaitPendings|] == bodyWaitPendings;
  }

  /** The `wait 0` ops for one dot, one at the start of each block holding a use. */
  method WaitsAtUseBlocks(dot: AsyncDot, reach: Value -> seq<Value>) returns (waits: seq<DotWait>)
    ensures waits == StartWaitsFor(dot, UseBlocks(dot.uses), reach)
  {
    var blocks, blockToUsers := GroupUsesByBlock(dot);
    waits := [];
    for j := 0 to |blocks|
      invariant waits == StartWaitsFor(dot, blocks[..j], reach)
    {
      var users := blockToUsers[blocks[j]];
      var memDescs := GatherMemDescs(users, reach);
      var operands := ThreadValuesThroughWait([], users, memDescs);
      waits := waits + [DotWait(AtBlockStart(blocks[j]), 0, operands)];
      assert StartWaitsFor(dot, blocks[..j + 1], reach) == StartWaitsFor(dot, blocks[..j], reach) + [StartWait(dot, blocks[j], reach)];
    }
    assert blocks[..|blocks|] == blocks;
  }

  /** insertAsyncWarpGroupDotWaitInLoop: the waits it creates. */
  method InsertAsyncWarpGroupDotWaitInLoop(dots: seq<AsyncDot>, bodyWaitPendings: seq<nat>, reach: Value -> seq<Value>)
    returns (waits: seq<DotWait>)
    ensures waits == LoopWaits(dots, bodyWaitPendings, reach)
  {
    waits := [];
    if |dots| == 0 {
      return;
    }
    var anyWaitZero := AnyWaitZero(bodyWaitPendings);
    if anyWaitZero {
      return;
    }
    for d := 0 to |dots|
      invariant waits == StartWaits(dots[..d], reach)
    {
      assert dots[..d + 1][..d] == dots[..d];
      var dotWaits := WaitsAtUseBlocks(dots[d], reach);
      waits := waits + dotWaits;
    }
    assert dots[..|dots|] == dots;
    var addlWaitOperands := [];
    for d := 0 to |dots|
      invariant addlWaitOperands == Results(dots[..d])
    {
      addlWaitOperands := addlWaitOperands + [dots[d].result];
    }
    assert Results(dots[..|dots|]) == Results(dots);
    var memDescs := GatherMemDescs(addlWaitOperands, reach);
    var operands := ThreadValuesThroughWait([], addlWaitOperands, memDescs);
    waits := waits + [DotWait(After(dots[|dots| - 1].op), |dots|, operands)];
  }
}
