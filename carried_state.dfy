/**
 * The bookkeeping half of `createAsyncOps`: one `AsyncLoad` per selected load,
 * the stage groups (a MapVector keyed by buffer count, in first-insertion
 * order), and the loop-carried slots the groups and the descriptor counters
 * append to the loop, with the yield patched in the same order.
 */
module CarriedState {
  import opened Wrappers
  import opened Ir
  import opened LoadSelection
  import RingCounters

  /** The part of the source's `AsyncLoad` the grouping reads. */
  datatype AsyncLoad = AsyncLoad(loadOp: nat, isTMALoad: bool, numBuffers: int)

  /** One entry of `stageGroups`: its key and whether a descriptor load is in it. */
  datatype StageGroup = StageGroup(numBuffers: int, hasTMALoad: bool)

  function AsyncLoadOf(ops: Arena, entry: (nat, LoadInfo)): AsyncLoad
    requires entry.0 < |ops|
  {
    AsyncLoad(entry.0, IsDescriptorKind(ops[entry.0].kind), NumBuffers(entry.1))
  }

  /** MapVector lookup: the position of the group keyed `nb`, if any. */
  function GroupIndex(gs: seq<StageGroup>, nb: int): (r: Option<nat>)
    ensures r.Some? ==> r.value < |gs| && gs[r.value].numBuffers == nb
    ensures r.None? ==> forall i :: 0 <= i < |gs| ==> gs[i].numBuffers != nb
  {
    if gs == [] then None
    else if gs[0].numBuffers == nb then Some(0)
    else match GroupIndex(gs[1..], nb)
      case None => None
      case Some(i) => Some(i + 1)
  }

  /** `stageGroups.insert({numBuffers, {}})` followed by setting `hasTMALoad` for a descriptor load. */
  function InsertGroup(gs: seq<StageGroup>, a: AsyncLoad): seq<StageGroup> {
    match GroupIndex(gs, a.numBuffers)
    case None => gs + [StageGroup(a.numBuffers, a.isTMALoad)]
    case Some(i) => gs[i := gs[i].(hasTMALoad := gs[i].hasTMALoad || a.isTMALoad)]
  }

  /** The stage groups after inserting every load in order. */
  function GroupsOf(ls: seq<AsyncLoad>): seq<StageGroup>
    decreases |ls|
  {
    if ls == [] then [] else InsertGroup(GroupsOf(ls[..|ls| - 1]), ls[|ls| - 1])
  }

  /** The position of the first load with buffer count `nb`, or `|ls|` when there is none. */
  function FirstLoadWith(ls: seq<AsyncLoad>, nb: int): (r: nat)
    ensures r <= |ls|
    ensures r < |ls| ==> ls[r].numBuffers == nb
    ensures forall k :: 0 <= k < r ==> ls[k].numBuffers != nb
    decreases |ls|
  {
    if ls == [] then 0
    else
      var p := FirstLoadWith(ls[..|ls| - 1], nb);
      if p < |ls| - 1 then p
      else if ls[|ls| - 1].numBuffers == nb then |ls| - 1
      else |ls|
  }

  predicate DistinctKeys(gs: seq<StageGroup>) {
    forall i, j :: 0 <= i < j < |gs| ==> gs[i].numBuffers != gs[j].numBuffers
  }

  /** What one insertion does to a MapVector with distinct keys. */
  lemma InsertGroupEffect(gs: seq<StageGroup>, a: AsyncLoad)
    requires DistinctKeys(gs)
    ensures var r := InsertGroup(gs, a);
      && |r| == |gs| + (if GroupIndex(gs, a.numBuffers).None? then 1 else 0)
      && (forall i :: 0 <= i < |gs| ==> r[i].numBuffers == gs[i].numBuffers)
      && (forall i :: 0 <= i < |gs| ==>
            r[i].hasTMALoad == (gs[i].hasTMALoad || (gs[i].numBuffers == a.numBuffers && a.isTMALoad)))
      && (|r| > |gs| ==> r[|gs|] == StageGroup(a.numBuffers, a.isTMALoad))
      && DistinctKeys(r)
  {
  }

  /**
   * The groups `gs` built from the loads `ls` are keyed by distinct buffer
   * counts, every load's count has a group, and every group comes from a load.
   */
  predicate Keyed(gs: seq<StageGroup>, ls: seq<AsyncLoad>) {
    && DistinctKeys(gs)
    && (forall k :: 0 <= k < |ls| ==> GroupIndex(gs, ls[k].numBuffers).Some?)
    && (forall i :: 0 <= i < |gs| ==> FirstLoadWith(ls, gs[i].numBuffers) < |ls|)
  }

  /** Inserting one more load keeps the groups keyed. */
  lemma KeyedInsert(gp: seq<StageGroup>, pre: seq<AsyncLoad>, a: AsyncLoad)
    requires Keyed(gp, pre)
    ensures Keyed(InsertGroup(gp, a), pre + [a])
  {
    var ls := pre + [a];
    var gs := InsertGroup(gp, a);
    InsertGroupEffect(gp, a);
    assert ls[..|pre|] == pre;
    forall k | 0 <= k < |ls|
      ensures GroupIndex(gs, ls[k].numBuffers).Some?
    {
      var nb := ls[k].numBuffers;
      if k < |pre| {
        assert pre[k] == ls[k];
        var gi := GroupIndex(gp, nb).value;
        assert gs[gi].numBuffers == nb;
      } else if |gs| > |gp| {
        assert gs[|gp|].numBuffers == nb;
      } else {
        assert gs[GroupIndex(gp, a.numBuffers).value].numBuffers == nb;
      }
    }
    forall i | 0 <= i < |gs|
      ensures FirstLoadWith(ls, gs[i].numBuffers) < |ls|
    {
      if i < |gp| {
        assert FirstLoadWith(pre, gp[i].numBuffers) < |pre|;
      }
    }
  }

  /** The stage groups of every load sequence are keyed. */
  lemma {:induction false} GroupsKeyed(ls: seq<AsyncLoad>)
    ensures Keyed(GroupsOf(ls), ls)
    decreases |ls|
  {
    if ls == [] {
      return;
    }
    var pre := ls[..|ls| - 1];
    var a := ls[|ls| - 1];
    assert ls == pre + [a];
    assert Keyed(GroupsOf(pre), pre) by {
      GroupsKeyed(pre);
    }
    KeyedInsert(GroupsOf(pre), pre, a);
  }

  /** A group has a descriptor load exactly when one of the loads with its buffer count is a descriptor load. */
  ghost predicate Tracks(gs: seq<StageGroup>, ls: seq<AsyncLoad>) {
    forall i :: 0 <= i < |gs| ==>
      (gs[i].hasTMALoad <==> exists k :: 0 <= k < |ls| && ls[k].numBuffers == gs[i].numBuffers && ls[k].isTMALoad)
  }

  /** Inserting one more load keeps the descriptor flags exact. */
  lemma TracksInsert(gp: seq<StageGroup>, pre: seq<AsyncLoad>, a: AsyncLoad)
    requires Keyed(gp, pre) && Tracks(gp, pre)
    ensures Tracks(InsertGroup(gp, a), pre + [a])
  {
    var ls := pre + [a];
    var gs := InsertGroup(gp, a);
    InsertGroupEffect(gp, a);
    forall i | 0 <= i < |gs|
      ensures (gs[i].hasTMALoad <==>
               exists k :: 0 <= k < |ls| && ls[k].numBuffers == gs[i].numBuffers && ls[k].isTMALoad)
    {
      var nb := gs[i].numBuffers;
      assert ls[|pre|] == a;
      if i >= |gp| {
        forall k | 0 <= k < |pre|
          ensures pre[k].numBuffers != nb
        {
          assert GroupIndex(gp, pre[k].numBuffers).Some?;
        }
      }
      if exists k :: 0 <= k < |ls| && ls[k].numBuffers == nb && ls[k].isTMALoad {
        var k :| 0 <= k < |ls| && ls[k].numBuffers == nb && ls[k].isTMALoad;
        if k < |pre| {
          assert pre[k] == ls[k];
        }
      }
      if i < |gp| && gp[i].hasTMALoad {
        var k :| 0 <= k < |pre| && pre[k].numBuffers == gp[i].numBuffers && pre[k].isTMALoad;
        assert ls[k] == pre[k];
      }
    }
  }

  /** The descriptor flag of every stage group is exact. */
  lemma {:induction false} GroupsTrackTMA(ls: seq<AsyncLoad>)
    ensures Tracks(GroupsOf(ls), ls)
    decreases |ls|
  {
    if ls == [] {
      return;
    }
    var pre := ls[..|ls| - 1];
    var a := ls[|ls| - 1];
    assert ls == pre + [a];
    assert Tracks(GroupsOf(pre), pre) by {
      GroupsTrackTMA(pre);
    }
    assert Keyed(GroupsOf(pre), pre) by {
      GroupsKeyed(pre);
    }
    TracksInsert(GroupsOf(pre), pre, a);
  }

  /** The groups are ordered by the position of the first load with their buffer count. */
  predicate FirstInsertionOrder(gs: seq<StageGroup>, ls: seq<AsyncLoad>) {
    forall i, j :: 0 <= i < j < |gs| ==> FirstLoadWith(ls, gs[i].numBuffers) < FirstLoadWith(ls, gs[j].numBuffers)
  }

  /** Inserting one more load keeps the groups in first-insertion order. */
  lemma OrderInsert(gp: seq<StageGroup>, pre: seq<AsyncLoad>, a: AsyncLoad)
    requires Keyed(gp, pre) && FirstInsertionOrder(gp, pre)
    ensures FirstInsertionOrder(InsertGroup(gp, a), pre + [a])
  {
    var ls := pre + [a];
    var gs := InsertGroup(gp, a);
    InsertGroupEffect(gp, a);
    assert ls[..|pre|] == pre;
    forall i | 0 <= i < |gp|
      ensures FirstLoadWith(ls, gp[i].numBuffers) == FirstLoadWith(pre, gp[i].numBuffers)
    {
    }
    if |gs| == |gp| + 1 {
      assert FirstLoadWith(pre, a.numBuffers) == |pre|;
      assert gs[|gp|].numBuffers == a.numBuffers;
    }
  }

  /** The stage groups are in the order in which their buffer counts first occur among the loads. */
  lemma {:induction false} GroupsInFirstInsertionOrder(ls: seq<AsyncLoad>)
    ensures FirstInsertionOrder(GroupsOf(ls), ls)
    decreases |ls|
  {
    if ls == [] {
      return;
    }
    var pre := ls[..|ls| - 1];
    var a := ls[|ls| - 1];
    assert ls == pre + [a];
    assert FirstInsertionOrder(GroupsOf(pre), pre) by {
      GroupsInFirstInsertionOrder(pre);
    }
    assert Keyed(GroupsOf(pre), pre) by {
      GroupsKeyed(pre);
    }
    OrderInsert(GroupsOf(pre), pre, a);
  }

  /**
   * The first loop of createAsyncOps: one `AsyncLoad` per selected load, its
   * buffer count from `NumBuffers`, and the stage groups built alongside.
   */
  method CollectAsyncLoads(ops: Arena, loadToInfo: seq<(nat, LoadInfo)>)
    returns (asyncLoads: seq<AsyncLoad>, stageGroups: seq<StageGroup>)
    requires forall k :: 0 <= k < |loadToInfo| ==> loadToInfo[k].0 < |ops|
    ensures |asyncLoads| == |loadToInfo|
    ensures forall k :: 0 <= k < |loadToInfo| ==> asyncLoads[k] == AsyncLoadOf(ops, loadToInfo[k])
    ensures stageGroups == GroupsOf(asyncLoads)
  {
    asyncLoads, stageGroups := [], [];
    for k := 0 to |loadToInfo|
      invariant |asyncLoads| == k
      invariant forall m :: 0 <= m < k ==> asyncLoads[m] == AsyncLoadOf(ops, loadToInfo[m])
      invariant stageGroups == GroupsOf(asyncLoads)
    {
      var (loadOp, info) := loadToInfo[k];
      var asyncLoad := AsyncLoad(loadOp, IsDescriptorKind(ops[loadOp].kind), NumBuffers(info));
      ghost var before := stageGroups;
      var g: nat;
      match GroupIndex(stageGroups, asyncLoad.numBuffers) {
        case None =>
          stageGroups := stageGroups + [StageGroup(asyncLoad.numBuffers, false)];
          g := |stageGroups| - 1;
        case Some(i) =>
          g := i;
      }
      if asyncLoad.isTMALoad {
        stageGroups := stageGroups[g := stageGroups[g].(hasTMALoad := true)];
      }
      assert stageGroups == InsertGroup(before, asyncLoad);
      assert GroupsOf(asyncLoads + [asyncLoad]) == InsertGroup(GroupsOf(asyncLoads), asyncLoad) by {
        assert (asyncLoads + [asyncLoad])[..k] == asyncLoads;
      }
      asyncLoads := asyncLoads + [asyncLoad];
    }
  }

  /** A loop-carried value appended by createAsyncOps, named by what it counts. */
  datatype Slot = InsertIdx(group: nat) | ExtractIdx(group: nat) | Phase(group: nat) | DescIdx(desc: nat)

  /** Insert index, extract index, and a phase only for a group with a descriptor load. */
  function SlotsOfGroup(g: nat, sg: StageGroup): seq<Slot> {
    [InsertIdx(g), ExtractIdx(g)] + (if sg.hasTMALoad then [Phase(g)] else [])
  }

  /** The slots of the stage groups, group by group in MapVector order. */
  function GroupSlots(gs: seq<StageGroup>): seq<Slot>
    decreases |gs|
  {
    if gs == [] then [] else GroupSlots(gs[..|gs| - 1]) + SlotsOfGroup(|gs| - 1, gs[|gs| - 1])
  }

  /** One counter per descriptor buffer, after all group slots. */
  function DescSlots(n: nat): (r: seq<Slot>)
    ensures |r| == n && forall d :: 0 <= d < n ==> r[d] == DescIdx(d)
  {
    if n == 0 then [] else DescSlots(n - 1) + [DescIdx(n - 1)]
  }

  function Slots(gs: seq<StageGroup>, numDesc: nat): seq<Slot> {
    GroupSlots(gs) + DescSlots(numDesc)
  }

  /** The values createAsyncOps passes in: -1 for both indices, 0 for a phase and a descriptor counter. */
  function InitialValue(s: Slot): int {
    match s
    case InsertIdx(_) => -1
    case ExtractIdx(_) => -1
    case Phase(_) => 0
    case DescIdx(_) => 0
  }

  /** A value in the loop's init list or yield: a constant, the updated value of a slot, or any other value. */
  datatype Val = Const(c: int) | Updated(slot: Slot) | Opaque(id: nat)

  function InitVals(ss: seq<Slot>): (r: seq<Val>)
    ensures |r| == |ss|
    ensures forall k :: 0 <= k < |ss| ==> r[k] == Const(InitialValue(ss[k]))
  {
    seq(|ss|, k requires 0 <= k < |ss| => Const(InitialValue(ss[k])))
  }

  function UpdatedVals(ss: seq<Slot>): (r: seq<Val>)
    ensures |r| == |ss|
    ensures forall k :: 0 <= k < |ss| ==> r[k] == Updated(ss[k])
  {
    seq(|ss|, k requires 0 <= k < |ss| => Updated(ss[k]))
  }

  /** Where the slots of group `g` start among the appended arguments. */
  function Offset(gs: seq<StageGroup>, g: nat): nat
    requires g <= |gs|
  {
    |GroupSlots(gs[..g])|
  }

  function NumTMAGroups(gs: seq<StageGroup>): nat
    decreases |gs|
  {
    if gs == [] then 0 else NumTMAGroups(gs[..|gs| - 1]) + (if gs[|gs| - 1].hasTMALoad then 1 else 0)
  }

  lemma {:induction false} GroupSlotsPrefix(gs: seq<StageGroup>, g: nat)
    requires g <= |gs|
    ensures GroupSlots(gs[..g]) <= GroupSlots(gs)
    decreases |gs| - g
  {
    if g < |gs| {
      GroupSlotsPrefix(gs, g + 1);
      assert gs[..g + 1][..g] == gs[..g];
    } else {
      assert gs[..g] == gs;
    }
  }

  lemma {:induction false} GroupSlotsLength(gs: seq<StageGroup>)
    ensures |GroupSlots(gs)| == 2 * |gs| + NumTMAGroups(gs)
    decreases |gs|
  {
    if gs != [] {
      GroupSlotsLength(gs[..|gs| - 1]);
    }
  }

  /**
   * Group `g` owns the slots from `Offset(gs, g)` on: its insert index, its
   * extract index, then its phase exactly when it has a descriptor load; the
   * next group starts right after them.
   */
  lemma GroupSlotsAt(gs: seq<StageGroup>, g: nat)
    requires g < |gs|
    ensures Offset(gs, g + 1) == Offset(gs, g) + 2 + (if gs[g].hasTMALoad then 1 else 0)
    ensures Offset(gs, g + 1) <= |GroupSlots(gs)|
    ensures GroupSlots(gs)[Offset(gs, g)] == InsertIdx(g)
    ensures GroupSlots(gs)[Offset(gs, g) + 1] == ExtractIdx(g)
    ensures gs[g].hasTMALoad ==> GroupSlots(gs)[Offset(gs, g) + 2] == Phase(g)
  {
    assert gs[..g + 1][..g] == gs[..g];
    assert GroupSlots(gs[..g + 1]) == GroupSlots(gs[..g]) + SlotsOfGroup(g, gs[g]);
    GroupSlotsPrefix(gs, g + 1);
  }

  /** Every group slot names a group that exists, and no slot is listed twice. */
  lemma {:induction false} GroupSlotsDistinct(gs: seq<StageGroup>)
    ensures forall k :: 0 <= k < |GroupSlots(gs)| ==> !GroupSlots(gs)[k].DescIdx? && GroupSlots(gs)[k].group < |gs|
    ensures forall i, j :: 0 <= i < j < |GroupSlots(gs)| ==> GroupSlots(gs)[i] != GroupSlots(gs)[j]
    decreases |gs|
  {
    if gs == [] {
      return;
    }
    var n := |gs| - 1;
    GroupSlotsDistinct(gs[..n]);
    var sp := GroupSlots(gs[..n]);
    var ss := GroupSlots(gs);
    assert ss == sp + SlotsOfGroup(n, gs[n]);
    forall i, j | 0 <= i < j < |ss|
      ensures ss[i] != ss[j]
    {
      if i < |sp| <= j {
        assert sp[i].group < n;
      }
    }
  }

  /**
   * The yield operand at position `k` while the group slots are being
   * patched: the loop's own operands, then the first `m` group slots
   * updated, then the appended temporaries.
   */
  function PatchedAt(y0: seq<Val>, all: seq<Slot>, newOperands: seq<Val>, m: nat, k: nat): Val
    requires m <= |all| <= |newOperands| && k < |y0| + |newOperands|
  {
    if k < |y0| then y0[k] else if k - |y0| < m then Updated(all[k - |y0|]) else newOperands[k - |y0|]
  }

  predicate PatchedUpTo(y: seq<Val>, y0: seq<Val>, all: seq<Slot>, newOperands: seq<Val>, m: nat)
    requires m <= |all| <= |newOperands|
  {
    && |y| == |y0| + |newOperands|
    && forall k :: 0 <= k < |y| ==> y[k] == PatchedAt(y0, all, newOperands, m, k)
  }

  /** Once every group slot is patched, the yield is the loop's operands, the updated group slots, then the rest. */
  lemma PatchedAll(y: seq<Val>, y0: seq<Val>, all: seq<Slot>, newOperands: seq<Val>)
    requires |all| <= |newOperands| && PatchedUpTo(y, y0, all, newOperands, |all|)
    ensures y == y0 + UpdatedVals(all) + newOperands[|all|..]
  {
    var r := y0 + UpdatedVals(all) + newOperands[|all|..];
    forall k | 0 <= k < |y|
      ensures y[k] == r[k]
    {
      assert y[k] == PatchedAt(y0, all, newOperands, |all|, k);
    }
  }

  // ---------------------------------------------------------------------------
  // What the carried group slots hold from one iteration to the next
  // ---------------------------------------------------------------------------

  /** A phase slot is laid out only for a group with a descriptor load. */
  lemma {:induction false} PhaseSlotsOfTMAGroups(gs: seq<StageGroup>)
    ensures forall k :: 0 <= k < |GroupSlots(gs)| && GroupSlots(gs)[k].Phase? ==>
      GroupSlots(gs)[k].group < |gs| && gs[GroupSlots(gs)[k].group].hasTMALoad
    decreases |gs|
  {
    if gs != [] {
      var n := |gs| - 1;
      PhaseSlotsOfTMAGroups(gs[..n]);
      GroupSlotsDistinct(gs[..n]);
      var sp := GroupSlots(gs[..n]);
      assert GroupSlots(gs) == sp + SlotsOfGroup(n, gs[n]);
      forall k | 0 <= k < |GroupSlots(gs)| && GroupSlots(gs)[k].Phase?
        ensures GroupSlots(gs)[k].group < |gs| && gs[GroupSlots(gs)[k].group].hasTMALoad
      {
        if k < |sp| {
          assert GroupSlots(gs)[k] == sp[k];
          assert gs[..n][sp[k].group] == gs[sp[k].group];
        }
      }
    }
  }

  /**
   * The counters of group `g` read from the values `cur` its group slots
   * carry into an iteration (the block arguments from `newOperandIndex` on);
   * a group without a descriptor load carries no phase.
   */
  function CountersAt(gs: seq<StageGroup>, cur: seq<int>, g: nat): RingCounters.Counters
    requires g < |gs| && |cur| == |GroupSlots(gs)|
  {
    GroupSlotsAt(gs, g);
    var o := Offset(gs, g);
    RingCounters.Counters(cur[o], cur[o + 1], if gs[g].hasTMALoad then cur[o + 2] else 0)
  }

  /**
   * What the yield operand `Updated(s)` of a group slot computes in an
   * iteration entered with `cur`: the group's insert and extract indices
   * stepped by createIncrementModulo modulo the group's own buffer count, and
   * its phase flipped exactly when the extract index wraps.
   */
  function UpdatedValue(gs: seq<StageGroup>, cur: seq<int>, s: Slot): int
    requires |cur| == |GroupSlots(gs)| && !s.DescIdx? && s.group < |gs|
  {
    var next := RingCounters.Step(CountersAt(gs, cur, s.group), gs[s.group].numBuffers);
    match s
    case InsertIdx(_) => next.insertIdx
    case ExtractIdx(_) => next.extractIdx
    case Phase(_) => next.phase
  }

  /** A value of the init list or the yield, on the group slots' values `cur`; `None` for a value the model leaves uninterpreted. */
  function Eval(gs: seq<StageGroup>, cur: seq<int>, v: Val): Option<int>
    requires |cur| == |GroupSlots(gs)|
  {
    match v
    case Const(c) => Some(c)
    case Updated(s) => if !s.DescIdx? && s.group < |gs| then Some(UpdatedValue(gs, cur, s)) else None
    case Opaque(_) => None
  }

  /**
   * The value group slot `s` holds after `k` iterations (the init value when
   * `k` is 0; otherwise what iteration `k` computed at the top of its body,
   * used and yielded): its group's counters after `k` steps modulo the
   * group's buffer count.
   */
  function SlotValue(gs: seq<StageGroup>, s: Slot, k: nat): int
    requires !s.DescIdx? && s.group < |gs|
  {
    var c := RingCounters.Run(gs[s.group].numBuffers, k);
    match s
    case InsertIdx(_) => c.insertIdx
    case ExtractIdx(_) => c.extractIdx
    case Phase(_) => c.phase
  }

  /** The values of all group slots after `k` iterations, in slot order. */
  function SlotValues(gs: seq<StageGroup>, k: nat): (r: seq<int>)
    ensures |r| == |GroupSlots(gs)|
  {
    GroupSlotsDistinct(gs);
    seq(|GroupSlots(gs)|, j requires 0 <= j < |GroupSlots(gs)| => SlotValue(gs, GroupSlots(gs)[j], k))
  }

  /** Read back from the slot values after `k` iterations, group `g`'s counters are its ring counters after `k` steps. */
  lemma CountersAtSlotValues(gs: seq<StageGroup>, g: nat, k: nat)
    requires g < |gs|
    ensures var c := CountersAt(gs, SlotValues(gs, k), g);
      var run := RingCounters.Run(gs[g].numBuffers, k);
      && c.insertIdx == run.insertIdx && c.extractIdx == run.extractIdx
      && (gs[g].hasTMALoad ==> c.phase == run.phase)
  {
    GroupSlotsAt(gs, g);
  }

  /**
   * The yield createAsyncOps builds for the group slots takes the values
   * after `k` iterations to the values after `k + 1`, and the values it
   * appends to the init list are the values after none: every group's
   * counters run as `RingCounters.Run` on that group's buffer count.
   */
  lemma {:induction false} CarriedCountersStep(gs: seq<StageGroup>, k: nat)
    ensures forall j :: 0 <= j < |GroupSlots(gs)| ==>
      Eval(gs, SlotValues(gs, k), InitVals(GroupSlots(gs))[j]) == Some(SlotValues(gs, 0)[j])
    ensures forall j :: 0 <= j < |GroupSlots(gs)| ==>
      Eval(gs, SlotValues(gs, k), UpdatedVals(GroupSlots(gs))[j]) == Some(SlotValues(gs, k + 1)[j])
  {
    GroupSlotsDistinct(gs);
    PhaseSlotsOfTMAGroups(gs);
    var cur := SlotValues(gs, k);
    forall j | 0 <= j < |GroupSlots(gs)|
      ensures Eval(gs, cur, UpdatedVals(GroupSlots(gs))[j]) == Some(SlotValues(gs, k + 1)[j])
    {
      var s := GroupSlots(gs)[j];
      CountersAtSlotValues(gs, s.group, k);
    }
  }

  /** The yield operands `ys` of the group slots take the slot values after `k` iterations to those after `k + 1`. */
  predicate StepsSlots(gs: seq<StageGroup>, k: nat, ys: seq<Val>) {
    && |GroupSlots(gs)| <= |ys|
    && forall j :: 0 <= j < |GroupSlots(gs)| ==> Eval(gs, SlotValues(gs, k), ys[j]) == Some(SlotValues(gs, k + 1)[j])
  }

  /**
   * Loads that share a buffer count share one stage group, and once that
   * count is positive the group's indices cycle over it: iteration `k`
   * (counting from 1) uses slot `(k - 1) mod numBuffers`, and a phase, when
   * the group has one, is the parity of the completed rotations.
   */
  lemma LoadCountersCycle(ls: seq<AsyncLoad>, i: nat, k: nat)
    requires i < |ls| && ls[i].numBuffers >= 1 && k >= 1
    ensures var gs := GroupsOf(ls);
      var g := GroupIndex(gs, ls[i].numBuffers);
      && g.Some?
      && (forall i' :: 0 <= i' < |ls| && ls[i'].numBuffers == ls[i].numBuffers ==> GroupIndex(gs, ls[i'].numBuffers) == g)
      && SlotValue(gs, InsertIdx(g.value), k) == (k - 1) % ls[i].numBuffers
      && SlotValue(gs, ExtractIdx(g.value), k) == (k - 1) % ls[i].numBuffers
      && (gs[g.value].hasTMALoad ==> SlotValue(gs, Phase(g.value), k) == ((k - 1) / ls[i].numBuffers) % 2)
  {
    GroupsKeyed(ls);
    RingCounters.RunClosedForm(ls[i].numBuffers, k);
  }

  /** The loop being pipelined: its init values and its yield operands, one per carried argument. */
  class ForLoop {
    var initArgs: seq<Val>
    var yieldOperands: seq<Val>

    predicate Valid()
      reads this
    {
      |initArgs| == |yieldOperands|
    }

    /** The body block's arguments: the induction variable, then one per carried value. */
    function NumBodyArgs(): nat
      reads this
    {
      1 + |initArgs|
    }

    constructor(initArgs: seq<Val>, yieldOperands: seq<Val>)
      requires |initArgs| == |yieldOperands|
      ensures Valid()
      ensures this.initArgs == initArgs && this.yieldOperands == yieldOperands
    {
      this.initArgs := initArgs;
      this.yieldOperands := yieldOperands;
    }
  }

  lemma InitValsAppend(a: seq<Slot>, b: seq<Slot>)
    ensures InitVals(a + b) == InitVals(a) + InitVals(b)
  {
    assert |InitVals(a + b)| == |InitVals(a) + InitVals(b)|;
    forall k | 0 <= k < |a + b|
      ensures InitVals(a + b)[k] == (InitVals(a) + InitVals(b))[k]
    {
    }
  }

  /**
   * The operands createAsyncOps appends to the loop: per stage group -1, -1
   * and, with a descriptor load, 0; then a 0 per descriptor buffer. The
   * descriptor counters start right after the group slots.
   */
  method NewOperands(stageGroups: seq<StageGroup>, numDesc: nat) returns (newOperands: seq<Val>, numGroupSlots: nat)
    ensures newOperands == InitVals(Slots(stageGroups, numDesc))
    ensures numGroupSlots == |GroupSlots(stageGroups)|
  {
    newOperands := [];
    for g := 0 to |stageGroups|
      invariant newOperands == InitVals(GroupSlots(stageGroups[..g]))
    {
      ghost var done := GroupSlots(stageGroups[..g]);
      ghost var slots := SlotsOfGroup(g, stageGroups[g]);
      assert GroupSlots(stageGroups[..g + 1]) == done + slots by {
        assert stageGroups[..g + 1][..g] == stageGroups[..g];
      }
      InitValsAppend(done, slots);
      newOperands := newOperands + [Const(-1), Const(-1)];
      if stageGroups[g].hasTMALoad {
        newOperands := newOperands + [Const(0)];
        assert InitVals(slots) == [Const(-1), Const(-1), Const(0)];
      } else {
        assert InitVals(slots) == [Const(-1), Const(-1)];
      }
    }
    assert stageGroups[..|stageGroups|] == stageGroups;
    numGroupSlots := |newOperands|;
    for d := 0 to numDesc
      invariant newOperands == InitVals(GroupSlots(stageGroups) + DescSlots(d))
    {
      assert GroupSlots(stageGroups) + DescSlots(d + 1) == (GroupSlots(stageGroups) + DescSlots(d)) + [DescIdx(d)];
      InitValsAppend(GroupSlots(stageGroups) + DescSlots(d), [DescIdx(d)]);
      newOperands := newOperands + [Const(0)];
    }
  }

  /**
   * One iteration of the patching loop: the yield operands of stage group
   * `g`'s slots become its updated insert index, extract index and, with a
   * descriptor load, phase; the running index moves past them.
   */
  method PatchGroup(loop: ForLoop, stageGroups: seq<StageGroup>, g: nat, argIdx: nat,
                    ghost y0: seq<Val>, ghost newOperands: seq<Val>) returns (next: nat)
    requires g < |stageGroups| && |GroupSlots(stageGroups)| <= |newOperands|
    requires argIdx == |y0| + Offset(stageGroups, g) && Offset(stageGroups, g) <= |GroupSlots(stageGroups)|
    requires PatchedUpTo(loop.yieldOperands, y0, GroupSlots(stageGroups), newOperands, Offset(stageGroups, g))
    modifies loop
    ensures next == |y0| + Offset(stageGroups, g + 1) && Offset(stageGroups, g + 1) <= |GroupSlots(stageGroups)|
    ensures PatchedUpTo(loop.yieldOperands, y0, GroupSlots(stageGroups), newOperands, Offset(stageGroups, g + 1))
    ensures loop.initArgs == old(loop.initArgs)
  {
    GroupSlotsAt(stageGroups, g);
    next := argIdx;
    loop.yieldOperands := loop.yieldOperands[next := Updated(InsertIdx(g))];
    next := next + 1;
    loop.yieldOperands := loop.yieldOperands[next := Updated(ExtractIdx(g))];
    next := next + 1;
    if stageGroups[g].hasTMALoad {
      loop.yieldOperands := loop.yieldOperands[next := Updated(Phase(g))];
      next := next + 1;
    }
  }

  /**
   * The loop-rewriting part of createAsyncOps: append the groups' slots and
   * the descriptor counters to the loop with their initial values, yield the
   * same temporaries, then patch the group slots of the yield with their
   * updated values through a running index that ends exactly before the
   * first descriptor counter. The descriptor counters' yield operands are
   * patched by rewriteTMABufferUpdates.
   */
  method CreateCarriedState(loop: ForLoop, stageGroups: seq<StageGroup>, numDesc: nat)
    returns (tmaCounterArgsStartIdx: nat)
    requires loop.Valid()
    modifies loop
    ensures loop.Valid()
    ensures loop.initArgs == old(loop.initArgs) + InitVals(Slots(stageGroups, numDesc))
    ensures loop.yieldOperands ==
      old(loop.yieldOperands) + UpdatedVals(GroupSlots(stageGroups)) + InitVals(DescSlots(numDesc))
    ensures tmaCounterArgsStartIdx == old(loop.NumBodyArgs()) + |GroupSlots(stageGroups)|
    ensures forall j :: 0 <= j < |GroupSlots(stageGroups)| ==>
      Eval(stageGroups, SlotValues(stageGroups, 0), loop.initArgs[|old(loop.initArgs)| + j]) == Some(SlotValues(stageGroups, 0)[j])
    ensures forall k: nat :: StepsSlots(stageGroups, k, loop.yieldOperands[|old(loop.yieldOperands)|..])
  {
    var newOperandIndex := loop.NumBodyArgs();
    var newOperands, numGroupSlots := NewOperands(stageGroups, numDesc);
    tmaCounterArgsStartIdx := newOperandIndex + numGroupSlots;

    loop.initArgs := loop.initArgs + newOperands;
    loop.yieldOperands := loop.yieldOperands + newOperands;

    ghost var y0 := old(loop.yieldOperands);
    ghost var all := GroupSlots(stageGroups);
    GroupSlotsLength(stageGroups);
    var argIdx := newOperandIndex - 1;
    for g := 0 to |stageGroups|
      invariant argIdx == |y0| + Offset(stageGroups, g)
      invariant Offset(stageGroups, g) <= |all|
      invariant loop.initArgs == old(loop.initArgs) + newOperands
      invariant PatchedUpTo(loop.yieldOperands, y0, all, newOperands, Offset(stageGroups, g))
    {
      argIdx := PatchGroup(loop, stageGroups, g, argIdx, y0, newOperands);
    }
    assert stageGroups[..|stageGroups|] == stageGroups;
    assert argIdx + 1 == tmaCounterArgsStartIdx;
    PatchedAll(loop.yieldOperands, y0, all, newOperands);
    assert newOperands[|all|..] == InitVals(DescSlots(numDesc));
    CarriedYield(stageGroups, numDesc, old(loop.initArgs), y0, loop.initArgs, loop.yieldOperands);
  }

  /** The init list and the yield createAsyncOps leaves start every group slot at its first value and step it once per iteration. */
  lemma CarriedYield(gs: seq<StageGroup>, numDesc: nat, i0: seq<Val>, y0: seq<Val>, initArgs: seq<Val>, y: seq<Val>)
    requires initArgs == i0 + InitVals(Slots(gs, numDesc))
    requires y == y0 + UpdatedVals(GroupSlots(gs)) + InitVals(DescSlots(numDesc))
    ensures forall j :: 0 <= j < |GroupSlots(gs)| ==>
      Eval(gs, SlotValues(gs, 0), initArgs[|i0| + j]) == Some(SlotValues(gs, 0)[j])
    ensures forall k: nat :: StepsSlots(gs, k, y[|y0|..])
  {
    CarriedCountersStep(gs, 0);
    forall j | 0 <= j < |GroupSlots(gs)|
      ensures initArgs[|i0| + j] == InitVals(GroupSlots(gs))[j]
    {
      assert initArgs[|i0| + j] == InitVals(Slots(gs, numDesc))[j];
    }
    forall k: nat
      ensures StepsSlots(gs, k, y[|y0|..])
    {
      CarriedCountersStep(gs, k);
      assert y[|y0|..][..|GroupSlots(gs)|] == UpdatedVals(GroupSlots(gs));
    }
  }
}
