/**
 * Which loads of the loop body are pipelined, and the `LoadInfo` record each
 * one gets: the selection part of `assignMemoryLayouts`, and the distance to
 * first use filled in before `createAsyncOps`.
 *
 * Encodings are opaque tokens. What the foreign helpers answer for a load
 * (its transitive users in the block, `getSharedEncoding`,
 * `getSharedEncIfAllUsersAreDotEnc`, `getBlockedEncoding`) is an input.
 */
module LoadSelection {
  import opened Wrappers
  import opened Ir
  import opened FirstUse

  /** An opaque layout token. */
  datatype Enc = Enc(id: nat)

  /** The answers of the foreign layout helpers for one load. */
  datatype LayoutOracle = LayoutOracle(
    transitiveUsers: seq<nat>,   // getTransitiveUserInBlock
    sharedEnc: Option<Enc>,      // getSharedEncoding(load, isTMALoad)
    dotSharedEnc: Option<Enc>,   // getSharedEncIfAllUsersAreDotEnc
    blockedEnc: Enc)             // getBlockedEncoding

  datatype LoadInfo = LoadInfo(
    sharedEncoding: Option<Enc>,
    blockedEncoding: Option<Enc>,
    isMMAv3Shared: bool,
    isMMAv5Scale: bool,
    distToUse: int,
    usedByDot: bool)

  const EmptyInfo := LoadInfo(None, None, false, false, 0, false)

  /** The load has exactly one use, a local_alloc with an NVMMA shared encoding. */
  predicate IsMMAv3Buffer(ops: Arena, i: nat)
    requires i < |ops| && UsersInArena(ops)
  {
    |ops[i].users| == 1 && ops[ops[i].users[0]].kind == LocalAlloc(true)
  }

  /** The encoding the dot branch assigns for a dot user. */
  function DotBranchEnc(mmav3: bool, isTMA: bool, o: LayoutOracle): Option<Enc> {
    if mmav3 || isTMA then o.sharedEnc else o.dotSharedEnc
  }

  /** One iteration of the loop over the transitive users. */
  function UseStep(info: LoadInfo, use: OpKind, mmav3: bool, isTMA: bool, isPlainLoad: bool,
                   o: LayoutOracle): LoadInfo
  {
    var afterDot :=
      if use.Dot? then info.(usedByDot := true, isMMAv3Shared := mmav3,
                             sharedEncoding := DotBranchEnc(mmav3, isTMA, o))
      else info;
    if afterDot.sharedEncoding.Some? then afterDot
    else afterDot.(sharedEncoding := o.sharedEnc,
                   isMMAv5Scale := afterDot.isMMAv5Scale || use == Dot(true),
                   blockedEncoding := if isPlainLoad then Some(o.blockedEnc) else afterDot.blockedEncoding)
  }

  predicate KindsInArena(ops: Arena, us: seq<nat>) {
    forall k :: 0 <= k < |us| ==> us[k] < |ops|
  }

  predicate SomeDot(ops: Arena, us: seq<nat>)
    requires KindsInArena(ops, us)
  {
    exists k :: 0 <= k < |us| && ops[us[k]].kind.Dot?
  }

  predicate SomeScaledDot(ops: Arena, us: seq<nat>)
    requires KindsInArena(ops, us)
  {
    exists k :: 0 <= k < |us| && ops[us[k]].kind == Dot(true)
  }

  /** The record after visiting the users `us` in order. */
  function InfoAfter(ops: Arena, us: seq<nat>, mmav3: bool, isTMA: bool, isPlainLoad: bool,
                     o: LayoutOracle): LoadInfo
    requires KindsInArena(ops, us)
    decreases |us|
  {
    if us == [] then EmptyInfo
    else UseStep(InfoAfter(ops, us[..|us| - 1], mmav3, isTMA, isPlainLoad, o),
                 ops[us[|us| - 1]].kind, mmav3, isTMA, isPlainLoad, o)
  }

  /**
   * What the users loop computes: a dot user marks the load used by a dot (and
   * MMAv3-shared exactly when the load is an MMAv3 buffer); a shared encoding
   * is found exactly when there is a user and either the generic encoding
   * exists or a dot user supplies the dot-compatible one; the MMAv5-scale flag
   * is set exactly when a scaled-MMA user found no encoding in the dot branch;
   * only a plain load gets a blocked fallback encoding.
   */
  lemma {:induction false} InfoAfterFacts(ops: Arena, us: seq<nat>, mmav3: bool, isTMA: bool,
                                          isPlainLoad: bool, o: LayoutOracle)
    requires KindsInArena(ops, us)
    requires mmav3 && SomeDot(ops, us) ==> o.sharedEnc.Some?
    ensures var r := InfoAfter(ops, us, mmav3, isTMA, isPlainLoad, o);
      && (r.usedByDot <==> SomeDot(ops, us))
      && (r.isMMAv3Shared <==> SomeDot(ops, us) && mmav3)
      && (r.sharedEncoding.Some? <==>
            |us| > 0 && (o.sharedEnc.Some? || (SomeDot(ops, us) && DotBranchEnc(mmav3, isTMA, o).Some?)))
      && (r.isMMAv5Scale <==> SomeScaledDot(ops, us) && DotBranchEnc(mmav3, isTMA, o).None?)
      && (r.blockedEncoding.Some? ==> isPlainLoad && r.blockedEncoding == Some(o.blockedEnc))
      && r.distToUse == 0
    decreases |us|
  {
    if us == [] {
      return;
    }
    var pre := us[..|us| - 1];
    var u := us[|us| - 1];
    var r0 := InfoAfter(ops, pre, mmav3, isTMA, isPlainLoad, o);
    assert mmav3 && SomeDot(ops, pre) ==> o.sharedEnc.Some? by {
      SomeDotStep(ops, us);
    }
    assert
      && (r0.usedByDot <==> SomeDot(ops, pre))
      && (r0.isMMAv3Shared <==> SomeDot(ops, pre) && mmav3)
      && (r0.sharedEncoding.Some? <==>
            |pre| > 0 && (o.sharedEnc.Some? || (SomeDot(ops, pre) && DotBranchEnc(mmav3, isTMA, o).Some?)))
      && (r0.isMMAv5Scale <==> SomeScaledDot(ops, pre) && DotBranchEnc(mmav3, isTMA, o).None?)
      && (r0.blockedEncoding.Some? ==> isPlainLoad && r0.blockedEncoding == Some(o.blockedEnc))
      && r0.distToUse == 0
    by {
      InfoAfterFacts(ops, pre, mmav3, isTMA, isPlainLoad, o);
    }
    SomeDotStep(ops, us);
    SomeScaledDotStep(ops, us);
    assert InfoAfter(ops, us, mmav3, isTMA, isPlainLoad, o) == UseStep(r0, ops[u].kind, mmav3, isTMA, isPlainLoad, o);
  }

  /** A dot among the users is a dot among all but the last, or the last. */
  lemma SomeDotStep(ops: Arena, us: seq<nat>)
    requires KindsInArena(ops, us) && |us| > 0
    ensures KindsInArena(ops, us[..|us| - 1])
    ensures SomeDot(ops, us) <==> SomeDot(ops, us[..|us| - 1]) || ops[us[|us| - 1]].kind.Dot?
  {
    var pre := us[..|us| - 1];
    if SomeDot(ops, pre) {
      var k :| 0 <= k < |pre| && ops[pre[k]].kind.Dot?;
      assert us[k] == pre[k];
    }
    if SomeDot(ops, us) && !ops[us[|us| - 1]].kind.Dot? {
      var k :| 0 <= k < |us| && ops[us[k]].kind.Dot?;
      assert k < |pre| && us[k] == pre[k];
    }
  }

  /** A scaled dot among the users is one among all but the last, or the last. */
  lemma SomeScaledDotStep(ops: Arena, us: seq<nat>)
    requires KindsInArena(ops, us) && |us| > 0
    ensures KindsInArena(ops, us[..|us| - 1])
    ensures SomeScaledDot(ops, us) <==> SomeScaledDot(ops, us[..|us| - 1]) || ops[us[|us| - 1]].kind == Dot(true)
  {
    var pre := us[..|us| - 1];
    if SomeScaledDot(ops, pre) {
      var k :| 0 <= k < |pre| && ops[pre[k]].kind == Dot(true);
      assert us[k] == pre[k];
    }
    if SomeScaledDot(ops, us) && ops[us[|us| - 1]].kind != Dot(true) {
      var k :| 0 <= k < |us| && ops[us[k]].kind == Dot(true);
      assert k < |pre| && us[k] == pre[k];
    }
  }

  /** The record `assignMemoryLayouts` builds for op `i`. */
  function InfoOf(ops: Arena, orc: seq<LayoutOracle>, i: nat): LoadInfo
    requires i < |ops| == |orc| && UsersInArena(ops) && KindsInArena(ops, orc[i].transitiveUsers)
  {
    InfoAfter(ops, orc[i].transitiveUsers, IsMMAv3Buffer(ops, i), IsDescriptorKind(ops[i].kind),
              ops[i].kind == Load, orc[i])
  }

  /** How the stage check treats a staged load, given its first use. */
  datatype Verdict = Skip | Candidate | NullDereference

  /**
   * The stage check at lines 509-515 as written: a load without an in-block
   * user has a null first use, which `maybeGetStageCluster` dereferences.
   */
  function ClassifyAsWritten(ops: Arena, load: nat, first: Option<nat>): (v: Verdict)
    requires load < |ops| && Annotated(ops[load])
    requires first.Some? ==> first.value < |ops|
    ensures v == NullDereference <==> first.None?
  {
    if first.None? then NullDereference
    else if !Annotated(ops[first.value]) || ops[first.value].stage.value == ops[load].stage.value then Skip
    else Candidate
  }

  /**
   * The stage check with the null first use skipped, as the surrounding code
   * intends. A first use found by `GetFirstUseOfPipelinedLoad` is always
   * annotated, since every in-block user is (the source reads the stage of
   * each at line 105), so the "not annotated" test here is never the one
   * that skips a load.
   */
  function Classify(ops: Arena, load: nat, first: Option<nat>): (v: Verdict)
    requires load < |ops| && Annotated(ops[load])
    requires first.Some? ==> first.value < |ops|
    ensures v == Candidate <==>
              first.Some? && Annotated(ops[first.value]) && ops[first.value].stage != ops[load].stage
    ensures v != NullDereference
    ensures first.Some? ==> v == ClassifyAsWritten(ops, load, first)
  {
    if first.None? then Skip
    else if !Annotated(ops[first.value]) || ops[first.value].stage.value == ops[load].stage.value then Skip
    else Candidate
  }

  /** The op is a load of the body carrying a stage attribute. */
  predicate StagedBodyLoad(ops: Arena, bodyBlock: nat, i: nat)
    requires i < |ops|
  {
    ops[i].block == bodyBlock && IsLoadKind(ops[i].kind) && ops[i].stage.Some?
  }

  /** A staged load in the body: reading its attributes and its users' attributes is defined. */
  predicate StagedLoadReadable(ops: Arena, bodyBlock: nat, i: nat)
    requires i < |ops| && UsersInArena(ops)
  {
    StagedBodyLoad(ops, bodyBlock, i) ==> Annotated(ops[i]) && InBlockUsersAnnotated(ops, i)
  }

  /** The inputs `assignMemoryLayouts` can read without tripping an assertion. */
  predicate LayoutInputsOk(ops: Arena, bodyBlock: nat, orc: seq<LayoutOracle>) {
    && |orc| == |ops|
    && UsersInArena(ops)
    && (forall i :: 0 <= i < |ops| ==> StagedLoadReadable(ops, bodyBlock, i))
    && (forall i :: 0 <= i < |ops| ==> KindsInArena(ops, orc[i].transitiveUsers))
    && (forall i :: 0 <= i < |ops| && IsMMAv3Buffer(ops, i) && SomeDot(ops, orc[i].transitiveUsers) ==>
          orc[i].sharedEnc.Some?)
  }

  /** Op `i` is selected for pipelining. */
  predicate Pipelined(ops: Arena, bodyBlock: nat, orc: seq<LayoutOracle>, i: nat)
    requires LayoutInputsOk(ops, bodyBlock, orc) && i < |ops|
  {
    && StagedBodyLoad(ops, bodyBlock, i)
    && Annotated(ops[i]) && InBlockUsersAnnotated(ops, i)
    && Classify(ops, i, FirstUseOf(ops, i)) == Candidate
    && InfoOf(ops, orc, i).sharedEncoding.Some?
  }

  /** The selected ops among the first `n`, in program order. */
  function PipelinedUpTo(ops: Arena, bodyBlock: nat, orc: seq<LayoutOracle>, n: nat): seq<nat>
    requires LayoutInputsOk(ops, bodyBlock, orc) && n <= |ops|
  {
    if n == 0 then []
    else PipelinedUpTo(ops, bodyBlock, orc, n - 1) + (if Pipelined(ops, bodyBlock, orc, n - 1) then [n - 1] else [])
  }

  /** The selected ops, in increasing order and without repetition, are exactly the ones `Pipelined` accepts. */
  lemma {:induction false} PipelinedUpToExact(ops: Arena, bodyBlock: nat, orc: seq<LayoutOracle>, n: nat)
    requires LayoutInputsOk(ops, bodyBlock, orc) && n <= |ops|
    ensures var s := PipelinedUpTo(ops, bodyBlock, orc, n);
      && (forall i: nat :: i in s <==> i < n && Pipelined(ops, bodyBlock, orc, i))
      && (forall a, b :: 0 <= a < b < |s| ==> s[a] < s[b])
  {
    if n > 0 {
      PipelinedUpToExact(ops, bodyBlock, orc, n - 1);
      var pre := PipelinedUpTo(ops, bodyBlock, orc, n - 1);
      var s := PipelinedUpTo(ops, bodyBlock, orc, n);
      forall a, b | 0 <= a < b < |s| ensures s[a] < s[b] {
        if b == |pre| {
          assert pre[a] in pre;
        }
      }
    }
  }

  /**
   * assignMemoryLayouts, selection part: visit the body's ops in order and keep
   * every staged load whose first use is in a different stage and for which a
   * shared encoding was found, with its `LoadInfo`; all other ops are skipped
   * silently.
   */
  method AssignMemoryLayouts(ops: Arena, bodyBlock: nat, orc: seq<LayoutOracle>)
    returns (loadToInfo: seq<(nat, LoadInfo)>)
    requires LayoutInputsOk(ops, bodyBlock, orc)
    ensures |loadToInfo| == |PipelinedUpTo(ops, bodyBlock, orc, |ops|)|
    ensures forall k :: 0 <= k < |loadToInfo| ==>
              && loadToInfo[k].0 == PipelinedUpTo(ops, bodyBlock, orc, |ops|)[k]
              && loadToInfo[k].0 < |ops|
              && loadToInfo[k].1 == InfoOf(ops, orc, loadToInfo[k].0)
  {
    loadToInfo := [];
    for i := 0 to |ops|
      invariant |loadToInfo| == |PipelinedUpTo(ops, bodyBlock, orc, i)|
      invariant forall k :: 0 <= k < |loadToInfo| ==>
                  && loadToInfo[k].0 == PipelinedUpTo(ops, bodyBlock, orc, i)[k]
                  && loadToInfo[k].0 < |ops|
                  && loadToInfo[k].1 == InfoOf(ops, orc, loadToInfo[k].0)
    {
      assert StagedLoadReadable(ops, bodyBlock, i);
      if !StagedBodyLoad(ops, bodyBlock, i) {
        continue;
      }
      var firstUse := GetFirstUseOfPipelinedLoad(ops, i);
      if Classify(ops, i, firstUse) != Candidate {
        continue;
      }
      var mmav3 := IsMMAv3Buffer(ops, i);
      var isTMA := IsDescriptorKind(ops[i].kind);
      var users := orc[i].transitiveUsers;
      var info := EmptyInfo;
      for j := 0 to |users|
        invariant info == InfoAfter(ops, users[..j], mmav3, isTMA, ops[i].kind == Load, orc[i])
      {
        assert users[..j + 1][..j] == users[..j];
        info := UseStep(info, ops[users[j]].kind, mmav3, isTMA, ops[i].kind == Load, orc[i]);
      }
      assert users[..|users|] == users;
      if info.sharedEncoding.None? {
        continue;
      }
      loadToInfo := loadToInfo + [(i, info)];
    }
  }

  /**
   * The distance loop before `createAsyncOps`: each selected load's
   * `distToUse` becomes the stage of its first use minus its own stage.
   */
  method AssignDistances(ops: Arena, bodyBlock: nat, orc: seq<LayoutOracle>, loadToInfo: seq<(nat, LoadInfo)>)
    returns (res: seq<(nat, LoadInfo)>)
    requires LayoutInputsOk(ops, bodyBlock, orc)
    requires forall k :: 0 <= k < |loadToInfo| ==>
               loadToInfo[k].0 < |ops| && Pipelined(ops, bodyBlock, orc, loadToInfo[k].0)
    ensures |res| == |loadToInfo|
    ensures forall k :: 0 <= k < |loadToInfo| ==> DistanceAssigned(ops, bodyBlock, orc, loadToInfo[k], res[k])
  {
    res := [];
    for k := 0 to |loadToInfo|
      invariant |res| == k
      invariant forall m :: 0 <= m < k ==> DistanceAssigned(ops, bodyBlock, orc, loadToInfo[m], res[m])
    {
      var load := loadToInfo[k].0;
      var use := GetFirstUseOfPipelinedLoad(ops, load);
      var stage := GetStageCluster(ops[load]).stage;
      var stageUse := GetStageCluster(ops[use.value]).stage;
      res := res + [(load, loadToInfo[k].1.(distToUse := stageUse - stage))];
    }
  }

  /** `after` is `before` with `distToUse` set to the stage of the first use minus the load's stage, which is never 0. */
  predicate DistanceAssigned(ops: Arena, bodyBlock: nat, orc: seq<LayoutOracle>,
                             before: (nat, LoadInfo), after: (nat, LoadInfo))
    requires LayoutInputsOk(ops, bodyBlock, orc)
    requires before.0 < |ops| && Pipelined(ops, bodyBlock, orc, before.0)
  {
    && after.0 == before.0
    && FirstUseOf(ops, before.0).Some?
    && after.1 == before.1.(distToUse := ops[FirstUseOf(ops, before.0).value].stage.value - ops[before.0].stage.value)
    && after.1.distToUse != 0
  }

  /** The ring-buffer depth `createAsyncOps` gives a load: its distance, one more for MMAv3-shared or MMAv5-scale loads. */
  function NumBuffers(info: LoadInfo): (n: int)
    ensures n - info.distToUse == (if info.isMMAv3Shared || info.isMMAv5Scale then 1 else 0)
  {
    if info.isMMAv3Shared || info.isMMAv5Scale then info.distToUse + 1 else info.distToUse
  }

  /**
   * The ring-buffer depth of a selected load: the stage distance to its first
   * use, plus one exactly when the load is an MMAv3 buffer feeding a dot, or
   * feeds a scaled MMA while the dot branch found no encoding.
   */
  lemma BufferDepth(ops: Arena, bodyBlock: nat, orc: seq<LayoutOracle>, before: (nat, LoadInfo), after: (nat, LoadInfo))
    requires LayoutInputsOk(ops, bodyBlock, orc)
    requires before.0 < |ops| && Pipelined(ops, bodyBlock, orc, before.0)
    requires before.1 == InfoOf(ops, orc, before.0)
    requires DistanceAssigned(ops, bodyBlock, orc, before, after)
    ensures NumBuffers(after.1) ==
      ops[FirstUseOf(ops, before.0).value].stage.value - ops[before.0].stage.value
      + (if (IsMMAv3Buffer(ops, before.0) && SomeDot(ops, orc[before.0].transitiveUsers))
            || (SomeScaledDot(ops, orc[before.0].transitiveUsers)
                && DotBranchEnc(IsMMAv3Buffer(ops, before.0), IsDescriptorKind(ops[before.0].kind), orc[before.0]).None?)
         then 1 else 0)
  {
    var i := before.0;
    InfoAfterFacts(ops, orc[i].transitiveUsers, IsMMAv3Buffer(ops, i), IsDescriptorKind(ops[i].kind),
                   ops[i].kind == Load, orc[i]);
  }

  /** A staged load whose only user sits in a nested block: the stage check dereferences a null first use. */
  lemma NullFirstUseDereferenced()
    ensures var ops := [Op(Load, 0, Some(0), Some(0), [1]), Op(Other, 1, Some(1), Some(0), [])];
      && UsersInArena(ops) && InBlockUsersAnnotated(ops, 0)
      && FirstUseOf(ops, 0).None?
      && ClassifyAsWritten(ops, 0, FirstUseOf(ops, 0)) == NullDereference
      && Classify(ops, 0, FirstUseOf(ops, 0)) == Skip
  {
    var ops := [Op(Load, 0, Some(0), Some(0), [1]), Op(Other, 1, Some(1), Some(0), [])];
    assert ops[0].users[..0] == [];
    assert FirstUseIn(ops, 0, [1]) == FirstUseIn(ops, 0, []);
  }
}
