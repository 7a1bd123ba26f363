/**
 * The first use of a pipelined load: among the load's users that sit in the
 * load's own block, the one with the least `(stage, cluster)`; on a tie the
 * user met first in the use list is kept; none when no user is in the block.
 */
module FirstUse {
  import opened Wrappers
  import opened Ir

  /** The users in `us` address ops of the arena, and those in block `blk` are annotated. */
  predicate UsesReadable(ops: Arena, blk: nat, us: seq<nat>) {
    && (forall k :: 0 <= k < |us| ==> us[k] < |ops|)
    && (forall k :: 0 <= k < |us| && ops[us[k]].block == blk ==> Annotated(ops[us[k]]))
  }

  /** The candidate kept after visiting the users `us` in order, as the loop does. */
  function FirstUseIn(ops: Arena, blk: nat, us: seq<nat>): (r: Option<nat>)
    requires UsesReadable(ops, blk, us)
    ensures r.Some? ==> r.value in us && r.value < |ops| && ops[r.value].block == blk && Annotated(ops[r.value])
    decreases |us|
  {
    if us == [] then None
    else
      var prev := FirstUseIn(ops, blk, us[..|us| - 1]);
      var u := us[|us| - 1];
      if ops[u].block != blk then prev
      else if prev.None? then Some(u)
      else if Precedes(GetStageCluster(ops[u]), GetStageCluster(ops[prev.value])) then Some(u)
      else prev
  }

  /** The first use of op `load`, or None. */
  function FirstUseOf(ops: Arena, load: nat): Option<nat>
    requires load < |ops| && UsersInArena(ops) && InBlockUsersAnnotated(ops, load)
  {
    FirstUseIn(ops, ops[load].block, ops[load].users)
  }

  /** `r` is the user at position `k` of `us` and it is the least in-block user, the first one on a tie. */
  predicate LeastAt(ops: Arena, blk: nat, us: seq<nat>, r: nat, k: nat)
    requires UsesReadable(ops, blk, us)
  {
    && k < |us| && us[k] == r && ops[r].block == blk
    && (forall j :: 0 <= j < k && ops[us[j]].block == blk ==>
          Precedes(GetStageCluster(ops[r]), GetStageCluster(ops[us[j]])))
    && (forall j :: k <= j < |us| && ops[us[j]].block == blk ==>
          !Precedes(GetStageCluster(ops[us[j]]), GetStageCluster(ops[r])))
  }

  /**
   * The fold finds nothing exactly when no user is in the block; otherwise it
   * finds the user with the lexicographically least `(stage, cluster)`, and
   * every user listed before it has a strictly later pair (so on ties the
   * earliest-visited user wins).
   */
  lemma FirstUseIsLeast(ops: Arena, blk: nat, us: seq<nat>)
    requires UsesReadable(ops, blk, us)
    ensures FirstUseIn(ops, blk, us).None? <==> forall k :: 0 <= k < |us| ==> ops[us[k]].block != blk
    ensures FirstUseIn(ops, blk, us).Some? ==>
              exists k :: LeastAt(ops, blk, us, FirstUseIn(ops, blk, us).value, k)
  {
    FirstUseNone(ops, blk, us);
    if FirstUseIn(ops, blk, us).Some? {
      var k := FirstUseLeastAt(ops, blk, us);
    }
  }

  /** The fold finds nothing exactly when no user is in the block. */
  lemma {:induction false} FirstUseNone(ops: Arena, blk: nat, us: seq<nat>)
    requires UsesReadable(ops, blk, us)
    ensures FirstUseIn(ops, blk, us).None? <==> forall k :: 0 <= k < |us| ==> ops[us[k]].block != blk
    decreases |us|
  {
    if us != [] {
      var pre := us[..|us| - 1];
      assert UsesReadable(ops, blk, pre);
      assert FirstUseIn(ops, blk, pre).None? <==> forall k :: 0 <= k < |pre| ==> ops[pre[k]].block != blk by {
        FirstUseNone(ops, blk, pre);
      }
      forall k | 0 <= k < |pre|
        ensures us[k] == pre[k]
      {
      }
    }
  }

  /** Where the user the fold finds sits in the use list: the least in-block user, the first one on a tie. */
  lemma {:induction false} FirstUseLeastAt(ops: Arena, blk: nat, us: seq<nat>) returns (k: nat)
    requires UsesReadable(ops, blk, us) && FirstUseIn(ops, blk, us).Some?
    ensures LeastAt(ops, blk, us, FirstUseIn(ops, blk, us).value, k)
    decreases |us|
  {
    var pre := us[..|us| - 1];
    var u := us[|us| - 1];
    assert UsesReadable(ops, blk, pre);
    var prev := FirstUseIn(ops, blk, pre);
    forall j | 0 <= j < |pre|
      ensures us[j] == pre[j]
    {
    }
    if ops[u].block != blk {
      k := FirstUseLeastAt(ops, blk, pre);
    } else if prev.None? {
      FirstUseNone(ops, blk, pre);
      k := |us| - 1;
    } else if Precedes(GetStageCluster(ops[u]), GetStageCluster(ops[prev.value])) {
      var kp := FirstUseLeastAt(ops, blk, pre);
      forall j | 0 <= j < |us| - 1 && ops[us[j]].block == blk
        ensures Precedes(GetStageCluster(ops[u]), GetStageCluster(ops[us[j]]))
      {
        if j >= kp {
          assert !Precedes(GetStageCluster(ops[pre[j]]), GetStageCluster(ops[prev.value]));
        } else {
          assert Precedes(GetStageCluster(ops[prev.value]), GetStageCluster(ops[pre[j]]));
        }
      }
      k := |us| - 1;
    } else {
      k := FirstUseLeastAt(ops, blk, pre);
    }
  }

  /** getFirstUseOfPipelinedLoad: a single pass over the use list keeping the best candidate. */
  method GetFirstUseOfPipelinedLoad(ops: Arena, load: nat) returns (firstUser: Option<nat>)
    requires load < |ops| && UsersInArena(ops) && InBlockUsersAnnotated(ops, load)
    ensures firstUser == FirstUseOf(ops, load)
  {
    var users := ops[load].users;
    var blk := ops[load].block;
    firstUser := None;
    for i := 0 to |users|
      invariant UsesReadable(ops, blk, users[..i])
      invariant firstUser == FirstUseIn(ops, blk, users[..i])
    {
      assert users[..i + 1][..i] == users[..i];
      var user := users[i];
      if ops[user].block == blk {
        var sc := GetStageCluster(ops[user]);
        if firstUser.None? {
          firstUser := Some(user);
        } else {
          var best := GetStageCluster(ops[firstUser.value]);
          if sc.stage < best.stage || (sc.stage == best.stage && sc.cluster < best.cluster) {
            firstUser := Some(user);
          }
        }
      }
    }
    assert users[..|users|] == users;
  }
}
