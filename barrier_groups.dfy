/**
 * createTMABarrierAndWait: descriptor loads that may share one mbarrier are
 * grouped by a greedy forward scan over the loop body, and the barrier of
 * each group expects the total byte size of its members.
 */
module BarrierGroups {
  import opened Wrappers
  import opened Ir
  import opened CarriedState

  /**
   * What the grouping reads of one async load: its `AsyncLoad` record, its
   * position in the loop body, its `(stage, cluster)`, the body positions of
   * its recorded users (the alloc's users for an MMAv3 load whose alloc is in
   * the body, otherwise the body ancestors of its users), its result's shape
   * and element bit width, and the `(stage, cluster)` of its first use
   * (`firstUseStage` and `firstUseCluster` of its `AsyncLoad`).
   */
  datatype BarrierLoad = BarrierLoad(a: AsyncLoad, pos: nat, sc: StageCluster, users: set<nat>,
                                     shape: seq<nat>, bitWidth: nat, firstUseSc: StageCluster)

  /** The loop body: which positions hold a descriptor load, and the async load (if any) of each position. */
  datatype Body = Body(isDescLoad: seq<bool>, asyncAt: seq<Option<nat>>)

  /** Async load `i` sits at its position in the body. */
  predicate LoadAt(body: Body, als: seq<BarrierLoad>, i: nat)
    requires i < |als|
  {
    als[i].pos < |body.asyncAt| && body.asyncAt[als[i].pos] == Some(i)
  }

  /** The async load recorded at body position `p`, if any, sits at `p`. */
  predicate OwnerAt(body: Body, als: seq<BarrierLoad>, p: nat)
    requires p < |body.asyncAt|
  {
    body.asyncAt[p].Some? ==> body.asyncAt[p].value < |als| && als[body.asyncAt[p].value].pos == p
  }

  predicate WellFormed(body: Body, als: seq<BarrierLoad>) {
    && |body.isDescLoad| == |body.asyncAt|
    && (forall i: nat :: i < |als| ==> LoadAt(body, als, i))
    && (forall p: nat :: p < |body.asyncAt| ==> OwnerAt(body, als, p))
  }

  /** The async load at `p` that the scan considers: a descriptor load whose async load is a TMA load. */
  function Candidate(body: Body, als: seq<BarrierLoad>, p: nat): (r: Option<nat>)
    requires WellFormed(body, als) && p < |body.asyncAt|
    ensures r.Some? ==> r.value < |als| && als[r.value].pos == p && als[r.value].a.isTMALoad
  {
    assert OwnerAt(body, als, p);
    if body.isDescLoad[p] && body.asyncAt[p].Some? && als[body.asyncAt[p].value].a.isTMALoad
    then body.asyncAt[p] else None
  }

  function UsersOf(als: seq<BarrierLoad>, group: seq<nat>): set<nat>
    requires forall j :: 0 <= j < |group| ==> group[j] < |als|
    decreases |group|
  {
    if group == [] then {} else UsersOf(als, group[..|group| - 1]) + als[group[|group| - 1]].users
  }

  predicate Indices(als: seq<BarrierLoad>, group: seq<nat>) {
    forall j :: 0 <= j < |group| ==> group[j] < |als|
  }

  /**
   * The `while (nextOp)` scan from position `p`: the group and the position
   * where the scan stopped (the end of the body, a recorded user of the group,
   * a visited op, or a TMA load with another buffer count).
   */
  function Scan(body: Body, als: seq<BarrierLoad>, visited: set<nat>, group: seq<nat>, p: nat): (r: (seq<nat>, nat))
    requires WellFormed(body, als) && Indices(als, group) && |group| > 0 && p <= |body.asyncAt|
    ensures Indices(als, r.0) && |group| <= |r.0| && r.0[..|group|] == group && p <= r.1 <= |body.asyncAt|
    decreases |body.asyncAt| - p
  {
    if p == |body.asyncAt| then (group, p)
    else if p in UsersOf(als, group) || p in visited then (group, p)
    else
      var c := Candidate(body, als, p);
      if c.Some? && als[c.value].a.numBuffers != als[group[0]].a.numBuffers then (group, p)
      else if c.Some? && |group| > 0 && als[group[0]].sc == als[c.value].sc then
        Scan(body, als, visited + {p}, group + [c.value], p + 1)
      else Scan(body, als, visited, group, p + 1)
  }

  lemma {:induction false} InUsersOf(als: seq<BarrierLoad>, group: seq<nat>, q: nat)
    requires Indices(als, group)
    ensures q in UsersOf(als, group) <==> exists j :: 0 <= j < |group| && q in als[group[j]].users
    decreases |group|
  {
    if group != [] {
      var pre := group[..|group| - 1];
      InUsersOf(als, pre, q);
      if q in UsersOf(als, pre) {
        var j :| 0 <= j < |pre| && q in als[pre[j]].users;
        assert group[j] == pre[j];
      }
      if exists j :: 0 <= j < |group| && q in als[group[j]].users {
        var j :| 0 <= j < |group| && q in als[group[j]].users;
        if j < |pre| {
          assert group[j] == pre[j];
        }
      }
    }
  }

  /** The members' positions increase along the group, all before `p`. */
  predicate Increasing(als: seq<BarrierLoad>, group: seq<nat>, p: nat)
    requires Indices(als, group)
  {
    && (forall j :: 0 <= j < |group| ==> als[group[j]].pos < p)
    && (forall i, j :: 0 <= i < j < |group| ==> als[group[i]].pos < als[group[j]].pos)
  }

  /** A member at `p` extends an increasing group. */
  lemma IncreasingJoin(als: seq<BarrierLoad>, group: seq<nat>, c: nat, p: nat)
    requires Indices(als, group) && Increasing(als, group, p) && c < |als| && als[c].pos == p
    ensures Indices(als, group + [c]) && Increasing(als, group + [c], p + 1)
  {
    var g' := group + [c];
    forall i, j | 0 <= i < j < |g'|
      ensures als[g'[i]].pos < als[g'[j]].pos
    {
      assert g'[i] == group[i];
      if j < |group| {
        assert g'[j] == group[j];
      }
    }
  }

  predicate AddedMember(body: Body, als: seq<BarrierLoad>, first: nat, p: nat, m: nat)
    requires WellFormed(body, als) && first < |als| && m < |als|
  {
    && p <= als[m].pos < |body.asyncAt|
    && Candidate(body, als, als[m].pos) == Some(m)
    && als[m].a.numBuffers == als[first].a.numBuffers
    && als[m].sc == als[first].sc
  }

  /** Every member of `g` from index `from` on was added by a scan from `p`. */
  predicate AddedFrom(body: Body, als: seq<BarrierLoad>, first: nat, p: nat, g: seq<nat>, from: nat)
    requires WellFormed(body, als) && first < |als| && Indices(als, g)
  {
    forall j :: from <= j < |g| ==> AddedMember(body, als, first, p, g[j])
  }

  /** A member added at `p` in front of members added from `p + 1` on. */
  lemma AddedFromStep(body: Body, als: seq<BarrierLoad>, first: nat, p: nat, g: seq<nat>, from: nat)
    requires WellFormed(body, als) && first < |als| && Indices(als, g) && from < |g|
    requires AddedMember(body, als, first, p, g[from])
    requires AddedFrom(body, als, first, p + 1, g, from + 1)
    ensures AddedFrom(body, als, first, p, g, from)
  {
    forall j | from <= j < |g|
      ensures AddedMember(body, als, first, p, g[j])
    {
      if j > from {
        assert AddedMember(body, als, first, p + 1, g[j]);
      }
    }
  }

  /** The scan keeps the members' positions increasing, all before the stop position. */
  lemma {:induction false} ScanIncreasing(body: Body, als: seq<BarrierLoad>, visited: set<nat>, group: seq<nat>, p: nat)
    requires WellFormed(body, als) && Indices(als, group) && |group| > 0 && p <= |body.asyncAt|
    requires Increasing(als, group, p)
    ensures var r := Scan(body, als, visited, group, p); Increasing(als, r.0, r.1)
    decreases |body.asyncAt| - p
  {
    if p == |body.asyncAt| || p in UsersOf(als, group) || p in visited {
      return;
    }
    var c := Candidate(body, als, p);
    if c.Some? && als[c.value].a.numBuffers != als[group[0]].a.numBuffers {
      return;
    }
    if c.Some? && als[group[0]].sc == als[c.value].sc {
      var group' := group + [c.value];
      var (g, stop) := Scan(body, als, visited + {p}, group', p + 1);
      assert Scan(body, als, visited, group, p) == (g, stop);
      assert Increasing(als, g, stop) by {
        IncreasingJoin(als, group, c.value, p);
        ScanIncreasing(body, als, visited + {p}, group', p + 1);
      }
    } else {
      var (g, stop) := Scan(body, als, visited, group, p + 1);
      assert Scan(body, als, visited, group, p) == (g, stop);
      assert Increasing(als, g, stop) by {
        ScanIncreasing(body, als, visited, group, p + 1);
      }
    }
  }

  /**
   * What the scan adds to the group: TMA loads found in scan order between
   * `p` and the stop position, each with the first member's buffer count and
   * `(stage, cluster)`.
   */
  lemma {:induction false} ScanAdded(body: Body, als: seq<BarrierLoad>, visited: set<nat>, group: seq<nat>, p: nat)
    requires WellFormed(body, als) && Indices(als, group) && |group| > 0 && p <= |body.asyncAt|
    ensures var r := Scan(body, als, visited, group, p); AddedFrom(body, als, group[0], p, r.0, |group|)
    decreases |body.asyncAt| - p
  {
    if p == |body.asyncAt| || p in UsersOf(als, group) || p in visited {
      return;
    }
    var c := Candidate(body, als, p);
    if c.Some? && als[c.value].a.numBuffers != als[group[0]].a.numBuffers {
      return;
    }
    if c.Some? && als[group[0]].sc == als[c.value].sc {
      var group' := group + [c.value];
      var g := Scan(body, als, visited + {p}, group', p + 1).0;
      assert AddedFrom(body, als, group[0], p + 1, g, |group'|) by {
        ScanAdded(body, als, visited + {p}, group', p + 1);
      }
      assert g[|group|] == c.value by {
        assert g[..|group'|][|group|] == group'[|group|];
      }
      AddedFromStep(body, als, group[0], p, g, |group|);
    } else {
      ScanAdded(body, als, visited, group, p + 1);
    }
  }

  /** Position `q`, passed by the scan, was neither visited nor a user of an earlier member, and a TMA load there was treated as the scan treats it. */
  predicate Passed(body: Body, als: seq<BarrierLoad>, visited: set<nat>, first: nat, g: seq<nat>, q: nat)
    requires WellFormed(body, als) && first < |als| && Indices(als, g) && q < |body.asyncAt|
  {
    && q !in visited
    && (forall j :: 0 <= j < |g| && als[g[j]].pos < q ==> q !in als[g[j]].users)
    && (Candidate(body, als, q).Some? ==>
          && als[Candidate(body, als, q).value].a.numBuffers == als[first].a.numBuffers
          && (Candidate(body, als, q).value in g <==> als[Candidate(body, als, q).value].sc == als[first].sc))
  }

  /** Why the scan stopped at `stop`. */
  predicate Stopped(body: Body, als: seq<BarrierLoad>, visited: set<nat>, first: nat, g: seq<nat>, stop: nat)
    requires WellFormed(body, als) && first < |als| && Indices(als, g) && stop <= |body.asyncAt|
  {
    || stop == |body.asyncAt|
    || stop in visited
    || stop in UsersOf(als, g)
    || (Candidate(body, als, stop).Some? &&
        als[Candidate(body, als, stop).value].a.numBuffers != als[first].a.numBuffers)
  }

  /** The scan stops at the end of the body, at a visited op, at a recorded user of the group, or at a TMA load with another buffer count. */
  lemma {:induction false} ScanStopped(body: Body, als: seq<BarrierLoad>, visited: set<nat>, group: seq<nat>, p: nat)
    requires WellFormed(body, als) && Indices(als, group) && |group| > 0 && p <= |body.asyncAt|
    ensures Stopped(body, als, visited, group[0], Scan(body, als, visited, group, p).0, Scan(body, als, visited, group, p).1)
    decreases |body.asyncAt| - p
  {
    if p == |body.asyncAt| || p in UsersOf(als, group) || p in visited {
      return;
    }
    var c := Candidate(body, als, p);
    if c.Some? && als[c.value].a.numBuffers != als[group[0]].a.numBuffers {
      return;
    }
    if c.Some? && als[group[0]].sc == als[c.value].sc {
      var group' := group + [c.value];
      var (g, stop) := Scan(body, als, visited + {p}, group', p + 1);
      assert Scan(body, als, visited, group, p) == (g, stop);
      assert Stopped(body, als, visited + {p}, group'[0], g, stop) by {
        ScanStopped(body, als, visited + {p}, group', p + 1);
      }
    } else {
      var (g, stop) := Scan(body, als, visited, group, p + 1);
      assert Scan(body, als, visited, group, p) == (g, stop);
      assert Stopped(body, als, visited, group[0], g, stop) by {
        ScanStopped(body, als, visited, group, p + 1);
      }
    }
  }

  /**
   * Why the scan went on: no position it passed was visited, a recorded user
   * of an earlier member, or a TMA load with another buffer count; and each
   * TMA load it passed joined the group exactly when it has the first
   * member's `(stage, cluster)`.
   */
  lemma {:induction false} ScanPassed(body: Body, als: seq<BarrierLoad>, visited: set<nat>, group: seq<nat>, p: nat)
    requires WellFormed(body, als) && Indices(als, group) && |group| > 0 && p <= |body.asyncAt|
    requires Increasing(als, group, p)
    ensures forall q :: p <= q < Scan(body, als, visited, group, p).1 ==>
      Passed(body, als, visited, group[0], Scan(body, als, visited, group, p).0, q)
    decreases |body.asyncAt| - p, 1
  {
    if p == |body.asyncAt| || p in UsersOf(als, group) || p in visited {
      return;
    }
    var c := Candidate(body, als, p);
    if c.Some? && als[c.value].a.numBuffers != als[group[0]].a.numBuffers {
      return;
    }
    if c.Some? && als[group[0]].sc == als[c.value].sc {
      ScanPassedJoin(body, als, visited, group, p);
    } else {
      ScanPassedSkip(body, als, visited, group, p);
    }
  }

  /** The step of `ScanPassed` where the TMA load at `p` joins the group. */
  lemma {:induction false} ScanPassedJoin(body: Body, als: seq<BarrierLoad>, visited: set<nat>, group: seq<nat>, p: nat)
    requires WellFormed(body, als) && Indices(als, group) && |group| > 0 && p < |body.asyncAt|
    requires Increasing(als, group, p)
    requires p !in UsersOf(als, group) && p !in visited
    requires Candidate(body, als, p).Some?
    requires als[Candidate(body, als, p).value].a.numBuffers == als[group[0]].a.numBuffers
    requires als[group[0]].sc == als[Candidate(body, als, p).value].sc
    ensures forall q :: p <= q < Scan(body, als, visited, group, p).1 ==>
      Passed(body, als, visited, group[0], Scan(body, als, visited, group, p).0, q)
    decreases |body.asyncAt| - p, 0
  {
    var c := Candidate(body, als, p).value;
    var group' := group + [c];
    IncreasingJoin(als, group, c, p);
    var (g, stop) := Scan(body, als, visited + {p}, group', p + 1);
    assert Scan(body, als, visited, group, p) == (g, stop);
    assert Passed(body, als, visited, group[0], g, p) by {
      ScanIncreasing(body, als, visited + {p}, group', p + 1);
      PassedAtJoin(body, als, visited, group, c, g, p, stop);
    }
    assert forall q :: p + 1 <= q < stop ==> Passed(body, als, visited, group[0], g, q) by {
      ScanPassed(body, als, visited + {p}, group', p + 1);
      PassedWeaken(body, als, visited, p, group[0], g, p + 1, stop);
    }
  }

  /** The joining position itself is passed: it is no recorded user of an earlier member. */
  lemma PassedAtJoin(body: Body, als: seq<BarrierLoad>, visited: set<nat>, group: seq<nat>, c: nat,
                     g: seq<nat>, p: nat, stop: nat)
    requires WellFormed(body, als) && Indices(als, group) && |group| > 0 && p < |body.asyncAt|
    requires p !in UsersOf(als, group) && p !in visited
    requires Candidate(body, als, p) == Some(c)
    requires als[c].a.numBuffers == als[group[0]].a.numBuffers && als[group[0]].sc == als[c].sc
    requires Indices(als, g) && |group| < |g| && g[..|group| + 1] == group + [c]
    requires Increasing(als, g, stop)
    ensures Passed(body, als, visited, group[0], g, p)
  {
    InUsersOf(als, group, p);
    assert g[|group|] == g[..|group| + 1][|group|] == c;
    forall j | |group| <= j < |g|
      ensures p <= als[g[j]].pos
    {
      if j > |group| {
        assert als[g[|group|]].pos < als[g[j]].pos;
      }
    }
    forall j | 0 <= j < |g| && als[g[j]].pos < p
      ensures p !in als[g[j]].users
    {
      assert g[j] == g[..|group| + 1][j] == group[j];
    }
  }

  /** Positions passed with `p` visited are passed without it. */
  lemma PassedWeaken(body: Body, als: seq<BarrierLoad>, visited: set<nat>, p: nat, first: nat, g: seq<nat>, lo: nat, hi: nat)
    requires WellFormed(body, als) && first < |als| && Indices(als, g) && hi <= |body.asyncAt|
    requires forall q :: lo <= q < hi ==> Passed(body, als, visited + {p}, first, g, q)
    ensures forall q :: lo <= q < hi ==> Passed(body, als, visited, first, g, q)
  {
    forall q | lo <= q < hi
      ensures Passed(body, als, visited, first, g, q)
    {
      assert Passed(body, als, visited + {p}, first, g, q);
    }
  }

  /** The step of `ScanPassed` where position `p` is passed without joining. */
  lemma {:induction false} ScanPassedSkip(body: Body, als: seq<BarrierLoad>, visited: set<nat>, group: seq<nat>, p: nat)
    requires WellFormed(body, als) && Indices(als, group) && |group| > 0 && p < |body.asyncAt|
    requires Increasing(als, group, p)
    requires p !in UsersOf(als, group) && p !in visited
    requires Candidate(body, als, p).Some? ==>
      && als[Candidate(body, als, p).value].a.numBuffers == als[group[0]].a.numBuffers
      && als[group[0]].sc != als[Candidate(body, als, p).value].sc
    ensures forall q :: p <= q < Scan(body, als, visited, group, p).1 ==>
      Passed(body, als, visited, group[0], Scan(body, als, visited, group, p).0, q)
    decreases |body.asyncAt| - p, 0
  {
    var (g, stop) := Scan(body, als, visited, group, p + 1);
    assert Scan(body, als, visited, group, p) == (g, stop);
    assert Passed(body, als, visited, group[0], g, p) by {
      ScanAdded(body, als, visited, group, p + 1);
      PassedAtSkip(body, als, visited, group, g, p);
    }
    assert forall q :: p + 1 <= q < stop ==> Passed(body, als, visited, group[0], g, q) by {
      ScanPassed(body, als, visited, group, p + 1);
    }
  }

  /** The skipped position itself is passed: its TMA load, if any, stays out of the group. */
  lemma PassedAtSkip(body: Body, als: seq<BarrierLoad>, visited: set<nat>, group: seq<nat>, g: seq<nat>, p: nat)
    requires WellFormed(body, als) && Indices(als, group) && |group| > 0 && p < |body.asyncAt|
    requires Increasing(als, group, p)
    requires p !in UsersOf(als, group) && p !in visited
    requires Candidate(body, als, p).Some? ==>
      && als[Candidate(body, als, p).value].a.numBuffers == als[group[0]].a.numBuffers
      && als[group[0]].sc != als[Candidate(body, als, p).value].sc
    requires Indices(als, g) && |group| <= |g| && g[..|group|] == group
    requires AddedFrom(body, als, group[0], p + 1, g, |group|)
    ensures Passed(body, als, visited, group[0], g, p)
  {
    InUsersOf(als, group, p);
    forall j | |group| <= j < |g|
      ensures p < als[g[j]].pos
    {
      assert AddedMember(body, als, group[0], p + 1, g[j]);
    }
    forall j | 0 <= j < |g| && als[g[j]].pos <= p
      ensures j < |group| && g[j] == group[j] && als[g[j]].pos < p
    {
      assert g[j] == g[..|group|][j];
    }
  }

  function Positions(als: seq<BarrierLoad>, g: seq<nat>): set<nat>
    requires Indices(als, g)
  {
    set j | 0 <= j < |g| :: als[g[j]].pos
  }

  /** The seed's scan: the seed is visited and the scan starts right after it. */
  function GroupFrom(body: Body, als: seq<BarrierLoad>, visited: set<nat>, seed: nat): seq<nat>
    requires WellFormed(body, als) && seed < |als|
  {
    assert LoadAt(body, als, seed);
    Scan(body, als, visited + {als[seed].pos}, [seed], als[seed].pos + 1).0
  }

  /** The groups and the visited positions after the loop over the first `k` async loads. */
  function GroupsUpTo(body: Body, als: seq<BarrierLoad>, k: nat): (r: (seq<seq<nat>>, set<nat>))
    requires WellFormed(body, als) && k <= |als|
    ensures forall g :: 0 <= g < |r.0| ==> Indices(als, r.0[g])
  {
    if k == 0 then ([], {})
    else
      var (gs, vis) := GroupsUpTo(body, als, k - 1);
      if !als[k - 1].a.isTMALoad || als[k - 1].pos in vis then (gs, vis)
      else
        var g := GroupFrom(body, als, vis, k - 1);
        (gs + [g], vis + Positions(als, g))
  }

  /** Adding member `b` adds its position and its recorded users. */
  lemma JoinFacts(als: seq<BarrierLoad>, group: seq<nat>, b: nat)
    requires Indices(als, group) && b < |als|
    ensures Indices(als, group + [b])
    ensures Positions(als, group + [b]) == Positions(als, group) + {als[b].pos}
    ensures UsersOf(als, group + [b]) == UsersOf(als, group) + als[b].users
  {
    var g' := group + [b];
    assert g'[..|group|] == group;
    forall q | q in Positions(als, g')
      ensures q in Positions(als, group) + {als[b].pos}
    {
      var j :| 0 <= j < |g'| && als[g'[j]].pos == q;
      if j < |group| {
        assert g'[j] == group[j];
      }
    }
    forall q | q in Positions(als, group)
      ensures q in Positions(als, g')
    {
      var j :| 0 <= j < |group| && als[group[j]].pos == q;
      assert g'[j] == group[j];
    }
    assert als[g'[|group|]].pos in Positions(als, g');
  }

  /**
   * The `while (nextOp)` loop for one seed: add the seed, then walk the
   * following ops of the body, adding TMA loads with the seed's buffer count
   * and `(stage, cluster)`, until a recorded user, a visited op or a TMA load
   * with another buffer count.
   */
  method ScanFromSeed(body: Body, als: seq<BarrierLoad>, visited0: set<nat>, k: nat)
    returns (group: seq<nat>, visited: set<nat>)
    requires WellFormed(body, als) && k < |als|
    ensures group == GroupFrom(body, als, visited0, k)
    ensures visited == visited0 + Positions(als, group)
  {
    assert LoadAt(body, als, k);
    group := [k];
    visited := visited0 + {als[k].pos};
    var users := als[k].users;
    var nextOp := als[k].pos + 1;
    var numBuffers := als[k].a.numBuffers;
    assert users == UsersOf(als, group) by {
      assert group[..0] == [];
    }
    while nextOp < |body.asyncAt|
      invariant als[k].pos < nextOp <= |body.asyncAt|
      invariant Indices(als, group) && |group| > 0 && group[0] == k
      invariant users == UsersOf(als, group)
      invariant visited == visited0 + Positions(als, group)
      invariant GroupFrom(body, als, visited0, k) == Scan(body, als, visited, group, nextOp).0
      decreases |body.asyncAt| - nextOp
    {
      if nextOp in users || nextOp in visited {
        break;
      }
      if body.isDescLoad[nextOp] && body.asyncAt[nextOp].Some? {
        assert OwnerAt(body, als, nextOp);
        var b := body.asyncAt[nextOp].value;
        if als[b].a.isTMALoad {
          if als[b].a.numBuffers != numBuffers {
            break;
          }
          if |group| > 0 && als[group[0]].sc == als[b].sc {
            JoinFacts(als, group, b);
            group := group + [b];
            visited := visited + {nextOp};
            users := users + als[b].users;
          }
        }
      }
      nextOp := nextOp + 1;
    }
  }

  /**
   * The grouping loop of createTMABarrierAndWait: for each TMA load not yet
   * visited, start a group with it and scan forward from it.
   */
  method GroupLoads(body: Body, als: seq<BarrierLoad>) returns (loadGroups: seq<seq<nat>>)
    requires WellFormed(body, als)
    ensures loadGroups == GroupsUpTo(body, als, |als|).0
  {
    var visited: set<nat> := {};
    loadGroups := [];
    for k := 0 to |als|
      invariant (loadGroups, visited) == GroupsUpTo(body, als, k)
    {
      if als[k].a.isTMALoad && als[k].pos !in visited {
        var group;
        group, visited := ScanFromSeed(body, als, visited, k);
        loadGroups := loadGroups + [group];
      }
    }
  }

  /** Every group starts with a TMA load, and every member is a TMA load with the first member's buffer count and `(stage, cluster)`, in increasing body order. */
  predicate GroupShaped(body: Body, als: seq<BarrierLoad>, g: seq<nat>)
    requires WellFormed(body, als) && Indices(als, g)
  {
    && |g| > 0 && als[g[0]].a.isTMALoad
    && (forall i, j :: 0 <= i < j < |g| ==> als[g[i]].pos < als[g[j]].pos)
    && (forall j :: 0 < j < |g| ==> AddedMember(body, als, g[0], als[g[0]].pos + 1, g[j]))
  }

  lemma GroupFromShaped(body: Body, als: seq<BarrierLoad>, visited: set<nat>, seed: nat)
    requires WellFormed(body, als) && seed < |als| && als[seed].a.isTMALoad && als[seed].pos !in visited
    ensures GroupShaped(body, als, GroupFrom(body, als, visited, seed))
    ensures Positions(als, GroupFrom(body, als, visited, seed)) !! visited
  {
    assert LoadAt(body, als, seed);
    var v := visited + {als[seed].pos};
    var p := als[seed].pos + 1;
    assert Increasing(als, [seed], p);
    ScanIncreasing(body, als, v, [seed], p);
    ScanAdded(body, als, v, [seed], p);
    ScanPassed(body, als, v, [seed], p);
    var (g, stop) := Scan(body, als, v, [seed], p);
    assert g[..1] == [seed];
    forall q | q in Positions(als, g)
      ensures q !in visited
    {
      var j :| 0 <= j < |g| && als[g[j]].pos == q;
      if j > 0 {
        assert AddedMember(body, als, seed, p, g[j]);
        assert Increasing(als, g, stop);
        assert Passed(body, als, v, seed, g, q);
      }
    }
  }

  /** No load appears twice among the groups. */
  predicate Unique(als: seq<BarrierLoad>, gs: seq<seq<nat>>) {
    forall g1, j1, g2, j2 ::
      0 <= g1 < |gs| && 0 <= j1 < |gs[g1]| && 0 <= g2 < |gs| && 0 <= j2 < |gs[g2]| && gs[g1][j1] == gs[g2][j2] ==>
      g1 == g2 && j1 == j2
  }

  predicate AllIndices(als: seq<BarrierLoad>, gs: seq<seq<nat>>) {
    forall g :: 0 <= g < |gs| ==> Indices(als, gs[g])
  }

  function AllPositions(als: seq<BarrierLoad>, gs: seq<seq<nat>>): set<nat>
    requires AllIndices(als, gs)
    decreases |gs|
  {
    if gs == [] then {} else AllPositions(als, gs[..|gs| - 1]) + Positions(als, gs[|gs| - 1])
  }

  lemma {:induction false} InAllPositions(als: seq<BarrierLoad>, gs: seq<seq<nat>>, g: nat, j: nat)
    requires AllIndices(als, gs) && g < |gs| && j < |gs[g]|
    ensures als[gs[g][j]].pos in AllPositions(als, gs)
    decreases |gs|
  {
    if g < |gs| - 1 {
      InAllPositions(als, gs[..|gs| - 1], g, j);
    } else {
      assert als[gs[g][j]].pos in Positions(als, gs[g]);
    }
  }

  lemma {:induction false} FromAllPositions(als: seq<BarrierLoad>, gs: seq<seq<nat>>, q: nat) returns (g: nat, j: nat)
    requires AllIndices(als, gs) && q in AllPositions(als, gs)
    ensures g < |gs| && j < |gs[g]| && als[gs[g][j]].pos == q
    decreases |gs|
  {
    var pre := gs[..|gs| - 1];
    if q in AllPositions(als, pre) {
      g, j := FromAllPositions(als, pre, q);
      assert gs[g] == pre[g];
    } else {
      g := |gs| - 1;
      var j' :| 0 <= j' < |gs[g]| && als[gs[g][j']].pos == q;
      j := j';
    }
  }

  /** Appending a group whose loads have increasing positions outside every earlier group keeps the loads unique. */
  lemma AppendKeepsUnique(body: Body, als: seq<BarrierLoad>, gs: seq<seq<nat>>, ng: seq<nat>)
    requires WellFormed(body, als) && AllIndices(als, gs) && Indices(als, ng) && Unique(als, gs)
    requires forall i, j :: 0 <= i < j < |ng| ==> als[ng[i]].pos < als[ng[j]].pos
    requires Positions(als, ng) !! AllPositions(als, gs)
    ensures Unique(als, gs + [ng])
  {
    var gs' := gs + [ng];
    forall g1, j1, g2, j2 | 0 <= g1 < |gs'| && 0 <= j1 < |gs'[g1]| && 0 <= g2 < |gs'| && 0 <= j2 < |gs'[g2]|
          && gs'[g1][j1] == gs'[g2][j2]
      ensures g1 == g2 && j1 == j2
    {
      if g1 < |gs| && g2 == |gs| {
        InAllPositions(als, gs, g1, j1);
      } else if g2 < |gs| && g1 == |gs| {
        InAllPositions(als, gs, g2, j2);
      } else if g1 < |gs| && g2 < |gs| {
        assert gs'[g1] == gs[g1] && gs'[g2] == gs[g2];
      }
    }
  }

  /** The visited set is exactly the positions of the grouped loads. */
  lemma {:induction false} VisitedAreGrouped(body: Body, als: seq<BarrierLoad>, k: nat)
    requires WellFormed(body, als) && k <= |als|
    ensures AllIndices(als, GroupsUpTo(body, als, k).0)
    ensures GroupsUpTo(body, als, k).1 == AllPositions(als, GroupsUpTo(body, als, k).0)
    decreases k
  {
    if k > 0 {
      VisitedAreGrouped(body, als, k - 1);
      var r := GroupsUpTo(body, als, k - 1);
      var i := k - 1;
      if als[i].a.isTMALoad && als[i].pos !in r.1 {
        var ng := GroupFrom(body, als, r.1, i);
        assert (r.0 + [ng])[..|r.0|] == r.0;
      }
    }
  }

  /** Each group is shaped as the scan makes it. */
  lemma {:induction false} GroupsShaped(body: Body, als: seq<BarrierLoad>, k: nat)
    requires WellFormed(body, als) && k <= |als|
    ensures AllIndices(als, GroupsUpTo(body, als, k).0)
    ensures forall g :: 0 <= g < |GroupsUpTo(body, als, k).0| ==> GroupShaped(body, als, GroupsUpTo(body, als, k).0[g])
    decreases k
  {
    if k > 0 {
      GroupsShaped(body, als, k - 1);
      var r := GroupsUpTo(body, als, k - 1);
      var i := k - 1;
      if als[i].a.isTMALoad && als[i].pos !in r.1 {
        GroupFromShaped(body, als, r.1, i);
      }
    }
  }

  /** No load is in two groups, nor twice in one. */
  lemma {:induction false} GroupsUnique(body: Body, als: seq<BarrierLoad>, k: nat)
    requires WellFormed(body, als) && k <= |als|
    ensures AllIndices(als, GroupsUpTo(body, als, k).0)
    ensures Unique(als, GroupsUpTo(body, als, k).0)
    decreases k
  {
    if k > 0 {
      GroupsUnique(body, als, k - 1);
      VisitedAreGrouped(body, als, k - 1);
      var r := GroupsUpTo(body, als, k - 1);
      var i := k - 1;
      if als[i].a.isTMALoad && als[i].pos !in r.1 {
        var ng := GroupFrom(body, als, r.1, i);
        GroupFromShaped(body, als, r.1, i);
        AppendKeepsUnique(body, als, r.0, ng);
      }
    }
  }

  /** Whether async load `i` is at some place in some group. */
  predicate Grouped(gs: seq<seq<nat>>, i: nat) {
    exists g, j :: 0 <= g < |gs| && 0 <= j < |gs[g]| && gs[g][j] == i
  }

  lemma GroupedAppend(gs: seq<seq<nat>>, ng: seq<nat>, i: nat)
    requires Grouped(gs, i)
    ensures Grouped(gs + [ng], i)
  {
    var g, j :| 0 <= g < |gs| && 0 <= j < |gs[g]| && gs[g][j] == i;
    assert (gs + [ng])[g] == gs[g];
  }

  /** The `k`-th step of the outer loop leaves async load `k - 1` grouped when it is a TMA load. */
  lemma CoverStep(body: Body, als: seq<BarrierLoad>, k: nat)
    requires WellFormed(body, als) && 0 < k <= |als| && als[k - 1].a.isTMALoad
    ensures Grouped(GroupsUpTo(body, als, k).0, k - 1)
  {
    var r := GroupsUpTo(body, als, k - 1);
    var i := k - 1;
    assert AllIndices(als, r.0) && r.1 == AllPositions(als, r.0) by {
      VisitedAreGrouped(body, als, k - 1);
    }
    if als[i].pos in r.1 {
      var g, j := FromAllPositions(als, r.0, als[i].pos);
      var m := r.0[g][j];
      assert m == i by {
        assert LoadAt(body, als, m) && LoadAt(body, als, i);
      }
      assert GroupsUpTo(body, als, k).0 == r.0;
      assert r.0[g][j] == i;
    } else {
      var ng := GroupFrom(body, als, r.1, i);
      assert ng[..1] == [i];
      var gs := r.0 + [ng];
      assert GroupsUpTo(body, als, k).0 == gs;
      assert gs[|r.0|][0] == i;
    }
  }

  /** Every TMA load among the first `k` async loads is in some group. */
  lemma {:induction false} GroupsCover(body: Body, als: seq<BarrierLoad>, k: nat)
    requires WellFormed(body, als) && k <= |als|
    ensures forall i :: 0 <= i < k && als[i].a.isTMALoad ==> Grouped(GroupsUpTo(body, als, k).0, i)
    decreases k
  {
    if k > 0 {
      GroupsCover(body, als, k - 1);
      var r := GroupsUpTo(body, als, k - 1);
      var gs := GroupsUpTo(body, als, k).0;
      forall i | 0 <= i < k && als[i].a.isTMALoad
        ensures Grouped(gs, i)
      {
        if i < k - 1 {
          if gs != r.0 {
            GroupedAppend(r.0, gs[|r.0|], i);
            assert gs == r.0 + [gs[|r.0|]];
          }
        } else {
          CoverStep(body, als, k);
        }
      }
    }
  }

  /**
   * The groups partition the TMA loads: each TMA load is in exactly one
   * group at exactly one place, and no other load is in any group.
   */
  lemma GroupsPartitionTMALoads(body: Body, als: seq<BarrierLoad>)
    requires WellFormed(body, als)
    ensures AllIndices(als, GroupsUpTo(body, als, |als|).0)
    ensures forall i :: 0 <= i < |als| && als[i].a.isTMALoad ==> Grouped(GroupsUpTo(body, als, |als|).0, i)
    ensures Unique(als, GroupsUpTo(body, als, |als|).0)
    ensures forall g, j :: 0 <= g < |GroupsUpTo(body, als, |als|).0| && 0 <= j < |GroupsUpTo(body, als, |als|).0[g]| ==>
      als[GroupsUpTo(body, als, |als|).0[g][j]].a.isTMALoad
  {
    GroupsShaped(body, als, |als|);
    GroupsUnique(body, als, |als|);
    GroupsCover(body, als, |als|);
    var gs := GroupsUpTo(body, als, |als|).0;
    forall g, j | 0 <= g < |gs| && 0 <= j < |gs[g]|
      ensures als[gs[g][j]].a.isTMALoad
    {
      assert GroupShaped(body, als, gs[g]);
      if j > 0 {
        assert AddedMember(body, als, gs[g][0], als[gs[g][0]].pos + 1, gs[g][j]);
      }
    }
  }

  /** `product(shape)`: the number of elements of a load's result. */
  function Product(shape: seq<nat>): nat
    decreases |shape|
  {
    if shape == [] then 1 else Product(shape[..|shape| - 1]) * shape[|shape| - 1]
  }

  /** One load's contribution to the barrier: elements times bit width, divided by eight. */
  function LoadBytes(l: BarrierLoad): nat {
    Product(l.shape) * l.bitWidth / 8
  }

  /** The expected byte count of a group: the sum of its members' contributions. */
  function GroupBytes(als: seq<BarrierLoad>, g: seq<nat>): nat
    requires Indices(als, g)
    decreases |g|
  {
    if g == [] then 0 else GroupBytes(als, g[..|g| - 1]) + LoadBytes(als[g[|g| - 1]])
  }

  /** The exact number of bits the group's loads bring in. */
  function GroupBits(als: seq<BarrierLoad>, g: seq<nat>): nat
    requires Indices(als, g)
    decreases |g|
  {
    if g == [] then 0 else GroupBits(als, g[..|g| - 1]) + Product(als[g[|g| - 1]].shape) * als[g[|g| - 1]].bitWidth
  }

  /** The byte count of two concatenated groups is the sum of their byte counts. */
  lemma {:induction false} GroupBytesAppend(als: seq<BarrierLoad>, g1: seq<nat>, g2: seq<nat>)
    requires Indices(als, g1) && Indices(als, g2)
    ensures Indices(als, g1 + g2) && GroupBytes(als, g1 + g2) == GroupBytes(als, g1) + GroupBytes(als, g2)
    decreases |g2|
  {
    if g2 == [] {
      assert g1 + g2 == g1;
    } else {
      var pre := g2[..|g2| - 1];
      GroupBytesAppend(als, g1, pre);
      assert (g1 + g2)[..|g1 + g2| - 1] == g1 + pre;
    }
  }

  /**
   * Each member's division by eight truncates, so the barrier expects at
   * most the exact byte count of the data and less than one byte per member
   * below it; with whole-byte element types it is exact.
   */
  lemma {:induction false} GroupBytesBounds(als: seq<BarrierLoad>, g: seq<nat>)
    requires Indices(als, g)
    ensures 8 * GroupBytes(als, g) <= GroupBits(als, g) <= 8 * GroupBytes(als, g) + 7 * |g|
    ensures (forall j :: 0 <= j < |g| ==> als[g[j]].bitWidth % 8 == 0) ==> 8 * GroupBytes(als, g) == GroupBits(als, g)
    decreases |g|
  {
    if g != [] {
      var pre := g[..|g| - 1];
      var l := als[g[|g| - 1]];
      GroupBytesBounds(als, pre);
      BitsToBytes(Product(l.shape), l.bitWidth);
    }
  }

  /** Truncating `n * width` bits to whole bytes loses less than one byte, and nothing when the width is a whole number of bytes. */
  lemma BitsToBytes(n: nat, width: nat)
    ensures 8 * (n * width / 8) <= n * width <= 8 * (n * width / 8) + 7
    ensures width % 8 == 0 ==> 8 * (n * width / 8) == n * width
  {
    var bits := n * width;
    assert bits == 8 * (bits / 8) + bits % 8;
    if width % 8 == 0 {
      var w := width / 8;
      assert bits == 8 * (n * w);
    }
  }

  /** The inner loop of the second phase: `sizeInBytes` summed over the group. */
  method SizeInBytes(als: seq<BarrierLoad>, group: seq<nat>) returns (sizeInBytes: nat)
    requires Indices(als, group)
    ensures sizeInBytes == GroupBytes(als, group)
  {
    sizeInBytes := 0;
    for i := 0 to |group|
      invariant sizeInBytes == GroupBytes(als, group[..i])
    {
      assert group[..i + 1][..i] == group[..i];
      sizeInBytes := sizeInBytes + LoadBytes(als[group[i]]);
    }
    assert group[..|group|] == group;
  }

  /**
   * The barrier of one group: the stage group of its buffer count, the
   * expected bytes, the `(stage, cluster)` of the expect and that of the
   * wait, the carried slot whose value indexes the expect's barrier view, the
   * slot indexing the wait's view and the slot holding the wait's phase, and
   * the body positions before which the expect goes and after which the wait
   * goes.
   */
  datatype Barrier = Barrier(stageGroup: nat, numBuffers: int, bytes: nat, sc: StageCluster, waitSc: StageCluster,
                             expectIdx: Slot, waitIdx: Slot, waitPhase: Slot, expectBefore: nat, waitAfter: nat)

  /** The async loads' records, in order: the keys of `stageGroups`. */
  function Asyncs(als: seq<BarrierLoad>): (r: seq<AsyncLoad>)
    ensures |r| == |als| && forall i :: 0 <= i < |als| ==> r[i] == als[i].a
  {
    seq(|als|, i requires 0 <= i < |als| => als[i].a)
  }

  function BarrierOf(als: seq<BarrierLoad>, stageGroups: seq<StageGroup>, group: seq<nat>): Barrier
    requires Indices(als, group) && |group| > 0
    requires GroupIndex(stageGroups, als[group[0]].a.numBuffers).Some?
  {
    var first := als[group[0]];
    var sg := GroupIndex(stageGroups, first.a.numBuffers).value;
    Barrier(sg, first.a.numBuffers, GroupBytes(als, group), first.sc, first.firstUseSc,
            InsertIdx(sg), ExtractIdx(sg), Phase(sg), first.pos, als[group[|group| - 1]].pos)
  }

  /** Every async load's buffer count has a stage group, and a TMA load's stage group has a phase. */
  lemma StageGroupOfLoad(als: seq<BarrierLoad>, i: nat)
    requires i < |als|
    ensures var sgs := GroupsOf(Asyncs(als));
      && GroupIndex(sgs, als[i].a.numBuffers).Some?
      && (als[i].a.isTMALoad ==> sgs[GroupIndex(sgs, als[i].a.numBuffers).value].hasTMALoad)
  {
    var ls := Asyncs(als);
    GroupsKeyed(ls);
    GroupsTrackTMA(ls);
    assert ls[i] == als[i].a;
  }

  /** The second phase's loop: one barrier per group, in group order. */
  method CreateBarriers(body: Body, als: seq<BarrierLoad>, loadGroups: seq<seq<nat>>, stageGroups: seq<StageGroup>)
    returns (barriers: seq<Barrier>)
    requires WellFormed(body, als) && AllIndices(als, loadGroups)
    requires forall g :: 0 <= g < |loadGroups| ==> |loadGroups[g]| > 0
    requires stageGroups == GroupsOf(Asyncs(als))
    ensures |barriers| == |loadGroups|
    ensures forall g :: 0 <= g < |loadGroups| ==>
      GroupIndex(stageGroups, als[loadGroups[g][0]].a.numBuffers).Some? &&
      barriers[g] == BarrierOf(als, stageGroups, loadGroups[g])
  {
    barriers := [];
    for g := 0 to |loadGroups|
      invariant |barriers| == g
      invariant forall h :: 0 <= h < g ==>
        GroupIndex(stageGroups, als[loadGroups[h][0]].a.numBuffers).Some? &&
        barriers[h] == BarrierOf(als, stageGroups, loadGroups[h])
    {
      var group := loadGroups[g];
      var first := als[group[0]];
      StageGroupOfLoad(als, group[0]);
      var sizeInBytes := SizeInBytes(als, group);
      var sg := GroupIndex(stageGroups, first.a.numBuffers).value;
      barriers := barriers + [Barrier(sg, first.a.numBuffers, sizeInBytes, first.sc, first.firstUseSc,
                                      InsertIdx(sg), ExtractIdx(sg), Phase(sg), first.pos, als[group[|group| - 1]].pos)];
    }
  }

  /**
   * For the groups the scan builds: each barrier belongs to the stage group
   * of its loads' buffer count, that stage group has a phase, every member
   * has the barrier's buffer count and `(stage, cluster)`, and the expect
   * comes at the first member and the wait after the last, which are in body
   * order. The expect runs in the members' `(stage, cluster)` on the group's
   * insert index; the wait runs in the first member's first-use
   * `(stage, cluster)` on the group's extract index and phase, all three
   * slots carried by the loop.
   */
  lemma BarrierMatchesGroup(body: Body, als: seq<BarrierLoad>, g: nat)
    requires WellFormed(body, als)
    requires g < |GroupsUpTo(body, als, |als|).0|
    ensures var group := GroupsUpTo(body, als, |als|).0[g];
      var sgs := GroupsOf(Asyncs(als));
      && Indices(als, group) && |group| > 0
      && GroupIndex(sgs, als[group[0]].a.numBuffers).Some?
      && var b := BarrierOf(als, sgs, group);
      && sgs[b.stageGroup].numBuffers == b.numBuffers && sgs[b.stageGroup].hasTMALoad
      && (forall j :: 0 <= j < |group| ==> als[group[j]].a.numBuffers == b.numBuffers && als[group[j]].sc == b.sc)
      && b.expectBefore <= b.waitAfter
      && (forall j :: 0 <= j < |group| ==> b.expectBefore <= als[group[j]].pos <= b.waitAfter)
      && b.sc == als[group[0]].sc && b.waitSc == als[group[0]].firstUseSc
      && b.expectIdx == InsertIdx(b.stageGroup) && b.waitIdx == ExtractIdx(b.stageGroup)
      && b.waitPhase == Phase(b.stageGroup)
      && b.expectIdx in GroupSlots(sgs) && b.waitIdx in GroupSlots(sgs) && b.waitPhase in GroupSlots(sgs)
  {
    var group := GroupsUpTo(body, als, |als|).0[g];
    assert Indices(als, group) && GroupShaped(body, als, group) by {
      GroupsShaped(body, als, |als|);
    }
    ShapedGroupFacts(body, als, group);
    StageGroupOfLoad(als, group[0]);
    var sgs := GroupsOf(Asyncs(als));
    var sg := GroupIndex(sgs, als[group[0]].a.numBuffers).value;
    GroupSlotsAt(sgs, sg);
  }

  /** The members of a shaped group share the first member's buffer count and `(stage, cluster)`, and lie between the first and the last member. */
  lemma ShapedGroupFacts(body: Body, als: seq<BarrierLoad>, group: seq<nat>)
    requires WellFormed(body, als) && Indices(als, group) && GroupShaped(body, als, group)
    ensures forall j :: 0 <= j < |group| ==>
      als[group[j]].a.numBuffers == als[group[0]].a.numBuffers && als[group[j]].sc == als[group[0]].sc
    ensures forall j :: 0 <= j < |group| ==> als[group[0]].pos <= als[group[j]].pos <= als[group[|group| - 1]].pos
  {
    forall j | 0 < j < |group|
      ensures als[group[j]].a.numBuffers == als[group[0]].a.numBuffers && als[group[j]].sc == als[group[0]].sc
    {
      assert AddedMember(body, als, group[0], als[group[0]].pos + 1, group[j]);
    }
    forall j | 0 <= j < |group|
      ensures als[group[0]].pos <= als[group[j]].pos <= als[group[|group| - 1]].pos
    {
      if 0 < j {
        assert als[group[0]].pos < als[group[j]].pos;
      }
      if j < |group| - 1 {
        assert als[group[j]].pos < als[group[|group| - 1]].pos;
      }
    }
  }
}
