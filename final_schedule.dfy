/**
 * getFinalSchedule: the ops of the loop body that carry both scheduling
 * attributes, bucketed by cluster and emitted bucket by bucket, each paired
 * with its stage. This is a stable sort of the annotated ops by cluster.
 */
module FinalSchedule {
  import opened Wrappers
  import opened Ir

  /** The body ops `j < n` that carry both attributes and sit in cluster `c`, in program order. */
  function Bucket(body: seq<Op>, c: int, n: nat): seq<nat>
    requires n <= |body|
  {
    if n == 0 then []
    else Bucket(body, c, n - 1) + (if Annotated(body[n - 1]) && body[n - 1].cluster.value == c then [n - 1] else [])
  }

  /** The buckets of clusters `lo`, ..., `lo + k - 1`, one after the other. */
  function Buckets(body: seq<Op>, lo: int, k: nat): seq<nat> {
    if k == 0 then [] else Buckets(body, lo, k - 1) + Bucket(body, lo + k - 1, |body|)
  }

  /** Every entry addresses an annotated op of the body. */
  predicate AnnotatedIndices(body: seq<Op>, s: seq<nat>) {
    forall p :: 0 <= p < |s| ==> s[p] < |body| && Annotated(body[s[p]])
  }

  /** Each op paired with its stage. */
  function WithStages(body: seq<Op>, s: seq<nat>): (r: seq<(nat, int)>)
    requires AnnotatedIndices(body, s)
    ensures |r| == |s| && forall p :: 0 <= p < |s| ==> r[p] == (s[p], body[s[p]].stage.value)
  {
    seq(|s|, p requires 0 <= p < |s| => (s[p], body[s[p]].stage.value))
  }

  /** `s` is ordered by cluster, and by program order inside a cluster (so no op occurs twice). */
  predicate ClusterOrdered(body: seq<Op>, s: seq<nat>)
    requires AnnotatedIndices(body, s)
  {
    forall p, q :: 0 <= p < q < |s| ==>
      body[s[p]].cluster.value < body[s[q]].cluster.value
      || (body[s[p]].cluster.value == body[s[q]].cluster.value && s[p] < s[q])
  }

  /** What `getMinMaxCluster` guarantees and what the source asserts of every annotated op. */
  predicate ScheduleInputsOk(body: seq<Op>, numStages: int, minC: int, maxC: int) {
    && minC <= maxC + 1
    && forall i :: 0 <= i < |body| && Annotated(body[i]) ==>
         minC <= body[i].cluster.value <= maxC && body[i].stage.value < numStages
  }

  /** A bucket holds annotated ops of cluster `c` below `n`. */
  lemma {:induction false} BucketIndexed(body: seq<Op>, c: int, n: nat)
    requires n <= |body|
    ensures AnnotatedIndices(body, Bucket(body, c, n))
    ensures forall p :: 0 <= p < |Bucket(body, c, n)| ==> Bucket(body, c, n)[p] < n && body[Bucket(body, c, n)[p]].cluster.value == c
    decreases n
  {
    if n > 0 {
      BucketIndexed(body, c, n - 1);
    }
  }

  /** A bucket holds every annotated op of cluster `c` below `n`. */
  lemma {:induction false} BucketMembers(body: seq<Op>, c: int, n: nat)
    requires n <= |body|
    ensures forall j: nat :: j in Bucket(body, c, n) <==> j < n && Annotated(body[j]) && body[j].cluster.value == c
    decreases n
  {
    if n > 0 {
      BucketMembers(body, c, n - 1);
    }
  }

  /** A bucket is in program order. */
  lemma {:induction false} BucketSorted(body: seq<Op>, c: int, n: nat)
    requires n <= |body|
    ensures forall p, q :: 0 <= p < q < |Bucket(body, c, n)| ==> Bucket(body, c, n)[p] < Bucket(body, c, n)[q]
    decreases n
  {
    if n > 0 {
      BucketSorted(body, c, n - 1);
      BucketIndexed(body, c, n - 1);
    }
  }

  /** The concatenated buckets hold annotated ops of clusters `lo` to `lo + k - 1`. */
  lemma {:induction false} BucketsIndexed(body: seq<Op>, lo: int, k: nat)
    ensures AnnotatedIndices(body, Buckets(body, lo, k))
    ensures forall p :: 0 <= p < |Buckets(body, lo, k)| ==>
      lo <= body[Buckets(body, lo, k)[p]].cluster.value < lo + k
    decreases k
  {
    if k > 0 {
      var a := Buckets(body, lo, k - 1);
      var b := Bucket(body, lo + k - 1, |body|);
      var s := a + b;
      assert s == Buckets(body, lo, k);
      assert AnnotatedIndices(body, a) && forall p :: 0 <= p < |a| ==> lo <= body[a[p]].cluster.value < lo + k - 1 by {
        BucketsIndexed(body, lo, k - 1);
      }
      assert AnnotatedIndices(body, b) && forall p :: 0 <= p < |b| ==> body[b[p]].cluster.value == lo + k - 1 by {
        BucketIndexed(body, lo + k - 1, |body|);
      }
      forall p | 0 <= p < |s|
        ensures s[p] < |body| && Annotated(body[s[p]]) && lo <= body[s[p]].cluster.value < lo + k
      {
        if p < |a| {
          assert s[p] == a[p];
        } else {
          assert s[p] == b[p - |a|];
        }
      }
    }
  }

  lemma {:induction false} BucketsMembers(body: seq<Op>, lo: int, k: nat)
    ensures forall j: nat :: j in Buckets(body, lo, k) <==>
      j < |body| && Annotated(body[j]) && lo <= body[j].cluster.value < lo + k
    decreases k
  {
    if k > 0 {
      var a := Buckets(body, lo, k - 1);
      var b := Bucket(body, lo + k - 1, |body|);
      assert Buckets(body, lo, k) == a + b;
      forall j: nat
        ensures j in a + b <==> j < |body| && Annotated(body[j]) && lo <= body[j].cluster.value < lo + k
      {
        assert j in a <==> j < |body| && Annotated(body[j]) && lo <= body[j].cluster.value < lo + k - 1 by {
          BucketsMembers(body, lo, k - 1);
        }
        assert j in b <==> j < |body| && Annotated(body[j]) && body[j].cluster.value == lo + k - 1 by {
          BucketMembers(body, lo + k - 1, |body|);
        }
        assert j in a + b <==> j in a || j in b;
      }
    }
  }

  lemma {:induction false} BucketsOrdered(body: seq<Op>, lo: int, k: nat)
    ensures AnnotatedIndices(body, Buckets(body, lo, k))
    ensures ClusterOrdered(body, Buckets(body, lo, k))
    decreases k
  {
    if k == 0 {
      assert Buckets(body, lo, k) == [];
    } else {
      var a := Buckets(body, lo, k - 1);
      var b := Bucket(body, lo + k - 1, |body|);
      var s := a + b;
      assert s == Buckets(body, lo, k);
      assert AnnotatedIndices(body, a) && ClusterOrdered(body, a) by {
        BucketsOrdered(body, lo, k - 1);
      }
      assert forall p :: 0 <= p < |a| ==> body[a[p]].cluster.value < lo + k - 1 by {
        BucketsIndexed(body, lo, k - 1);
      }
      assert AnnotatedIndices(body, b) && forall p :: 0 <= p < |b| ==> body[b[p]].cluster.value == lo + k - 1 by {
        BucketIndexed(body, lo + k - 1, |body|);
      }
      assert forall p, q :: 0 <= p < q < |b| ==> b[p] < b[q] by {
        BucketSorted(body, lo + k - 1, |body|);
      }
      ConcatOrdered(body, a, b, lo + k - 1);
    }
  }

  /** Appending a sorted bucket of cluster `c` to ops of lower clusters keeps the order. */
  lemma ConcatOrdered(body: seq<Op>, a: seq<nat>, b: seq<nat>, c: int)
    requires AnnotatedIndices(body, a) && ClusterOrdered(body, a)
    requires forall p :: 0 <= p < |a| ==> body[a[p]].cluster.value < c
    requires AnnotatedIndices(body, b) && forall p :: 0 <= p < |b| ==> body[b[p]].cluster.value == c
    requires forall p, q :: 0 <= p < q < |b| ==> b[p] < b[q]
    ensures AnnotatedIndices(body, a + b) && ClusterOrdered(body, a + b)
  {
    var s := a + b;
    forall p, q | 0 <= p < q < |s|
      ensures body[s[p]].cluster.value < body[s[q]].cluster.value
        || (body[s[p]].cluster.value == body[s[q]].cluster.value && s[p] < s[q])
    {
      if q < |a| {
        assert s[p] == a[p] && s[q] == a[q];
      } else if p < |a| {
        assert s[p] == a[p] && s[q] == b[q - |a|];
      } else {
        assert s[p] == b[p - |a|] && s[q] == b[q - |a|];
      }
    }
  }

  lemma WithStagesAppend(body: seq<Op>, a: seq<nat>, b: seq<nat>)
    requires AnnotatedIndices(body, a) && AnnotatedIndices(body, b)
    ensures AnnotatedIndices(body, a + b) && WithStages(body, a + b) == WithStages(body, a) + WithStages(body, b)
  {
  }

  /** The schedule the source builds, as a function of the body and the cluster range. */
  function Schedule(body: seq<Op>, minC: int, maxC: int): seq<(nat, int)>
    requires minC <= maxC + 1
  {
    BucketsIndexed(body, minC, maxC - minC + 1);
    WithStages(body, Buckets(body, minC, maxC - minC + 1))
  }

  /**
   * `r` holds exactly the annotated ops, once each, each paired with its own
   * stage (below `numStages`), ordered by ascending cluster with program
   * order inside a cluster.
   */
  ghost predicate StableClusterSchedule(body: seq<Op>, numStages: int, r: seq<(nat, int)>) {
    && (forall j: nat :: (exists p :: 0 <= p < |r| && r[p].0 == j) <==> j < |body| && Annotated(body[j]))
    && (forall p :: 0 <= p < |r| ==> r[p].0 < |body| && Annotated(body[r[p].0]) && r[p].1 == body[r[p].0].stage.value)
    && (forall p :: 0 <= p < |r| ==> r[p].1 < numStages)
    && (forall p, q :: 0 <= p < q < |r| ==>
          body[r[p].0].cluster.value < body[r[q].0].cluster.value
          || (body[r[p].0].cluster.value == body[r[q].0].cluster.value && r[p].0 < r[q].0))
  }

  /**
   * The final schedule contains exactly the annotated ops, once each, each
   * paired with its own stage, ordered by ascending cluster with program
   * order inside a cluster.
   */
  lemma ScheduleIsStableSortByCluster(body: seq<Op>, numStages: int, minC: int, maxC: int)
    requires ScheduleInputsOk(body, numStages, minC, maxC)
    ensures StableClusterSchedule(body, numStages, Schedule(body, minC, maxC))
  {
    var s := Buckets(body, minC, maxC - minC + 1);
    assert AnnotatedIndices(body, s) && ClusterOrdered(body, s) by {
      BucketsOrdered(body, minC, maxC - minC + 1);
    }
    assert forall j: nat :: j in s <==> j < |body| && Annotated(body[j]) by {
      BucketsMembers(body, minC, maxC - minC + 1);
    }
    StagedOrder(body, numStages, s);
    assert Schedule(body, minC, maxC) == WithStages(body, s);
  }

  /** Pairing an ordered sequence of all annotated ops with their stages. */
  lemma StagedOrder(body: seq<Op>, numStages: int, s: seq<nat>)
    requires AnnotatedIndices(body, s) && ClusterOrdered(body, s)
    requires forall j: nat :: j in s <==> j < |body| && Annotated(body[j])
    requires forall i :: 0 <= i < |body| && Annotated(body[i]) ==> body[i].stage.value < numStages
    ensures StableClusterSchedule(body, numStages, WithStages(body, s))
  {
    var r := WithStages(body, s);
    forall j: nat
      ensures (exists p :: 0 <= p < |r| && r[p].0 == j) <==> j < |body| && Annotated(body[j])
    {
      if j < |body| && Annotated(body[j]) {
        assert j in s;
        var p :| 0 <= p < |s| && s[p] == j;
        assert r[p].0 == j;
      }
      if exists p :: 0 <= p < |r| && r[p].0 == j {
        var p :| 0 <= p < |r| && r[p].0 == j;
        assert s[p] in s;
      }
    }
  }

  /** The first loop: each annotated op pushed onto its cluster's bucket. */
  method FillBuckets(body: seq<Op>, numStages: int, minC: int, maxC: int) returns (orderClusters: array<seq<nat>>)
    requires ScheduleInputsOk(body, numStages, minC, maxC)
    ensures fresh(orderClusters) && orderClusters.Length == maxC - minC + 1
    ensures forall c :: 0 <= c < orderClusters.Length ==> orderClusters[c] == Bucket(body, minC + c, |body|)
  {
    orderClusters := new seq<nat>[maxC - minC + 1](_ => []);
    for i := 0 to |body|
      invariant forall c :: 0 <= c < orderClusters.Length ==> orderClusters[c] == Bucket(body, minC + c, i)
    {
      if Annotated(body[i]) {
        var clusterId := body[i].cluster.value;
        orderClusters[clusterId - minC] := orderClusters[clusterId - minC] + [i];
      }
    }
  }

  /** The inner loop of the second phase: one bucket's ops, each with its stage. */
  method EmitBucket(body: seq<Op>, bucket: seq<nat>) returns (emitted: seq<(nat, int)>)
    requires AnnotatedIndices(body, bucket)
    ensures emitted == WithStages(body, bucket)
  {
    emitted := [];
    for k := 0 to |bucket|
      invariant emitted == WithStages(body, bucket[..k])
    {
      emitted := emitted + [(bucket[k], body[bucket[k]].stage.value)];
    }
    assert bucket[..|bucket|] == bucket;
  }

  /** getFinalSchedule: fill the buckets, then emit them in cluster order with each op's stage. */
  method GetFinalSchedule(body: seq<Op>, numStages: int, minC: int, maxC: int) returns (fSchedule: seq<(nat, int)>)
    requires ScheduleInputsOk(body, numStages, minC, maxC)
    ensures fSchedule == Schedule(body, minC, maxC)
  {
    var orderClusters := FillBuckets(body, numStages, minC, maxC);
    var buckets := orderClusters[..];
    fSchedule := [];
    for i := 0 to |buckets|
      invariant AnnotatedIndices(body, Buckets(body, minC, i))
      invariant fSchedule == WithStages(body, Buckets(body, minC, i))
    {
      var bucket := buckets[i];
      assert bucket == Bucket(body, minC + i, |body|);
      BucketIndexed(body, minC + i, |body|);
      var emitted := EmitBucket(body, bucket);
      ghost var done := Buckets(body, minC, i);
      assert Buckets(body, minC, i + 1) == done + bucket;
      WithStagesAppend(body, done, bucket);
      fSchedule := fSchedule + emitted;
    }
  }
}
