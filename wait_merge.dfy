/**
 * combineRedundantWaitOps: an `async_wait` followed, through subviews and
 * other waits only, by further waits is merged with them into one wait whose
 * count is the least of theirs; every wait of the run is replaced by it.
 */
module WaitMerge {

  /** The ops of a block as the merge sees them. Tokens are numbered values. */
  datatype BlockOp = AsyncWait(num: nat, operands: seq<nat>) | Subview | OtherOp

  predicate IsWaitOrView(op: BlockOp) {
    op.AsyncWait? || op.Subview?
  }

  /** Every op from `a` to `b` (both included) is a wait or a subview. */
  predicate Stretch(block: seq<BlockOp>, a: nat, b: nat)
    requires b < |block|
  {
    forall j :: a <= j <= b ==> IsWaitOrView(block[j])
  }

  /** Position `w` holds a wait. */
  predicate IsWaitAt(block: seq<BlockOp>, w: int) {
    0 <= w < |block| && block[w].AsyncWait?
  }

  /** The wait at `i` reaches position `w` through waits and subviews only. */
  predicate Reaches(block: seq<BlockOp>, i: nat, w: nat)
    requires w < |block|
  {
    i <= w && block[i].AsyncWait? && Stretch(block, i, w)
  }

  /** Where the `while (next && isa<...>(next))` scan from `j` stops. */
  function RunEnd(block: seq<BlockOp>, j: nat): (r: nat)
    requires j <= |block|
    ensures j <= r <= |block|
    ensures forall k :: j <= k < r ==> IsWaitOrView(block[k])
    ensures r == |block| || !IsWaitOrView(block[r])
    decreases |block| - j
  {
    if j == |block| || !IsWaitOrView(block[j]) then j else RunEnd(block, j + 1)
  }

  /** The waits among positions `a`, ..., `b - 1`, in order. */
  function WaitsIn(block: seq<BlockOp>, a: nat, b: nat): (r: seq<nat>)
    requires a <= b <= |block|
    ensures forall k :: 0 <= k < |r| ==> a <= r[k] < b && block[r[k]].AsyncWait?
    decreases b - a
  {
    if a == b then [] else WaitsIn(block, a, b - 1) + (if block[b - 1].AsyncWait? then [b - 1] else [])
  }

  /** The waits a scan from the wait at `s` collects: `s` itself and the waits up to where the scan stops. */
  function Run(block: seq<BlockOp>, s: nat): seq<nat>
    requires s < |block|
  {
    WaitsIn(block, s, RunEnd(block, s + 1))
  }

  /** Every entry is a wait of the block. */
  predicate WaitIndices(block: seq<BlockOp>, ws: seq<nat>) {
    forall k :: 0 <= k < |ws| ==> ws[k] < |block| && block[ws[k]].AsyncWait?
  }

  /** The least count among the waits. */
  function MinNum(block: seq<BlockOp>, ws: seq<nat>): (r: nat)
    requires WaitIndices(block, ws) && |ws| > 0
    decreases |ws|
  {
    if |ws| == 1 then block[ws[0]].num
    else
      var m := MinNum(block, ws[..|ws| - 1]);
      var n := block[ws[|ws| - 1]].num;
      if n < m then n else m
  }

  /** The operands of the waits, one wait after the other. */
  function Tokens(block: seq<BlockOp>, ws: seq<nat>): seq<nat>
    requires WaitIndices(block, ws)
    decreases |ws|
  {
    if ws == [] then [] else Tokens(block, ws[..|ws| - 1]) + block[ws[|ws| - 1]].operands
  }

  /** The new wait of a merged run: the waits it replaces, its count and its token operands. */
  datatype MergedWait = MergedWait(members: seq<nat>, num: nat, depTokens: seq<nat>)

  /** The new wait the source builds for the run scanned from `s`: the operands of all but the first wait. */
  function MergeOf(block: seq<BlockOp>, s: nat): MergedWait
    requires s < |block| && block[s].AsyncWait?
  {
    var ws := Run(block, s);
    RunStartsAtSeed(block, s);
    MergedWait(ws, MinNum(block, ws), Tokens(block, ws[1..]))
  }

  /** One step of the outer loop, at position `k`. */
  function Step(block: seq<BlockOp>, k: nat, toDelete: map<nat, nat>, merged: seq<MergedWait>): (map<nat, nat>, seq<MergedWait>)
    requires k < |block|
  {
    if !block[k].AsyncWait? || k in toDelete || !Merges(block, k) then (toDelete, merged)
    else (toDelete + map j | j in Run(block, k) :: |merged|, merged + [MergeOf(block, k)])
  }

  /** The state after the outer loop has visited the ops before position `n`. */
  function Combine(block: seq<BlockOp>, n: nat): (map<nat, nat>, seq<MergedWait>)
    requires n <= |block|
  {
    if n == 0 then (map[], [])
    else Step(block, n - 1, Combine(block, n - 1).0, Combine(block, n - 1).1)
  }

  /** The run scanned from `s` has more than one wait, so the source merges it. */
  predicate Merges(block: seq<BlockOp>, s: nat)
    requires s < |block|
  {
    |Run(block, s)| > 1
  }

  // ---------------------------------------------------------------------------
  // Facts about one run
  // ---------------------------------------------------------------------------

  lemma {:induction false} WaitsInMembers(block: seq<BlockOp>, a: nat, b: nat)
    requires a <= b <= |block|
    ensures forall w :: w in WaitsIn(block, a, b) <==> a <= w < b && block[w].AsyncWait?
    ensures forall i, j :: 0 <= i < j < |WaitsIn(block, a, b)| ==> WaitsIn(block, a, b)[i] < WaitsIn(block, a, b)[j]
    decreases b - a
  {
    if a < b {
      WaitsInMembers(block, a, b - 1);
    }
  }

  lemma {:induction false} WaitsInStartsAt(block: seq<BlockOp>, a: nat, b: nat)
    requires a < b <= |block| && block[a].AsyncWait?
    ensures |WaitsIn(block, a, b)| > 0 && WaitsIn(block, a, b)[0] == a
    decreases b - a
  {
    var pre := WaitsIn(block, a, b - 1);
    assert WaitsIn(block, a, b) == pre + (if block[b - 1].AsyncWait? then [b - 1] else []);
    if a < b - 1 {
      assert |pre| > 0 && pre[0] == a by { WaitsInStartsAt(block, a, b - 1); }
    } else {
      assert pre == [];
    }
  }

  /** The run scanned from a wait starts with that wait. */
  lemma RunStartsAtSeed(block: seq<BlockOp>, s: nat)
    requires s < |block| && block[s].AsyncWait?
    ensures |Run(block, s)| > 0 && Run(block, s)[0] == s && WaitIndices(block, Run(block, s))
  {
    WaitsInStartsAt(block, s, RunEnd(block, s + 1));
  }

  /** A wait is in the run from `s` exactly when only waits and subviews lie from `s` to it. */
  lemma RunMembers(block: seq<BlockOp>, s: nat)
    requires s < |block| && block[s].AsyncWait?
    ensures forall w :: w in Run(block, s) <==> s <= w < |block| && block[w].AsyncWait? && Reaches(block, s, w)
    ensures forall i, j :: 0 <= i < j < |Run(block, s)| ==> Run(block, s)[i] < Run(block, s)[j]
  {
    var e := RunEnd(block, s + 1);
    WaitsInMembers(block, s, e);
    forall w | s <= w < |block| && block[w].AsyncWait? && Reaches(block, s, w)
      ensures w < e
    {
    }
  }

  /** The merged count is the least count of the run, and the count of one of its waits. */
  lemma {:induction false} MinNumIsLeast(block: seq<BlockOp>, ws: seq<nat>)
    requires WaitIndices(block, ws) && |ws| > 0
    ensures forall k :: 0 <= k < |ws| ==> MinNum(block, ws) <= block[ws[k]].num
    ensures exists k :: 0 <= k < |ws| && MinNum(block, ws) == block[ws[k]].num
    decreases |ws|
  {
    if |ws| > 1 {
      var pre := ws[..|ws| - 1];
      MinNumIsLeast(block, pre);
      var k :| 0 <= k < |pre| && MinNum(block, pre) == block[pre[k]].num;
      assert pre[k] == ws[k];
      forall j | 0 <= j < |ws|
        ensures MinNum(block, ws) <= block[ws[j]].num
      {
        if j < |pre| {
          assert pre[j] == ws[j];
        }
      }
    }
  }

  /** The tokens are exactly the operands of the waits, in order. */
  lemma {:induction false} TokensAppend(block: seq<BlockOp>, a: seq<nat>, b: seq<nat>)
    requires WaitIndices(block, a) && WaitIndices(block, b)
    ensures WaitIndices(block, a + b) && Tokens(block, a + b) == Tokens(block, a) + Tokens(block, b)
    decreases |b|
  {
    if b == [] {
      assert a + b == a;
    } else {
      var pre := b[..|b| - 1];
      var ops := block[b[|b| - 1]].operands;
      assert WaitIndices(block, a + pre) && Tokens(block, a + pre) == Tokens(block, a) + Tokens(block, pre) by {
        TokensAppend(block, a, pre);
      }
      assert (a + b)[..|a + b| - 1] == a + pre;
      assert (a + b)[|a + b| - 1] == b[|b| - 1];
      assert Tokens(block, a + b) == Tokens(block, a + pre) + ops;
      assert Tokens(block, b) == Tokens(block, pre) + ops;
      assert (Tokens(block, a) + Tokens(block, pre)) + ops == Tokens(block, a) + (Tokens(block, pre) + ops);
    }
  }

  // ---------------------------------------------------------------------------
  // The lead wait of a run
  // ---------------------------------------------------------------------------

  /** A wait no earlier wait reaches through waits and subviews: the first wait of its run. */
  predicate IsLead(block: seq<BlockOp>, s: nat)
    requires s < |block|
  {
    block[s].AsyncWait? && forall i: nat :: i < s ==> !Reaches(block, i, s)
  }

  /** The backward scan from position `j` over waits and subviews, remembering the earliest wait. */
  function LeadScan(block: seq<BlockOp>, w: nat, j: nat, best: nat): (r: nat)
    requires j <= best <= w < |block| && block[best].AsyncWait? && Stretch(block, j, w)
    requires forall i :: j <= i < best ==> !block[i].AsyncWait?
    ensures r <= best && block[r].AsyncWait? && Stretch(block, r, w)
    ensures forall i: nat :: i < r ==> !Reaches(block, i, w)
    decreases j
  {
    if j == 0 || !IsWaitOrView(block[j - 1]) then best
    else LeadScan(block, w, j - 1, if block[j - 1].AsyncWait? then j - 1 else best)
  }

  /** The first wait of the run a wait belongs to. */
  function Lead(block: seq<BlockOp>, w: nat): (r: nat)
    requires w < |block| && block[w].AsyncWait?
    ensures r <= w && block[r].AsyncWait?
  {
    LeadScan(block, w, w, w)
  }

  /** The lead reaches the wait through waits and subviews, and no earlier wait reaches the lead. */
  lemma LeadFacts(block: seq<BlockOp>, w: nat)
    requires w < |block| && block[w].AsyncWait?
    ensures Stretch(block, Lead(block, w), w) && IsLead(block, Lead(block, w))
  {
    var r := Lead(block, w);
    forall i: nat | i < r
      ensures !Reaches(block, i, r)
    {
    }
  }

  /** A wait is in the run of a lead wait exactly when that lead is its own lead. */
  lemma LeadOfRunMember(block: seq<BlockOp>, s: nat, w: nat)
    requires s < |block| && IsLead(block, s) && w < |block| && block[w].AsyncWait?
    ensures w in Run(block, s) <==> Lead(block, w) == s
  {
    RunMembers(block, s);
    LeadFacts(block, w);
    var r := Lead(block, w);
    if w in Run(block, s) && r != s {
      assert Reaches(block, s, w);
      if r < s {
        assert Reaches(block, r, s);
      }
    }
    if r == s {
      assert Reaches(block, s, w);
    }
  }

  /** A lead is its own lead. */
  lemma LeadOfLead(block: seq<BlockOp>, w: nat)
    requires w < |block| && block[w].AsyncWait?
    ensures Lead(block, Lead(block, w)) == Lead(block, w)
  {
    LeadFacts(block, w);
    var s := Lead(block, w);
    LeadOfRunMember(block, s, s);
    RunStartsAtSeed(block, s);
  }

  /** The run from the lead of a later wait holds both. */
  lemma RunOfLeadHoldsTwo(block: seq<BlockOp>, w: nat)
    requires w < |block| && block[w].AsyncWait? && Lead(block, w) < w
    ensures |Run(block, Lead(block, w))| > 1
  {
    var s := Lead(block, w);
    LeadFacts(block, w);
    RunStartsAtSeed(block, s);
    LeadOfRunMember(block, s, w);
    var i :| 0 <= i < |Run(block, s)| && Run(block, s)[i] == w;
  }

  // ---------------------------------------------------------------------------
  // The whole merge
  // ---------------------------------------------------------------------------

  /** The state after `n` ops is one step on from the state after `n - 1`. */
  lemma CombineStep(block: seq<BlockOp>, n: nat)
    requires 0 < n <= |block|
    ensures Combine(block, n) == Step(block, n - 1, Combine(block, n - 1).0, Combine(block, n - 1).1)
  {
  }

  /** Which waits are to be deleted after the outer loop has visited the ops before `n`. */
  ghost predicate KeysInv(block: seq<BlockOp>, n: nat, toDelete: map<nat, nat>) {
    forall w: nat {:trigger w in toDelete} :: w in toDelete <==> IsWaitAt(block, w) && Lead(block, w) < n && Merges(block, Lead(block, w))
  }

  /** What each deleted wait is replaced by. */
  predicate ValuesInv(block: seq<BlockOp>, toDelete: map<nat, nat>, merged: seq<MergedWait>) {
    forall w {:trigger w in toDelete} :: w in toDelete ==>
      IsWaitAt(block, w) && toDelete[w] < |merged| && merged[toDelete[w]] == MergeOf(block, Lead(block, w))
  }

  /** The waits of the run from a lead `k` are exactly the waits whose lead is `k`. */
  lemma RunIsLedBy(block: seq<BlockOp>, k: nat)
    requires k < |block| && block[k].AsyncWait? && Lead(block, k) == k
    ensures forall w: nat :: w in Run(block, k) <==> IsWaitAt(block, w) && Lead(block, w) == k
  {
    LeadFacts(block, k);
    RunMembers(block, k);
    forall w: nat | IsWaitAt(block, w)
      ensures w in Run(block, k) <==> Lead(block, w) == k
    {
      LeadOfRunMember(block, k, w);
    }
  }

  /** At a wait the loop has not deleted yet, the wait is the lead of its run. */
  lemma UndeletedWaitLeads(block: seq<BlockOp>, k: nat, toDelete: map<nat, nat>)
    requires k < |block| && block[k].AsyncWait? && k !in toDelete && KeysInv(block, k, toDelete)
    ensures Lead(block, k) == k
  {
    if Lead(block, k) < k {
      RunOfLeadHoldsTwo(block, k);
    }
  }

  /** The keys after one more step of the outer loop, for one wait. */
  lemma KeysStep(block: seq<BlockOp>, k: nat, td: map<nat, nat>, ms: seq<MergedWait>, w: nat)
    requires k < |block| && KeysInv(block, k, td)
    requires w < |block| && block[w].AsyncWait?
    ensures w in Step(block, k, td, ms).0 <==> Lead(block, w) < k + 1 && Merges(block, Lead(block, w))
  {
    if !block[k].AsyncWait? {
    } else if k in td {
      LeadOfLead(block, w);
    } else {
      UndeletedWaitLeads(block, k, td);
      RunIsLedBy(block, k);
    }
  }

  /** One step of the outer loop keeps the keys invariant. */
  lemma KeysStepAll(block: seq<BlockOp>, n: nat, td: map<nat, nat>, ms: seq<MergedWait>)
    requires 0 < n <= |block| && KeysInv(block, n - 1, td)
    ensures KeysInv(block, n, Step(block, n - 1, td, ms).0)
  {
    var k := n - 1;
    var td' := Step(block, k, td, ms).0;
    forall w: nat
      ensures w in td' <==> IsWaitAt(block, w) && Lead(block, w) < n && Merges(block, Lead(block, w))
    {
      if IsWaitAt(block, w) {
        KeysStep(block, k, td, ms, w);
      } else if w in td' && w !in td {
        RunStartsAtSeed(block, k);
      }
    }
  }

  lemma {:induction false} CombineKeys(block: seq<BlockOp>, n: nat)
    requires n <= |block|
    ensures KeysInv(block, n, Combine(block, n).0)
    decreases n
  {
    if n > 0 {
      CombineKeys(block, n - 1);
      CombineStep(block, n);
      KeysStepAll(block, n, Combine(block, n - 1).0, Combine(block, n - 1).1);
    }
  }

  /** The value of one deleted wait after one more step of the outer loop. */
  lemma ValuesStep(block: seq<BlockOp>, k: nat, td: map<nat, nat>, ms: seq<MergedWait>, w: nat)
    requires k < |block| && ValuesInv(block, td, ms) && KeysInv(block, k, td)
    requires w in Step(block, k, td, ms).0
    ensures w < |block| && block[w].AsyncWait?
    ensures Step(block, k, td, ms).0[w] < |Step(block, k, td, ms).1|
    ensures Step(block, k, td, ms).1[Step(block, k, td, ms).0[w]] == MergeOf(block, Lead(block, w))
  {
    if block[k].AsyncWait? && k !in td && Merges(block, k) {
      UndeletedWaitLeads(block, k, td);
      RunIsLedBy(block, k);
      var ws := Run(block, k);
      var td' := td + map j | j in ws :: |ms|;
      if w in ws {
        assert td'[w] == |ms|;
      } else {
        assert td'[w] == td[w];
      }
    }
  }

  /** One step of the outer loop keeps the values invariant. */
  lemma ValuesStepAll(block: seq<BlockOp>, k: nat, td: map<nat, nat>, ms: seq<MergedWait>)
    requires k < |block| && ValuesInv(block, td, ms) && KeysInv(block, k, td)
    ensures ValuesInv(block, Step(block, k, td, ms).0, Step(block, k, td, ms).1)
  {
    var st := Step(block, k, td, ms);
    forall w | w in st.0
      ensures IsWaitAt(block, w) && st.0[w] < |st.1| && st.1[st.0[w]] == MergeOf(block, Lead(block, w))
    {
      ValuesStep(block, k, td, ms, w);
    }
  }

  lemma {:induction false} CombineValues(block: seq<BlockOp>, n: nat)
    requires n <= |block|
    ensures ValuesInv(block, Combine(block, n).0, Combine(block, n).1)
    decreases n
  {
    if n > 0 {
      CombineValues(block, n - 1);
      CombineKeys(block, n - 1);
      CombineStep(block, n);
      ValuesStepAll(block, n - 1, Combine(block, n - 1).0, Combine(block, n - 1).1);
    }
  }

  /** The state of the run scan from the wait at `k` once it has looked at the ops before `next`. */
  predicate Scanned(block: seq<BlockOp>, k: nat, next: nat, waitGroup: seq<nat>, minWaitNumber: nat, depTokens: seq<nat>)
    requires k < next <= |block|
  {
    waitGroup == WaitsIn(block, k, next) && |waitGroup| > 0 && waitGroup[0] == k
    && WaitIndices(block, waitGroup)
    && minWaitNumber == MinNum(block, waitGroup)
    && depTokens == Tokens(block, waitGroup[1..])
  }

  /** One op more in the run scan: a wait joins the group, its count the minimum and its operands the tokens. */
  lemma ScanAdvance(block: seq<BlockOp>, k: nat, next: nat, waitGroup: seq<nat>, minWaitNumber: nat, depTokens: seq<nat>)
    requires k < next < |block| && Scanned(block, k, next, waitGroup, minWaitNumber, depTokens)
    ensures block[next].AsyncWait? ==>
      Scanned(block, k, next + 1, waitGroup + [next],
              if block[next].num < minWaitNumber then block[next].num else minWaitNumber,
              depTokens + block[next].operands)
    ensures !block[next].AsyncWait? ==> Scanned(block, k, next + 1, waitGroup, minWaitNumber, depTokens)
  {
    assert WaitsIn(block, k, next + 1) == WaitsIn(block, k, next) + (if block[next].AsyncWait? then [next] else []);
    if block[next].AsyncWait? {
      WaitStep(block, waitGroup, next);
    }
  }

  /** The run scan of the source: collect the waits, their least count and the later waits' operands. */
  method ScanRun(block: seq<BlockOp>, k: nat) returns (waitGroup: seq<nat>, minWaitNumber: nat, depTokens: seq<nat>)
    requires k < |block| && block[k].AsyncWait?
    ensures waitGroup == Run(block, k)
    ensures MergeOf(block, k) == MergedWait(waitGroup, minWaitNumber, depTokens)
  {
    waitGroup := [k];
    minWaitNumber := block[k].num;
    depTokens := [];
    var next := k + 1;
    assert WaitsIn(block, k, k + 1) == [k];
    assert [k][1..] == [];
    while next < |block| && IsWaitOrView(block[next])
      invariant k + 1 <= next <= |block|
      invariant RunEnd(block, k + 1) == RunEnd(block, next)
      invariant Scanned(block, k, next, waitGroup, minWaitNumber, depTokens)
      decreases |block| - next
    {
      ScanAdvance(block, k, next, waitGroup, minWaitNumber, depTokens);
      if block[next].AsyncWait? {
        waitGroup := waitGroup + [next];
        if block[next].num < minWaitNumber {
          minWaitNumber := block[next].num;
        }
        depTokens := depTokens + block[next].operands;
      }
      next := next + 1;
    }
  }

  /** One more wait in the scan: its count enters the minimum and its operands the tokens. */
  lemma WaitStep(block: seq<BlockOp>, ws: seq<nat>, x: nat)
    requires WaitIndices(block, ws) && |ws| > 0 && x < |block| && block[x].AsyncWait?
    ensures WaitIndices(block, ws + [x]) && (ws + [x])[0] == ws[0]
    ensures MinNum(block, ws + [x]) == if block[x].num < MinNum(block, ws) then block[x].num else MinNum(block, ws)
    ensures Tokens(block, (ws + [x])[1..]) == Tokens(block, ws[1..]) + block[x].operands
  {
    assert (ws + [x])[..|ws|] == ws;
    assert (ws + [x])[1..] == ws[1..] + [x];
    TokensAppend(block, ws[1..], [x]);
    assert Tokens(block, [x]) == block[x].operands by {
      assert [x][..0] == [];
    }
  }

  /** combineRedundantWaitOps over one block: the `toDelete` map and the new waits, in the order they are made. */
  method CombineRedundantWaitOps(block: seq<BlockOp>) returns (toDelete: map<nat, nat>, merged: seq<MergedWait>)
    ensures (toDelete, merged) == Combine(block, |block|)
  {
    toDelete := map[];
    merged := [];
    for k := 0 to |block|
      invariant (toDelete, merged) == Combine(block, k)
    {
      if block[k].AsyncWait? && k !in toDelete {
        var waitGroup, minWaitNumber, depTokens := ScanRun(block, k);
        if |waitGroup| != 1 {
          RunStartsAtSeed(block, k);
          toDelete := toDelete + map j | j in waitGroup :: |merged|;
          merged := merged + [MergedWait(waitGroup, minWaitNumber, depTokens)];
        }
      }
    }
  }

  /**
   * The merge in full: a wait is replaced exactly when the run scanned from
   * its lead has more than one wait, and then by the new wait made for that
   * run; a wait alone in its run is left untouched.
   */
  lemma CombineMergesRuns(block: seq<BlockOp>)
    ensures var (toDelete, merged) := Combine(block, |block|);
      forall w :: IsWaitAt(block, w) ==>
        && (w in toDelete <==> |Run(block, Lead(block, w))| > 1)
        && (w in toDelete ==> toDelete[w] < |merged| && merged[toDelete[w]] == MergeOf(block, Lead(block, w)))
  {
    CombineKeys(block, |block|);
    CombineValues(block, |block|);
  }

  /** What the new wait of a run is made of. */
  lemma MergeOfRun(block: seq<BlockOp>, s: nat)
    requires s < |block| && IsLead(block, s)
    ensures var m := MergeOf(block, s);
      && |m.members| > 0 && m.members[0] == s && WaitIndices(block, m.members)
      && (forall w :: w in m.members <==> IsWaitAt(block, w) && Lead(block, w) == s)
      && (forall k :: 0 <= k < |m.members| ==> m.num <= block[m.members[k]].num)
      && (exists k :: 0 <= k < |m.members| && m.num == block[m.members[k]].num)
      && m.depTokens == Tokens(block, m.members[1..])
  {
    RunStartsAtSeed(block, s);
    MinNumIsLeast(block, Run(block, s));
    forall w | IsWaitAt(block, w)
      ensures w in Run(block, s) <==> Lead(block, w) == s
    {
      LeadOfRunMember(block, s, w);
    }
    RunMembers(block, s);
  }
}
