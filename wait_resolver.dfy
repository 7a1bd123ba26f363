/**
 * minNumInterleavedCommitOps: the number an `async_wait` may wait for is the
 * least number of `async_commit_group` ops between the wait and the op that
 * made its token, over every history of the token: a value made by an op,
 * or a loop-carried argument, which came either from the loop's init value
 * (before the loop) or from the previous iteration's yield.
 */
module WaitResolver {
  import opened Wrappers

  /** `INT_MAX`, the running minimum's start value. */
  const IntMax: int := 0x7fff_ffff

  /**
   * A token: the result of the op at a position, the iter arg `idx` (block
   * argument `idx + 1`) of a loop, or a value the resolver cannot track (a
   * block argument of anything but a `scf.for`).
   */
  datatype Value = Result(def: nat) | IterArg(loop: nat, idx: nat) | Untracked

  /** An op of the program: whether it is an `async_commit_group`, and its block. */
  datatype Node = Node(isCommit: bool, block: nat)

  /** A `scf.for`: its position, the first op of its body, its yield, its init args and its yielded values. */
  datatype Loop = Loop(forOp: nat, firstBodyOp: nat, yieldOp: nat, initArgs: seq<Value>, yielded: seq<Value>)

  /** The ops in program order and the loops. */
  datatype Program = Program(ops: seq<Node>, loops: seq<Loop>)

  predicate ValidValue(p: Program, v: Value) {
    v.IterArg? ==> v.loop < |p.loops| && v.idx < |p.loops[v.loop].initArgs|
  }

  predicate ValidProgram(p: Program) {
    forall l :: 0 <= l < |p.loops| ==>
      && p.loops[l].forOp < |p.ops| && p.loops[l].yieldOp < |p.ops|
      && |p.loops[l].yielded| == |p.loops[l].initArgs|
      && (forall i :: 0 <= i < |p.loops[l].initArgs| ==>
            ValidValue(p, p.loops[l].initArgs[i]) && ValidValue(p, p.loops[l].yielded[i]))
  }

  /**
   * countCommitsBetween: the commit ops from position `a` up to (not
   * including) the op at `b`, counting only ops of `b`'s block, so the
   * children of nested ops are skipped.
   */
  function Commits(ops: seq<Node>, a: nat, b: nat): (r: nat)
    requires b < |ops|
    ensures r <= (if a <= b then b - a else 0)
    decreases b - a
  {
    if a >= b then 0
    else (if ops[a].isCommit && ops[a].block == ops[b].block then 1 else 0) + Commits(ops, a + 1, b)
  }

  /** The counting loop of `countCommitsBetween`. */
  method CountCommitsBetween(ops: seq<Node>, op1: nat, op2: nat) returns (count: nat)
    requires op1 <= op2 < |ops|
    ensures count == Commits(ops, op1, op2)
  {
    count := 0;
    var op := op1;
    while op != op2
      invariant op1 <= op <= op2
      invariant count + Commits(ops, op, op2) == Commits(ops, op1, op2)
      decreases op2 - op
    {
      if ops[op].isCommit && ops[op].block == ops[op2].block {
        count := count + 1;
      }
      op := op + 1;
    }
  }

  function Min(a: int, b: int): (r: int)
    ensures r <= a && r <= b && (r == a || r == b)
  {
    if a <= b then a else b
  }

  /**
   * The recursion `minOverHistories` exactly as written, with a fuel bound
   * on its depth: `None` when the fuel runs out. The pair is the returned
   * value and the new running minimum `minCommitNumber`.
   */
  function MinOverHistoriesAsWritten(p: Program, val: Value, sink: nat, sum: int, m: int, fuel: nat): Option<(int, int)>
    requires ValidProgram(p) && ValidValue(p, val) && sink < |p.ops|
    decreases fuel
  {
    if fuel == 0 then None
    else match val
      case Result(d) =>
        var s := sum + Commits(p.ops, d + 1, sink);
        Some((Min(m, s), Min(m, s)))
      case Untracked => Some((0, m))
      case IterArg(l, i) =>
        var lp := p.loops[l];
        var s := sum + Commits(p.ops, lp.firstBodyOp, sink);
        if s >= m then Some((m, m))
        else match MinOverHistoriesAsWritten(p, lp.initArgs[i], lp.forOp, s, m, fuel - 1)
          case None => None
          case Some(r1) =>
            match MinOverHistoriesAsWritten(p, lp.yielded[i], lp.yieldOp, s, r1.1, fuel - 1)
              case None => None
              case Some(r2) => Some((Min(Min(r1.0, r2.0), r2.1), r2.1))
  }

  /** minNumInterleavedCommitOps as written, with the recursion's fuel bound. */
  function MinNumInterleavedCommitOpsAsWritten(p: Program, wait: nat, operands: seq<Value>, fuel: nat): (r: Option<int>)
    requires ValidProgram(p) && wait < |p.ops| && forall k :: 0 <= k < |operands| ==> ValidValue(p, operands[k])
    ensures |operands| != 1 ==> r == Some(0)
  {
    if |operands| != 1 then Some(0)
    else match MinOverHistoriesAsWritten(p, operands[0], wait, 0, IntMax, fuel)
      case None => None
      case Some(r) => Some(r.0)
  }

  /** Every iter arg of the program. */
  function IterArgs(p: Program): set<(nat, nat)> {
    set l, i | 0 <= l < |p.loops| && 0 <= i < |p.loops[l].initArgs| :: (l, i)
  }

  /**
   * The recursion with the iter args already on the current path pruned
   * like a path whose sum has reached the minimum: going round a loop-carried
   * cycle again only adds commits, so it cannot lower the minimum.
   */
  function MinOverHistories(p: Program, val: Value, sink: nat, sum: nat, m: nat, onPath: set<(nat, nat)>): (r: (nat, nat))
    requires ValidProgram(p) && ValidValue(p, val) && sink < |p.ops|
    ensures r.1 <= m && (r.0 == 0 || r.0 == r.1)
    decreases IterArgs(p) - onPath, 1
  {
    match val
    case Result(d) =>
      var s := sum + Commits(p.ops, d + 1, sink);
      (Min(m, s), Min(m, s))
    case Untracked => (0, m)
    case IterArg(l, i) => MinAtIterArg(p, l, i, sink, sum, m, onPath)
  }

  /** The recursion at an iter arg: its init value, then its yielded value, each seen from the body's start. */
  function MinAtIterArg(p: Program, l: nat, i: nat, sink: nat, sum: nat, m: nat, onPath: set<(nat, nat)>): (r: (nat, nat))
    requires ValidProgram(p) && ValidValue(p, IterArg(l, i)) && sink < |p.ops|
    ensures r.1 <= m && (r.0 == 0 || r.0 == r.1)
    decreases IterArgs(p) - onPath, 0
  {
    var lp := p.loops[l];
    var s := sum + Commits(p.ops, lp.firstBodyOp, sink);
    if s >= m || (l, i) in onPath then (m, m)
    else
      assert (l, i) in IterArgs(p);
      var r1 := MinOverHistories(p, lp.initArgs[i], lp.forOp, s, m, onPath + {(l, i)});
      var r2 := MinOverHistories(p, lp.yielded[i], lp.yieldOp, s, r1.1, onPath + {(l, i)});
      (Min(Min(r1.0, r2.0), r2.1), r2.1)
  }

  /** minNumInterleavedCommitOps with the pruned recursion: 0 unless the wait has exactly one operand. */
  function MinNumInterleavedCommitOps(p: Program, wait: nat, operands: seq<Value>): (r: int)
    requires ValidProgram(p) && wait < |p.ops| && forall k :: 0 <= k < |operands| ==> ValidValue(p, operands[k])
    ensures |operands| != 1 ==> r == 0
    ensures r <= IntMax
  {
    if |operands| != 1 then 0
    else MinOverHistories(p, operands[0], wait, 0, IntMax, {}).0
  }

  // ---------------------------------------------------------------------------
  // Histories of a token
  // ---------------------------------------------------------------------------

  /**
   * The commits along one history of `val` seen from `sink`: at each iter
   * arg, `false` follows the init value (seen from the loop op) and `true`
   * the previous iteration's yielded value (seen from the yield). `None` when
   * the choices do not lead exactly to a value made by an op.
   */
  function HistoryCount(p: Program, val: Value, sink: nat, choices: seq<bool>): Option<nat>
    requires ValidProgram(p) && ValidValue(p, val) && sink < |p.ops|
    decreases |choices|
  {
    match val
    case Result(d) => if choices == [] then Some(Commits(p.ops, d + 1, sink)) else None
    case Untracked => None
    case IterArg(l, i) =>
      if choices == [] then None
      else
        var lp := p.loops[l];
        var c := Commits(p.ops, lp.firstBodyOp, sink);
        var rest := if choices[0] then HistoryCount(p, lp.yielded[i], lp.yieldOp, choices[1..])
                    else HistoryCount(p, lp.initArgs[i], lp.forOp, choices[1..]);
        if rest.None? then None else Some(c + rest.value)
  }

  /** The iter args a history passes through, in order. */
  function ArgsOn(p: Program, val: Value, sink: nat, choices: seq<bool>): seq<(nat, nat)>
    requires ValidProgram(p) && ValidValue(p, val) && sink < |p.ops|
    decreases |choices|
  {
    if choices == [] || !val.IterArg? then []
    else
      var lp := p.loops[val.loop];
      [(val.loop, val.idx)] + (if choices[0] then ArgsOn(p, lp.yielded[val.idx], lp.yieldOp, choices[1..])
                               else ArgsOn(p, lp.initArgs[val.idx], lp.forOp, choices[1..]))
  }

  /** A history that passes no iter arg twice and none of `avoid`. */
  predicate Simple(p: Program, val: Value, sink: nat, choices: seq<bool>, avoid: set<(nat, nat)>)
    requires ValidProgram(p) && ValidValue(p, val) && sink < |p.ops|
  {
    var args := ArgsOn(p, val, sink, choices);
    && (forall j, k :: 0 <= j < k < |args| ==> args[j] != args[k])
    && (forall j :: 0 <= j < |args| ==> args[j] !in avoid)
  }

  /** The first step of a simple history, and the simple history after it. */
  lemma SimpleStep(p: Program, l: nat, i: nat, sink: nat, choices: seq<bool>, avoid: set<(nat, nat)>)
    requires ValidProgram(p) && ValidValue(p, IterArg(l, i)) && sink < |p.ops|
    requires HistoryCount(p, IterArg(l, i), sink, choices).Some? && Simple(p, IterArg(l, i), sink, choices, avoid)
    ensures |choices| > 0 && (l, i) !in avoid
    ensures var lp := p.loops[l];
      var v' := if choices[0] then lp.yielded[i] else lp.initArgs[i];
      var s' := if choices[0] then lp.yieldOp else lp.forOp;
      && HistoryCount(p, v', s', choices[1..]).Some?
      && Simple(p, v', s', choices[1..], avoid + {(l, i)})
      && HistoryCount(p, IterArg(l, i), sink, choices).value
         == Commits(p.ops, lp.firstBodyOp, sink) + HistoryCount(p, v', s', choices[1..]).value
  {
    var lp := p.loops[l];
    var v' := if choices[0] then lp.yielded[i] else lp.initArgs[i];
    var s' := if choices[0] then lp.yieldOp else lp.forOp;
    var args := ArgsOn(p, IterArg(l, i), sink, choices);
    var tail := ArgsOn(p, v', s', choices[1..]);
    assert args == [(l, i)] + tail;
    assert args[0] !in avoid;
    forall j | 0 <= j < |tail|
      ensures tail[j] !in avoid + {(l, i)}
    {
      assert tail[j] == args[j + 1];
      assert args[0] != args[j + 1] && args[j + 1] !in avoid;
    }
    forall j, k | 0 <= j < k < |tail|
      ensures tail[j] != tail[k]
    {
      assert tail[j] == args[j + 1] && tail[k] == args[k + 1];
    }
  }

  /** One step in front of a simple history avoiding the iter arg and the path gives a simple history avoiding the path. */
  lemma ExtendSimple(p: Program, l: nat, i: nat, sink: nat, choice: bool, rest: seq<bool>, avoid: set<(nat, nat)>)
    requires ValidProgram(p) && ValidValue(p, IterArg(l, i)) && sink < |p.ops| && (l, i) !in avoid
    requires var lp := p.loops[l];
      var v' := if choice then lp.yielded[i] else lp.initArgs[i];
      var s' := if choice then lp.yieldOp else lp.forOp;
      HistoryCount(p, v', s', rest).Some? && Simple(p, v', s', rest, avoid + {(l, i)})
    ensures var lp := p.loops[l];
      var v' := if choice then lp.yielded[i] else lp.initArgs[i];
      var s' := if choice then lp.yieldOp else lp.forOp;
      && HistoryCount(p, IterArg(l, i), sink, [choice] + rest).Some?
      && Simple(p, IterArg(l, i), sink, [choice] + rest, avoid)
      && HistoryCount(p, IterArg(l, i), sink, [choice] + rest).value
         == Commits(p.ops, lp.firstBodyOp, sink) + HistoryCount(p, v', s', rest).value
  {
    var lp := p.loops[l];
    var v' := if choice then lp.yielded[i] else lp.initArgs[i];
    var s' := if choice then lp.yieldOp else lp.forOp;
    assert ([choice] + rest)[1..] == rest;
    var tail := ArgsOn(p, v', s', rest);
    var args := ArgsOn(p, IterArg(l, i), sink, [choice] + rest);
    assert args == [(l, i)] + tail;
    forall j, k | 0 <= j < k < |args|
      ensures args[j] != args[k]
    {
      if j == 0 {
        assert args[k] == tail[k - 1];
      } else {
        assert args[j] == tail[j - 1] && args[k] == tail[k - 1];
      }
    }
  }

  /** The running minimum ends at most at `sum` plus the commits of any simple history avoiding the path so far. */
  lemma {:induction false} MinIsLowerBound(p: Program, val: Value, sink: nat, sum: nat, m: nat,
                                           onPath: set<(nat, nat)>, choices: seq<bool>)
    requires ValidProgram(p) && ValidValue(p, val) && sink < |p.ops|
    requires HistoryCount(p, val, sink, choices).Some? && Simple(p, val, sink, choices, onPath)
    ensures MinOverHistories(p, val, sink, sum, m, onPath).1 <= sum + HistoryCount(p, val, sink, choices).value
    decreases |choices|
  {
    if val.IterArg? {
      var l, i := val.loop, val.idx;
      var lp := p.loops[l];
      var s := sum + Commits(p.ops, lp.firstBodyOp, sink);
      SimpleStep(p, l, i, sink, choices, onPath);
      var total := HistoryCount(p, val, sink, choices).value;
      if s < m {
        var on' := onPath + {(l, i)};
        var r1 := MinOverHistories(p, lp.initArgs[i], lp.forOp, s, m, on');
        var r2 := MinOverHistories(p, lp.yielded[i], lp.yieldOp, s, r1.1, on');
        assert MinOverHistories(p, val, sink, sum, m, onPath).1 == r2.1;
        if choices[0] {
          MinIsLowerBound(p, lp.yielded[i], lp.yieldOp, s, r1.1, on', choices[1..]);
          assert r2.1 <= s + HistoryCount(p, lp.yielded[i], lp.yieldOp, choices[1..]).value;
        } else {
          MinIsLowerBound(p, lp.initArgs[i], lp.forOp, s, m, on', choices[1..]);
          assert r1.1 <= s + HistoryCount(p, lp.initArgs[i], lp.forOp, choices[1..]).value;
        }
      } else {
        assert MinOverHistories(p, val, sink, sum, m, onPath).1 == m;
      }
    }
  }

  /** `choices` is a history whose commits, added to `sum`, make `m'`. */
  ghost predicate Achieves(p: Program, val: Value, sink: nat, sum: nat, m': nat, choices: seq<bool>)
    requires ValidProgram(p) && ValidValue(p, val) && sink < |p.ops|
  {
    HistoryCount(p, val, sink, choices).Some? && m' == sum + HistoryCount(p, val, sink, choices).value
  }

  /** The running minimum ends either where it started or at the commit count of a history, returned. */
  lemma {:induction false} MinIsAchieved(p: Program, val: Value, sink: nat, sum: nat, m: nat, onPath: set<(nat, nat)>)
    returns (choices: seq<bool>)
    requires ValidProgram(p) && ValidValue(p, val) && sink < |p.ops|
    ensures var m' := MinOverHistories(p, val, sink, sum, m, onPath).1;
      m' == m || Achieves(p, val, sink, sum, m', choices)
    decreases IterArgs(p) - onPath
  {
    choices := [];
    if val.IterArg? {
      var l, i, lp := val.loop, val.idx, p.loops[val.loop];
      var s := sum + Commits(p.ops, lp.firstBodyOp, sink);
      if s < m && (l, i) !in onPath {
        assert (l, i) in IterArgs(p);
        var on' := onPath + {(l, i)};
        var m1 := MinOverHistories(p, lp.initArgs[i], lp.forOp, s, m, on').1;
        var c1 := MinIsAchieved(p, lp.initArgs[i], lp.forOp, s, m, on');
        var c2 := MinIsAchieved(p, lp.yielded[i], lp.yieldOp, s, m1, on');
        choices := IterArgAchieved(p, l, i, sink, sum, m, m1, c1, MinOverHistories(p, lp.yielded[i], lp.yieldOp, s, m1, on').1, c2);
      }
    }
  }

  /**
   * The step of `MinIsAchieved` at an iter arg: the minimum after the init
   * value is `m1`, after the yielded value `m2`; each is unchanged or made by
   * a history, so `m2` is `m` or made by one through the iter arg.
   */
  lemma IterArgAchieved(p: Program, l: nat, i: nat, sink: nat, sum: nat, m: nat,
                        m1: nat, c1: seq<bool>, m2: nat, c2: seq<bool>) returns (choices: seq<bool>)
    requires ValidProgram(p) && ValidValue(p, IterArg(l, i)) && sink < |p.ops|
    requires var lp := p.loops[l];
      var s := sum + Commits(p.ops, lp.firstBodyOp, sink);
      && (m1 == m || Achieves(p, lp.initArgs[i], lp.forOp, s, m1, c1))
      && (m2 == m1 || Achieves(p, lp.yielded[i], lp.yieldOp, s, m2, c2))
    ensures m2 == m || Achieves(p, IterArg(l, i), sink, sum, m2, choices)
  {
    if m2 != m1 {
      ExtendHistory(p, l, i, sink, true, c2);
      choices := [true] + c2;
    } else if m1 != m {
      ExtendHistory(p, l, i, sink, false, c1);
      choices := [false] + c1;
    } else {
      choices := [];
    }
  }

  /** A history of the init or yielded value, with the choice in front, is a history of the iter arg costing the body's commits more. */
  lemma ExtendHistory(p: Program, l: nat, i: nat, sink: nat, choice: bool, rest: seq<bool>)
    requires ValidProgram(p) && ValidValue(p, IterArg(l, i)) && sink < |p.ops|
    requires var lp := p.loops[l];
      var v' := if choice then lp.yielded[i] else lp.initArgs[i];
      var s' := if choice then lp.yieldOp else lp.forOp;
      HistoryCount(p, v', s', rest).Some?
    ensures var lp := p.loops[l];
      var v' := if choice then lp.yielded[i] else lp.initArgs[i];
      var s' := if choice then lp.yieldOp else lp.forOp;
      && HistoryCount(p, IterArg(l, i), sink, [choice] + rest).Some?
      && HistoryCount(p, IterArg(l, i), sink, [choice] + rest).value
         == Commits(p.ops, lp.firstBodyOp, sink) + HistoryCount(p, v', s', rest).value
  {
    assert ([choice] + rest)[1..] == rest;
  }

  /** Dropping the steps before a later visit of an iter arg: the history from that visit on, seen from some sink, costs no more. */
  lemma {:induction false} DropToVisit(p: Program, val: Value, sink: nat, choices: seq<bool>, q: nat, l: nat, i: nat)
    returns (s': nat)
    requires ValidProgram(p) && ValidValue(p, val) && sink < |p.ops|
    requires HistoryCount(p, val, sink, choices).Some?
    requires q < |ArgsOn(p, val, sink, choices)| && ArgsOn(p, val, sink, choices)[q] == (l, i)
    ensures ValidValue(p, IterArg(l, i)) && q < |choices| && s' < |p.ops|
    ensures HistoryCount(p, IterArg(l, i), s', choices[q..]).Some?
    ensures HistoryCount(p, IterArg(l, i), s', choices[q..]).value <= HistoryCount(p, val, sink, choices).value
    ensures ArgsOn(p, IterArg(l, i), s', choices[q..]) == ArgsOn(p, val, sink, choices)[q..]
    decreases q
  {
    var v1, s1 := HistoryStep(p, val, sink, choices);
    if q == 0 {
      assert choices[0..] == choices;
      s' := sink;
    } else {
      s' := DropToVisit(p, v1, s1, choices[1..], q - 1, l, i);
      assert choices[1..][q - 1..] == choices[q..];
    }
  }

  /** The first step of a history through an iter arg: the value and sink it moves to, its iter args and its commits. */
  lemma HistoryStep(p: Program, val: Value, sink: nat, choices: seq<bool>) returns (v1: Value, s1: nat)
    requires ValidProgram(p) && ValidValue(p, val) && sink < |p.ops|
    requires HistoryCount(p, val, sink, choices).Some? && |ArgsOn(p, val, sink, choices)| > 0
    ensures val.IterArg? && |choices| > 0 && ValidValue(p, v1) && s1 < |p.ops|
    ensures var lp := p.loops[val.loop];
      && v1 == (if choices[0] then lp.yielded[val.idx] else lp.initArgs[val.idx])
      && s1 == (if choices[0] then lp.yieldOp else lp.forOp)
      && HistoryCount(p, v1, s1, choices[1..]).Some?
      && HistoryCount(p, val, sink, choices).value == Commits(p.ops, lp.firstBodyOp, sink) + HistoryCount(p, v1, s1, choices[1..]).value
      && ArgsOn(p, val, sink, choices) == [(val.loop, val.idx)] + ArgsOn(p, v1, s1, choices[1..])
  {
    var lp := p.loops[val.loop];
    v1 := if choices[0] then lp.yielded[val.idx] else lp.initArgs[val.idx];
    s1 := if choices[0] then lp.yieldOp else lp.forOp;
  }

  /** A history from an iter arg costs the same from any sink, less the commits between the body start and the sink. */
  lemma ResinkHistory(p: Program, l: nat, i: nat, s1: nat, s2: nat, choices: seq<bool>)
    requires ValidProgram(p) && ValidValue(p, IterArg(l, i)) && s1 < |p.ops| && s2 < |p.ops|
    requires HistoryCount(p, IterArg(l, i), s1, choices).Some?
    ensures HistoryCount(p, IterArg(l, i), s2, choices).Some?
    ensures HistoryCount(p, IterArg(l, i), s2, choices).value + Commits(p.ops, p.loops[l].firstBodyOp, s1)
      == HistoryCount(p, IterArg(l, i), s1, choices).value + Commits(p.ops, p.loops[l].firstBodyOp, s2)
    ensures ArgsOn(p, IterArg(l, i), s2, choices) == ArgsOn(p, IterArg(l, i), s1, choices)
  {
  }

  /** Every history has a simple one, through no other iter args, that costs no more. */
  lemma {:induction false} Shortcut(p: Program, val: Value, sink: nat, choices: seq<bool>) returns (ch: seq<bool>)
    requires ValidProgram(p) && ValidValue(p, val) && sink < |p.ops|
    requires HistoryCount(p, val, sink, choices).Some?
    ensures HistoryCount(p, val, sink, ch).Some? && Simple(p, val, sink, ch, {})
    ensures HistoryCount(p, val, sink, ch).value <= HistoryCount(p, val, sink, choices).value
    ensures forall a :: a in ArgsOn(p, val, sink, ch) ==> a in ArgsOn(p, val, sink, choices)
    decreases |choices|
  {
    if !val.IterArg? {
      assert ArgsOn(p, val, sink, choices) == [];
      return choices;
    }
    var l, i := val.loop, val.idx;
    var lp := p.loops[l];
    var v1 := if choices[0] then lp.yielded[i] else lp.initArgs[i];
    var s1 := if choices[0] then lp.yieldOp else lp.forOp;
    var args := ArgsOn(p, val, sink, choices);
    var tail := ArgsOn(p, v1, s1, choices[1..]);
    assert args == [(l, i)] + tail;
    if (l, i) in tail {
      var q :| 0 <= q < |tail| && tail[q] == (l, i);
      DropToVisit1(p, v1, s1, choices[1..], q, l, i, sink);
      var later := choices[q + 1..];
      assert choices[1..][q..] == later;
      assert Commits(p.ops, lp.firstBodyOp, sink) + HistoryCount(p, v1, s1, choices[1..]).value
          == HistoryCount(p, val, sink, choices).value;
      ch := Shortcut(p, val, sink, later);
      forall a | a in ArgsOn(p, val, sink, ch)
        ensures a in args
      {
        assert a in tail[q..];
      }
    } else {
      var ch1 := Shortcut(p, v1, s1, choices[1..]);
      var tail1 := ArgsOn(p, v1, s1, ch1);
      assert (l, i) !in tail1;
      assert Simple(p, v1, s1, ch1, {} + {(l, i)});
      ExtendSimple(p, l, i, sink, choices[0], ch1, {});
      ch := [choices[0]] + ch1;
      assert ch[1..] == ch1;
      assert ArgsOn(p, val, sink, ch) == [(l, i)] + tail1;
    }
  }

  /** The later visit, reached from the step after the first, costs no more than that step's history. */
  lemma DropToVisit1(p: Program, v1: Value, s1: nat, rest: seq<bool>, q: nat, l: nat, i: nat, s': nat)
    requires ValidProgram(p) && ValidValue(p, v1) && s1 < |p.ops| && s' < |p.ops|
    requires HistoryCount(p, v1, s1, rest).Some?
    requires q < |ArgsOn(p, v1, s1, rest)| && ArgsOn(p, v1, s1, rest)[q] == (l, i)
    ensures ValidValue(p, IterArg(l, i)) && q < |rest|
    ensures HistoryCount(p, IterArg(l, i), s', rest[q..]).Some?
    ensures HistoryCount(p, IterArg(l, i), s', rest[q..]).value
      <= HistoryCount(p, v1, s1, rest).value + Commits(p.ops, p.loops[l].firstBodyOp, s')
    ensures ArgsOn(p, IterArg(l, i), s', rest[q..]) == ArgsOn(p, v1, s1, rest)[q..]
  {
    var s2 := DropToVisit(p, v1, s1, rest, q, l, i);
    ResinkHistory(p, l, i, s2, s', rest[q..]);
  }

  /** The value reached by following `choices` from `val`: at each iter arg, `false` to its init value and `true` to its yielded value. */
  function EndOf(p: Program, val: Value, choices: seq<bool>): Value
    requires ValidProgram(p) && ValidValue(p, val)
    decreases |choices|
  {
    if choices == [] || !val.IterArg? then val
    else
      var lp := p.loops[val.loop];
      EndOf(p, if choices[0] then lp.yielded[val.idx] else lp.initArgs[val.idx], choices[1..])
  }

  /** No value the resolver cannot track is reachable from `val` through the loops' init and yielded values. */
  ghost predicate Trackable(p: Program, val: Value)
    requires ValidProgram(p) && ValidValue(p, val)
  {
    forall choices :: EndOf(p, val, choices) != Untracked
  }

  /** From a trackable iter arg, its init value and its yielded value are trackable too. */
  lemma TrackableStep(p: Program, l: nat, i: nat)
    requires ValidProgram(p) && ValidValue(p, IterArg(l, i)) && Trackable(p, IterArg(l, i))
    ensures Trackable(p, p.loops[l].initArgs[i]) && Trackable(p, p.loops[l].yielded[i])
  {
    forall c: seq<bool>
      ensures EndOf(p, p.loops[l].initArgs[i], c) != Untracked && EndOf(p, p.loops[l].yielded[i], c) != Untracked
    {
      assert ([false] + c)[1..] == c && ([true] + c)[1..] == c;
      assert EndOf(p, IterArg(l, i), [false] + c) == EndOf(p, p.loops[l].initArgs[i], c);
      assert EndOf(p, IterArg(l, i), [true] + c) == EndOf(p, p.loops[l].yielded[i], c);
    }
  }

  /**
   * The conservative 0 is the only way the returned value departs from the
   * running minimum: when no untrackable value is reachable, the recursion
   * returns exactly the minimum it ends with.
   */
  lemma {:induction false} TrackableMinIsExact(p: Program, val: Value, sink: nat, sum: nat, m: nat, onPath: set<(nat, nat)>)
    requires ValidProgram(p) && ValidValue(p, val) && sink < |p.ops|
    ensures Trackable(p, val) ==>
      MinOverHistories(p, val, sink, sum, m, onPath).0 == MinOverHistories(p, val, sink, sum, m, onPath).1
    decreases IterArgs(p) - onPath
  {
    if val.Untracked? {
      assert EndOf(p, val, []) == Untracked;
    } else if val.IterArg? && Trackable(p, val) {
      var l, i, lp := val.loop, val.idx, p.loops[val.loop];
      var s := sum + Commits(p.ops, lp.firstBodyOp, sink);
      if s < m && (l, i) !in onPath {
        assert (l, i) in IterArgs(p);
        TrackableStep(p, l, i);
        var on' := onPath + {(l, i)};
        var m1 := MinOverHistories(p, lp.initArgs[i], lp.forOp, s, m, on').1;
        TrackableMinIsExact(p, lp.initArgs[i], lp.forOp, s, m, on');
        TrackableMinIsExact(p, lp.yielded[i], lp.yieldOp, s, m1, on');
      }
    }
  }

  /**
   * The resolver's answer for a wait with one operand is a lower bound on the
   * commits along every history of the operand. It is `INT_MAX` or the
   * commits of one such history, so the least over all histories, whenever
   * no untrackable value is reachable from the operand; otherwise it may
   * also be the conservative 0.
   */
  lemma ResolverIsMinOverHistories(p: Program, wait: nat, operands: seq<Value>)
    requires ValidProgram(p) && wait < |p.ops| && |operands| == 1 && ValidValue(p, operands[0])
    ensures var r := MinNumInterleavedCommitOps(p, wait, operands);
      && (forall choices :: HistoryCount(p, operands[0], wait, choices).Some? ==>
            r <= HistoryCount(p, operands[0], wait, choices).value)
      && (Trackable(p, operands[0]) ==>
            r == IntMax || exists choices :: HistoryCount(p, operands[0], wait, choices) == Some(r))
      && (r == 0 || r == IntMax || exists choices :: HistoryCount(p, operands[0], wait, choices) == Some(r))
  {
    var v := operands[0];
    var res := MinOverHistories(p, v, wait, 0, IntMax, {});
    forall choices | HistoryCount(p, v, wait, choices).Some?
      ensures res.1 <= HistoryCount(p, v, wait, choices).value
    {
      var ch := Shortcut(p, v, wait, choices);
      MinIsLowerBound(p, v, wait, 0, IntMax, {}, ch);
    }
    var ch := MinIsAchieved(p, v, wait, 0, IntMax, {});
    if res.1 != IntMax {
      assert HistoryCount(p, v, wait, ch) == Some(res.1);
    }
    TrackableMinIsExact(p, v, wait, 0, IntMax, {});
  }

  /** A wait on a value the resolver cannot track, or on an iter arg whose init or yielded value it cannot track, gets the conservative 0. */
  lemma ResolverUntrackedIsZero(p: Program, wait: nat, l: nat, i: nat)
    requires ValidProgram(p) && wait < |p.ops| && ValidValue(p, IterArg(l, i))
    requires p.loops[l].initArgs[i] == Untracked || p.loops[l].yielded[i] == Untracked
    requires Commits(p.ops, p.loops[l].firstBodyOp, wait) < IntMax
    ensures MinNumInterleavedCommitOps(p, wait, [Untracked]) == 0
    ensures MinNumInterleavedCommitOps(p, wait, [IterArg(l, i)]) == 0
  {
    var lp := p.loops[l];
    var s := Commits(p.ops, lp.firstBodyOp, wait);
    assert (l, i) in IterArgs(p);
    var r1 := MinOverHistories(p, lp.initArgs[i], lp.forOp, s, IntMax, {(l, i)});
    var r2 := MinOverHistories(p, lp.yielded[i], lp.yieldOp, s, r1.1, {(l, i)});
    assert {} + {(l, i)} == {(l, i)};
    assert MinAtIterArg(p, l, i, wait, 0, IntMax, {}) == (Min(Min(r1.0, r2.0), r2.1), r2.1);
  }

  // ---------------------------------------------------------------------------
  // A token carried round a loop with no commit in its body
  // ---------------------------------------------------------------------------

  /**
   * A token made before a loop, then a commit, then the loop; the loop
   * carries the token in two iter args that its yield swaps, its body has no
   * commit, and the wait at the top of the body waits on the first of them.
   */
  const SwapLoop: Program := Program(
    [Node(false, 0), Node(true, 0), Node(false, 0), Node(false, 1), Node(false, 1)],
    [Loop(2, 3, 4, [Result(0), Result(0)], [IterArg(0, 1), IterArg(0, 0)])])

  lemma {:induction false} SwapLoopRecursesForever(k: nat, fuel: nat)
    requires k < 2
    ensures ValidProgram(SwapLoop)
    ensures MinOverHistoriesAsWritten(SwapLoop, IterArg(0, k), 4, 0, 1, fuel) == None
    decreases fuel
  {
    assert Commits(SwapLoop.ops, 3, 4) == 0;
    assert Commits(SwapLoop.ops, 1, 2) == 1;
    if fuel > 1 {
      assert MinOverHistoriesAsWritten(SwapLoop, Result(0), 2, 0, 1, fuel - 1) == Some((1, 1));
      SwapLoopRecursesForever(1 - k, fuel - 1);
    }
  }

  /** As written, the resolver never returns on the swap loop, whatever its depth bound. */
  lemma ResolverAsWrittenDivergesOnSwapLoop(fuel: nat)
    ensures ValidProgram(SwapLoop)
    ensures MinNumInterleavedCommitOpsAsWritten(SwapLoop, 3, [IterArg(0, 0)], fuel) == None
  {
    assert Commits(SwapLoop.ops, 3, 3) == 0;
    assert Commits(SwapLoop.ops, 1, 2) == 1;
    if fuel > 1 {
      assert MinOverHistoriesAsWritten(SwapLoop, Result(0), 2, 0, IntMax, fuel - 1) == Some((1, 1));
      SwapLoopRecursesForever(1, fuel - 1);
    }
  }

  /** With the cycle pruned the resolver returns 1, the one commit between the token and the loop. */
  lemma ResolverOnSwapLoop()
    ensures ValidProgram(SwapLoop)
    ensures MinNumInterleavedCommitOps(SwapLoop, 3, [IterArg(0, 0)]) == 1
  {
    SwapLoopInner();
    assert {} + {(0, 0)} == {(0, 0)};
    assert Commits(SwapLoop.ops, 3, 3) == 0;
    assert MinOverHistories(SwapLoop, Result(0), 2, 0, IntMax, {(0, 0)}) == (1, 1) by {
      assert Commits(SwapLoop.ops, 1, 2) == 1;
    }
    assert MinAtIterArg(SwapLoop, 0, 0, 3, 0, IntMax, {}) == (1, 1);
  }

  /** On the swap loop, from the yield, each iter arg reaches the token once before the path closes. */
  lemma SwapLoopInner()
    ensures ValidProgram(SwapLoop)
    ensures MinOverHistories(SwapLoop, IterArg(0, 1), 4, 0, 1, {(0, 0)}) == (1, 1)
  {
    assert Commits(SwapLoop.ops, 3, 4) == 0;
    assert Commits(SwapLoop.ops, 1, 2) == 1;
    assert {(0, 0)} + {(0, 1)} == {(0, 0), (0, 1)};
    assert MinOverHistories(SwapLoop, Result(0), 2, 0, 1, {(0, 0), (0, 1)}) == (1, 1);
    assert MinOverHistories(SwapLoop, IterArg(0, 0), 4, 0, 1, {(0, 0), (0, 1)}) == (1, 1) by {
      assert MinAtIterArg(SwapLoop, 0, 0, 4, 0, 1, {(0, 0), (0, 1)}) == (1, 1);
    }
    assert MinAtIterArg(SwapLoop, 0, 1, 4, 0, 1, {(0, 0)}) == (1, 1);
  }
}
