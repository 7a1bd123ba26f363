/**
 * The per-stage-group ring-buffer counters threaded through the loop by
 * `createAsyncOps`, as values updated once per loop iteration, and the
 * arithmetic the descriptor counters of `rewriteTMABufferUpdates` rely on.
 */
module RingCounters {

  /** createIncrementModulo: `select(counter + 1 < modulus, counter + 1, 0)`. */
  function IncrementModulo(counter: int, modulus: int): (r: int)
    ensures modulus >= 1 && -1 <= counter < modulus ==> 0 <= r < modulus && r == (counter + 1) % modulus
  {
    if counter + 1 < modulus then counter + 1 else 0
  }

  /** `arith.xori x, 1` on a two's-complement integer: flip the lowest bit. */
  function XorOne(x: int): (r: int)
    ensures r / 2 == x / 2 && r % 2 == 1 - x % 2
    ensures 0 <= x <= 1 ==> r == 1 - x
  {
    if x % 2 == 0 then x + 1 else x - 1
  }

  /** The loop-carried state of one stage group. */
  datatype Counters = Counters(insertIdx: int, extractIdx: int, phase: int)

  /** The values appended to the loop's initial arguments: -1, -1 and phase 0. */
  const Initial := Counters(-1, -1, 0)

  /**
   * The update at the top of the loop body for a group of depth `n`: both
   * indices step modulo `n`; the phase flips when the extract index wraps,
   * that is when `extractIdx + 1 < n` is false.
   */
  function Step(c: Counters, n: int): Counters {
    var cndExt := c.extractIdx + 1 < n;
    Counters(IncrementModulo(c.insertIdx, n), IncrementModulo(c.extractIdx, n),
             if cndExt then c.phase else XorOne(c.phase))
  }

  /** The counters seen by iteration `k` (counting from 1) of the loop; `Run(n, 0)` is the initial value. */
  function Run(n: int, k: nat): Counters {
    if k == 0 then Initial else Step(Run(n, k - 1), n)
  }

  /**
   * Iteration `k >= 1` uses slot `(k - 1) mod n` for both insert and extract,
   * and the phase is the parity of the number of completed rotations.
   */
  lemma {:induction false} RunClosedForm(n: int, k: nat)
    requires n >= 1 && k >= 1
    ensures Run(n, k).insertIdx == (k - 1) % n
    ensures Run(n, k).extractIdx == (k - 1) % n
    ensures Run(n, k).phase == ((k - 1) / n) % 2
  {
    if k == 1 {
      assert Run(n, 1) == Step(Initial, n);
    } else {
      var prev := Run(n, k - 1);
      assert prev.insertIdx == (k - 1 - 1) % n && prev.extractIdx == (k - 1 - 1) % n && prev.phase == ((k - 1 - 1) / n) % 2 by {
        RunClosedForm(n, k - 1);
      }
      StepClosedForm(n, k - 1, prev);
    }
  }

  /** One step from the counters of slot `m - 1` gives the counters of slot `m`. */
  lemma StepClosedForm(n: int, m: int, prev: Counters)
    requires n >= 1 && m >= 1
    requires prev.insertIdx == (m - 1) % n && prev.extractIdx == (m - 1) % n && prev.phase == ((m - 1) / n) % 2
    ensures Step(prev, n) == Counters(m % n, m % n, (m / n) % 2)
  {
    var j := m - 1;
    DivModStep(j, n);
    assert j + 1 == m;
    if j % n + 1 >= n {
      DivModStep(j / n, 2);
      assert XorOne(prev.phase) == 1 - prev.phase;
    }
  }

  /**
   * The counters stay in range for every iteration count, the first
   * iteration uses slot 0, and insert and extract always agree.
   */
  lemma CountersInRange(n: int, k: nat)
    requires n >= 1 && k >= 1
    ensures 0 <= Run(n, k).insertIdx < n && 0 <= Run(n, k).extractIdx < n
    ensures Run(n, k).insertIdx == Run(n, k).extractIdx
    ensures k == 1 ==> Run(n, k).insertIdx == 0
    ensures 0 <= Run(n, k).phase <= 1
  {
    RunClosedForm(n, k);
  }

  /**
   * From one iteration to the next the phase changes exactly when the
   * extract index wraps from `n - 1` to 0, and is unchanged otherwise.
   */
  lemma PhaseFlipsExactlyOnWrap(n: int, k: nat)
    requires n >= 1
    ensures Run(n, k + 1).phase != Run(n, k).phase <==> Run(n, k).extractIdx == n - 1
    ensures k >= 1 ==> (Run(n, k).extractIdx == n - 1 <==> Run(n, k + 1).extractIdx == 0)
  {
    if k >= 1 {
      RunClosedForm(n, k);
    }
    RunClosedForm(n, k + 1);
  }

  /** A descriptor slot `c` of `descSize` bytes lies inside the buffer of `numStages` slots. */
  lemma SlotInside(c: int, numStages: int, descSize: nat)
    requires 0 <= c < numStages
    ensures 0 <= descSize * c && descSize * c + descSize <= numStages * descSize
  {
    MulNonNegative(descSize, c);
    MulNonNegative(descSize, numStages - (c + 1));
    assert descSize * (numStages - (c + 1)) == descSize * numStages - descSize * (c + 1);
    assert descSize * (c + 1) == descSize * c + descSize;
    assert numStages * descSize == descSize * numStages;
  }

  lemma MulNonNegative(a: int, b: int)
    requires a >= 0 && b >= 0
    ensures a * b >= 0
  {
  }

  lemma MulAtLeast(a: int, n: int)
    requires a >= 1 && n > 0
    ensures a * n >= n
  {
  }

  /** Euclidean division is unique: `q` and `r` are the quotient and remainder of `x` by `n`. */
  lemma DivModUnique(x: int, n: int, q: int, r: int)
    requires n > 0 && 0 <= r < n && x == q * n + r
    ensures x / n == q && x % n == r
  {
    var q0, r0 := x / n, x % n;
    var d := q0 - q;
    assert d * n == r - r0 by {
      assert q0 * n + r0 == q * n + r;
      assert d * n == q0 * n - q * n;
    }
    if d >= 1 {
      MulAtLeast(d, n);
      assert false;
    } else if d <= -1 {
      MulAtLeast(-d, n);
      assert false;
    }
  }

  /** Adding one either bumps the remainder or wraps it to 0 and bumps the quotient. */
  lemma DivModStep(j: int, n: int)
    requires n >= 1
    ensures j % n + 1 < n ==> (j + 1) % n == j % n + 1 && (j + 1) / n == j / n
    ensures j % n + 1 >= n ==> (j + 1) % n == 0 && (j + 1) / n == j / n + 1
  {
    var q, r := j / n, j % n;
    assert j == q * n + r;
    if r + 1 < n {
      DivModUnique(j + 1, n, q, r + 1);
    } else {
      assert j + 1 == (q + 1) * n;
      DivModUnique(j + 1, n, q + 1, 0);
    }
  }
}
