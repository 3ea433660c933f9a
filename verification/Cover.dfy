/** The cache-line arithmetic of cover.cpp: how many lines a batch of queue slots touches, and the
    closed-form predictions the program checks by enumeration. */
module Cover {
  import opened Bits

  /** The line that slot s lies in, K slots to a line. */
  function Line(s: nat, K: nat): nat
    requires K > 0
  {
    s / K
  }

  /** How many of the lines from..below - 1 are at most to. */
  function CountLines(from: nat, to: nat, below: nat): nat {
    if below <= from || to < from then 0
    else if below <= to then below - from
    else to - from + 1
  }

  /** The lines of slots first..first + b - 1 that start at or before slot L. */
  function LinesUpTo(first: nat, b: int, L: int, K: nat): nat
    requires K > 0
  {
    if b <= 0 || L < 0 then 0 else CountLines(Line(first, K), Line(first + b - 1, K), Line(L, K) + 1)
  }

  /** (k * K <= s) iff k <= s / K, and the mirror image for the end of a line. */
  lemma {:induction false} LineBounds(k: int, s: nat, K: nat)
    requires K > 0
    ensures k * K <= s <==> k <= s / K
    ensures s < k * K + K <==> s / K <= k
  {
    var q, r := s / K, s % K;
    assert s == q * K + r;
    if k <= q {
      assert k * K <= q * K by { MulMonotone(k, q, K); }
    } else {
      assert (q + 1) * K <= k * K by { MulMonotone(q + 1, k, K); }
    }
    if q <= k {
      assert q * K <= k * K by { MulMonotone(q, k, K); }
    } else {
      assert (k + 1) * K <= q * K by { MulMonotone(k + 1, q, K); }
    }
  }

  lemma MulMonotone(a: int, b: int, K: nat)
    requires a <= b
    ensures a * K <= b * K
  {
  }

  /** Does line j start at or before slot L and hold a slot of the batch? */
  ghost predicate Covered(first: nat, b: int, L: int, K: nat, j: nat)
    requires K > 0
  {
    j * K <= L && exists s: nat :: first <= s < first + b && s / K == j
  }

  ghost function CoveredSet(first: nat, b: int, L: int, K: nat): set<nat>
    requires K > 0
  {
    set j: nat | j < first + b && Covered(first, b, L, K, j)
  }

  /** The covered lines are those from the batch's first line to its last, or to the line of L if that
      comes earlier. */
  lemma CoveredIff(first: nat, b: int, L: int, K: nat, j: nat)
    requires K > 0 && b > 0 && L >= 0
    ensures Covered(first, b, L, K, j) <==>
              Line(first, K) <= j <= Line(first + b - 1, K) && j <= Line(L, K)
  {
    LineBounds(j, L, K);
    LineTouched(first, b, j, j * K, K);
    if Line(first, K) <= j <= Line(first + b - 1, K) {
      // The first slot of the line, or of the batch.
      var s := if j * K <= first then first else j * K;
      LineBounds(j, s, K);
      assert s / K == j;
    }
    forall s: nat | first <= s < first + b && s / K == j
      ensures Line(first, K) <= j <= Line(first + b - 1, K)
    {
      LineBounds(j, s, K);
    }
  }

  lemma LineBelow(s: nat, K: nat)
    requires K > 0
    ensures Line(s, K) <= s
  {
    assert s == K * (s / K) + s % K;
    MulMonotone(1, K, s / K);
  }

  /** The numbers lo, lo + 1, ..., lo + n - 1. */
  function Interval(lo: nat, n: nat): set<nat> {
    if n == 0 then {} else Interval(lo, n - 1) + {lo + (n - 1)}
  }

  lemma {:induction false} IntervalIs(lo: nat, n: nat)
    ensures |Interval(lo, n)| == n
    ensures forall j: nat :: j in Interval(lo, n) <==> lo <= j < lo + n
  {
    if n > 0 {
      IntervalIs(lo, n - 1);
    }
  }

  /** So LinesUpTo counts exactly the covered lines, also where L cuts the batch off. */
  lemma {:induction false} LinesAreCovered(first: nat, b: int, L: int, K: nat)
    requires K > 0
    ensures LinesUpTo(first, b, L, K) == |CoveredSet(first, b, L, K)|
  {
    if b <= 0 || L < 0 {
      assert CoveredSet(first, b, L, K) == {};
    } else {
      var lo, last := Line(first, K), Line(first + b - 1, K);
      var n := LinesUpTo(first, b, L, K);
      LineBelow(first + b - 1, K);
      IntervalIs(lo, n);
      forall j: nat ensures j in CoveredSet(first, b, L, K) <==> j in Interval(lo, n) {
        CoveredIff(first, b, L, K, j);
      }
      assert CoveredSet(first, b, L, K) == Interval(lo, n);
    }
  }

  /** covered_cachelines: the nested scan equals the closed form for every batch, line size and
      bound, which is the number of lines covered. */
  method CoveredCachelines(first: nat, b: int, L: int, K: nat) returns (lines: nat)
    requires K > 0
    ensures lines == LinesUpTo(first, b, L, K) == |CoveredSet(first, b, L, K)|
  {
    LinesAreCovered(first, b, L, K);
    ghost var from, to := Line(first, K), Line(if b <= 0 then first else first + b - 1, K);
    ghost var j := from;
    lines := 0;
    var k := (first / K) * K;
    while k <= L
      invariant k == j * K && j >= from
      invariant j > from ==> k - K <= L
      invariant lines == if b <= 0 then 0 else CountLines(from, to, j)
      decreases L - k
    {
      var s := k;
      while s < k + K
        invariant k <= s <= k + K
        invariant s == k || s <= first || first + b <= k || b <= 0
        invariant lines == if b <= 0 then 0 else CountLines(from, to, j)
      {
        if s >= first && s < first + b {
          lines := lines + 1;
          break;
        }
        s := s + 1;
      }
      LineTouched(first, b, j, k, K);
      assert (j + 1) * K == k + K;
      k := k + K;
      j := j + 1;
    }
    LastLine(j, k, L, K);
  }

  /** The scan stops at the first line that starts past L. */
  lemma {:induction false} LastLine(j: nat, k: int, L: int, K: nat)
    requires K > 0 && k == j * K && k > L
    ensures L >= 0 ==> Line(L, K) < j
    ensures L >= 0 && k - K <= L ==> Line(L, K) == j - 1
    ensures L < 0 && j > 0 ==> k - K >= 0 > L
  {
    assert (j - 1) * K == k - K;
    if L >= 0 {
      LineBounds(j, L, K);
      LineBounds(j - 1, L, K);
    } else if j > 0 {
      MulMonotone(0, j - 1, K);
    }
  }

  /** The j-th line holds a slot of the batch iff it lies between the batch's first and last line. */
  lemma LineTouched(first: nat, b: int, j: nat, k: int, K: nat)
    requires K > 0 && k == j * K
    ensures b > 0 ==> (first < k + K && k < first + b
                       <==> Line(first, K) <= j <= Line(first + b - 1, K))
  {
    if b > 0 {
      LineBounds(j, first, K);
      LineBounds(j, first + b - 1, K);
    }
  }

  // ---------------------------------------------------------------- the predictions

  function CeilDiv(a: nat, n: nat): nat
    requires n > 0
  {
    (a + n - 1) / n
  }

  /** 1 + ceil((b - 1) / K). */
  function Predict(b: nat, K: nat): nat
    requires K > 0 && b > 0
  {
    1 + CeilDiv(b - 1, K)
  }

  /** Adding a and d: the quotients add up, plus one if the remainders run over. */
  lemma {:induction false} DivSum(a: nat, d: nat, K: nat)
    requires K > 0
    ensures (a + d) / K == a / K + d / K + (if a % K + d % K >= K then 1 else 0)
  {
    var f, r, q, t := a / K, a % K, d / K, d % K;
    if r + t >= K {
      assert a + d == K * (f + q + 1) + (r + t - K);
      ModUnique(a + d, K, f + q + 1, r + t - K);
    } else {
      assert a + d == K * (f + q) + (r + t);
      ModUnique(a + d, K, f + q, r + t);
    }
  }

  lemma {:induction false} CeilIs(d: nat, K: nat)
    requires K > 0
    ensures CeilDiv(d, K) == d / K + (if d % K > 0 then 1 else 0)
  {
    var q, t := d / K, d % K;
    if t > 0 {
      assert d + K - 1 == K * (q + 1) + (t - 1);
      ModUnique(d + K - 1, K, q + 1, t - 1);
    } else {
      ModUnique(d + K - 1, K, q, K - 1);
    }
  }

  /** A whole batch touches one line more than (b - 1) / K, and another one if the remainder of
      b - 1 runs over the end of a line. */
  lemma {:induction false} WholeBatch(first: nat, b: nat, K: nat)
    requires K > 0 && b > 0
    ensures var q, t := (b - 1) / K, (b - 1) % K;
            && Line(first + b - 1, K) - Line(first, K) == q + (if first % K + t >= K then 1 else 0)
            && Predict(b, K) == 1 + q + (if t > 0 then 1 else 0)
  {
    DivSum(first, b - 1, K);
    CeilIs(b - 1, K);
  }

  /** The prediction is never too low, whatever the bound L cuts off. */
  lemma {:induction false} PredictionIsUpperBound(first: nat, b: nat, L: int, K: nat)
    requires K > 0 && b > 0
    ensures LinesUpTo(first, b, L, K) <= Predict(b, K)
  {
    WholeBatch(first, b, K);
  }

  /** For a batch that L does not cut the prediction is exact or one too high, and it is exact
      exactly if the batch minus one slot fills whole lines or runs over the end of its last one. */
  lemma {:induction false} PredictionError(first: nat, b: nat, L: nat, K: nat)
    requires K > 0 && b > 0 && Line(first + b - 1, K) <= Line(L, K)
    ensures LinesUpTo(first, b, L, K) == Line(first + b - 1, K) - Line(first, K) + 1
    ensures var diff := Predict(b, K) - LinesUpTo(first, b, L, K);
            var t := (b - 1) % K;
            (diff == 0 || diff == 1) && (diff == 0 <==> t == 0 || first % K + t >= K)
  {
    WholeBatch(first, b, K);
  }

  /** At how many of the 8 offsets of a line the prediction for b slots is one too high. */
  function Overshoots(b: nat): nat
    requires b > 0
  {
    if (b - 1) % 8 == 0 then 0 else 8 - (b - 1) % 8
  }

  /** The sum of Overshoots over batches 1, 2, ..., n. */
  function OvershootsTo(n: nat): nat {
    if n == 0 then 0 else OvershootsTo(n - 1) + Overshoots(n)
  }

  lemma OvershootsAt(k: nat, r: nat)
    requires 1 <= r <= 8
    ensures Overshoots(8 * k + r) == if r == 1 then 0 else 9 - r
  {
    assert 8 * k + r - 1 == 8 * k + (r - 1) && (8 * k + (r - 1)) % 8 == r - 1;
  }

  /** 0 + 7 + 6 + ..., r terms. */
  function OvershootsWithin(r: nat): int {
    if r == 0 then 0 else OvershootsWithin(r - 1) + if r == 1 then 0 else 9 - r
  }

  lemma {:induction false} OvershootsStep(n: nat, k: nat, r: nat)
    requires r <= 8 && n == 8 * k
    ensures OvershootsTo(n + r) == OvershootsTo(n) + OvershootsWithin(r)
  {
    if r > 0 {
      OvershootsStep(n, k, r - 1);
      OvershootsAt(k, r);
    }
  }

  /** Every eight batch sizes overshoot 0 + 7 + 6 + ... + 1 = 28 times. */
  lemma {:induction false} OvershootsClosed(k: nat)
    ensures OvershootsTo(8 * k) == 28 * k
  {
    if k > 0 {
      OvershootsClosed(k - 1);
      OvershootsStep(8 * (k - 1), k - 1, 8);
    }
  }

  /** cover(): compares count and prediction for every batch size and offset. It never reports a
      wrong formula (-1), and the predictions are 896 lines too high in all. */
  method CoverCheck() returns (ret: int, totalError: int)
    ensures ret == 0 && totalError == 896
  {
    totalError := 0;
    for b := 1 to 257
      invariant totalError == OvershootsTo(b - 1)
    {
      for ofs := 0 to 8
        invariant totalError == OvershootsTo(b - 1) + if ofs < Overshoots(b) then ofs else Overshoots(b)
      {
        var lines := CoveredCachelines(ofs, b, 256, 8);
        var diff: int := Predict(b, 8) - lines;
        PredictionError(ofs, b, 256, 8);
        totalError := totalError + if diff < 0 then -diff else diff;
        if diff < 0 || diff > 1 {
          return -1, totalError;
        }
      }
    }
    OvershootsClosed(32);
    return 0, totalError;
  }

  /** Total lines of the batches at cur, cur + b, ... below L. */
  function RollFrom(cur: nat, b: nat, L: int, K: nat): nat
    requires K > 0 && b > 0
    decreases L - cur
  {
    if cur >= L then 0 else LinesUpTo(cur, b, L, K) + RollFrom(cur + b, b, L, K)
  }

  /** The lines of the first n batches. */
  function BatchLines(ofs: nat, b: nat, L: int, K: nat, n: nat): nat
    requires K > 0
  {
    if n == 0 then 0
    else BatchLines(ofs, b, L, K, n - 1) + LinesUpTo(ofs + (n - 1) * b, b, L, K)
  }

  /** The rolling total is the sum over the ceil((L - ofs) / b) batches that start below L: those
      at ofs, ofs + b, ofs + 2b, ... */
  lemma {:induction false} RollIsSum(ofs: nat, b: nat, L: nat, K: nat)
    requires K > 0 && b > 0 && ofs <= L
    ensures RollFrom(ofs, b, L, K) == BatchLines(ofs, b, L, K, CeilDiv(L - ofs, b))
  {
    RestIsSum(ofs, b, L, K, 0, ofs);
  }

  lemma {:induction false} RestIsSum(ofs: nat, b: nat, L: nat, K: nat, i: nat, cur: nat)
    requires K > 0 && b > 0 && ofs <= L && cur == ofs + i * b && i <= CeilDiv(L - ofs, b)
    ensures BatchLines(ofs, b, L, K, i) + RollFrom(cur, b, L, K) ==
              BatchLines(ofs, b, L, K, CeilDiv(L - ofs, b))
    decreases CeilDiv(L - ofs, b) - i
  {
    StartsBelow(L - ofs, b, i);
    if i < CeilDiv(L - ofs, b) {
      assert cur + b == ofs + (i + 1) * b;
      RestIsSum(ofs, b, L, K, i + 1, cur + b);
    }
  }

  lemma StartsBelow(n: nat, b: nat, i: nat)
    requires b > 0
    ensures i * b < n <==> i < CeilDiv(n, b)
  {
    var c, r := (n + b - 1) / b, (n + b - 1) % b;
    assert n + b - 1 == c * b + r;
    if i < c {
      MulMonotone(i, c - 1, b);
    } else {
      MulMonotone(c, i, b);
    }
  }

  lemma RollStep(cur: nat, b: nat, L: int, K: nat, lines: nat)
    requires K > 0 && b > 0 && cur < L && lines == LinesUpTo(cur, b, L, K)
    ensures RollFrom(cur, b, L, K) == lines + RollFrom(cur + b, b, L, K)
  {
  }

  /** The inner loops of roll(). */
  method RollMisses(ofs: nat, b: nat, L: int, K: nat) returns (misses: nat)
    requires K > 0 && b > 0
    ensures misses == RollFrom(ofs, b, L, K)
    ensures misses == if ofs < L then BatchLines(ofs, b, L, K, CeilDiv(L - ofs, b)) else 0
    ensures ofs < L ==> misses <= CeilDiv(L - ofs, b) * Predict(b, K)
  {
    misses := 0;
    var cur := ofs;
    while cur < L
      invariant misses + RollFrom(cur, b, L, K) == RollFrom(ofs, b, L, K)
      decreases L - cur
    {
      var lines := CoveredCachelines(cur, b, L, K);
      RollStep(cur, b, L, K, lines);
      misses := misses + lines;
      cur := cur + b;
    }
    if ofs < L {
      RollBound(ofs, b, L, K);
      RollIsSum(ofs, b, L, K);
    }
  }

  lemma {:induction false} OneBatchFewer(n: nat, b: nat)
    requires b > 0 && n > 0
    ensures n <= b ==> CeilDiv(n, b) == 1
    ensures n > b ==> CeilDiv(n, b) == 1 + CeilDiv(n - b, b)
  {
    if n <= b {
      ModUnique(n + b - 1, b, 1, n - 1);
    } else {
      var x := n - 1;
      assert n + b - 1 == b * (1 + x / b) + x % b;
      ModUnique(n + b - 1, b, 1 + x / b, x % b);
    }
  }

  lemma AddBatch(lines: nat, misses: nat, rest: nat, p: nat)
    requires lines <= p && misses <= rest * p
    ensures lines + misses <= (1 + rest) * p
  {
  }

  /** The rolling total is at most the number of batches times the prediction. */
  lemma {:induction false} RollBound(cur: nat, b: nat, L: nat, K: nat)
    requires K > 0 && b > 0 && cur < L
    ensures RollFrom(cur, b, L, K) <= CeilDiv(L - cur, b) * Predict(b, K)
    decreases L - cur
  {
    PredictionIsUpperBound(cur, b, L, K);
    OneBatchFewer(L - cur, b);
    if cur + b < L {
      RollBound(cur + b, b, L, K);
      AddBatch(LinesUpTo(cur, b, L, K), RollFrom(cur + b, b, L, K), CeilDiv(L - cur - b, b), Predict(b, K));
    } else {
      assert RollFrom(cur + b, b, L, K) == 0;
    }
  }

  /** rate - predict of one case of roll(), multiplied by b * L. */
  method Excess(b: nat, ofs: nat) returns (excess: int)
    requires 1 <= b <= 64 && ofs < b
    ensures excess == RollFrom(ofs, b, 4096, 8) * b - Predict(b, 8) * 4096
    ensures 100 * excess <= b * 4096
  {
    var misses := RollMisses(ofs, b, 4096, 8);
    var predict := Predict(b, 8);
    excess := misses * b - predict * 4096;
    WithinTolerance(b, ofs, predict, misses);
  }

  /** roll(): compares rate and prediction for every batch size and offset; the rates misses / L
      and Predict / b are compared in exact arithmetic, multiplied out, with the tolerance of 0.01.
      It never reports a wrong upper bound (-1), in any of its 2080 cases. */
  method RollCheck() returns (ret: int, cases: nat)
    ensures ret == 0 && cases == 2080
  {
    cases := 0;
    for b := 1 to 65
      invariant 2 * cases == b * (b - 1)
    {
      for ofs := 0 to b
        invariant 2 * cases == b * (b - 1) + 2 * ofs
      {
        var excess := Excess(b, ofs);
        cases := cases + 1;
        if 100 * excess > b * 4096 {
          return -1, cases;
        }
      }
    }
    return 0, cases;
  }

  lemma WithinTolerance(b: nat, ofs: nat, predict: nat, misses: nat)
    requires 1 <= b <= 64 && ofs < b && predict == Predict(b, 8)
    requires misses <= CeilDiv(4096 - ofs, b) * predict
    ensures 100 * (misses * b - predict * 4096) <= b * 4096
  {
    BatchesFit(4096 - ofs, b);
    Tolerance(predict, CeilDiv(4096 - ofs, b), misses, b);
  }

  lemma BatchesFit(n: nat, b: nat)
    requires b > 0
    ensures CeilDiv(n, b) * b <= n + b - 1
  {
  }

  lemma Tolerance(p: nat, n: nat, misses: nat, b: nat)
    requires 1 <= b <= 64 && p <= 9 && misses <= n * p && n * b <= 4096 + b - 1
    ensures 100 * (misses * b - p * 4096) <= b * 4096
  {
    MulMonotone(misses, n * p, b);
    assert n * p * b == (n * b) * p;
    MulMonotone(n * b, 4096 + b - 1, p);
    MulMonotone(p, 9, b - 1);
    assert (4096 + b - 1) * p == 4096 * p + p * (b - 1);
  }
}
