/**
 The worst-case bound of the longest-processing-time rule, free of any packing vocabulary.

 `t` jobs with sizes `h[0] >= h[1] >= ...` are put one after the other onto `m` columns;
 `a[i]` is the column of job `i`.  An assignment is greedy when every job went to a column
 that was as short as any other at that moment.  `GreedyBound` compares a greedy
 assignment of decreasing jobs with an arbitrary one.
 */
module LptBound {

  /** The weight that the first t jobs put onto column j. */
  function Load(w: seq<nat>, a: seq<nat>, j: nat, t: nat): nat
    requires t <= |w| && t <= |a|
  {
    if t == 0 then 0 else Load(w, a, j, t - 1) + if a[t - 1] == j then w[t - 1] else 0
  }

  function Total(w: seq<nat>, t: nat): nat
    requires t <= |w|
  {
    if t == 0 then 0 else Total(w, t - 1) + w[t - 1]
  }

  /** The weight on the first m columns together. */
  function ColumnsTotal(w: seq<nat>, a: seq<nat>, m: nat, t: nat): nat
    requires t <= |w| && t <= |a|
  {
    if m == 0 then 0 else ColumnsTotal(w, a, m - 1, t) + Load(w, a, m - 1, t)
  }

  ghost predicate InRange(a: seq<nat>, m: nat) {
    forall i :: 0 <= i < |a| ==> a[i] < m
  }

  ghost predicate Decreasing(h: seq<nat>) {
    forall i, k :: 0 <= i <= k < |h| ==> h[k] <= h[i]
  }

  /** No column is taller than `height` once t jobs are placed. */
  ghost predicate NoTaller(h: seq<nat>, a: seq<nat>, m: nat, t: nat, height: nat)
    requires t <= |h| && t <= |a|
  {
    forall j: nat :: j < m ==> Load(h, a, j, t) <= height
  }

  /** No column is shorter than `height` once t jobs are placed. */
  ghost predicate NoShorter(h: seq<nat>, a: seq<nat>, m: nat, t: nat, height: nat)
    requires t <= |h| && t <= |a|
  {
    forall j: nat :: j < m ==> height <= Load(h, a, j, t)
  }

  /** Every job went to a column no taller than any other column was at that moment. */
  ghost predicate Greedy(h: seq<nat>, a: seq<nat>, m: nat)
    requires |h| == |a|
  {
    forall i :: 0 <= i < |a| ==> NoShorter(h, a, m, i, Load(h, a, a[i], i))
  }

  // ---- Loads add up --------------------------------------------------------------------

  lemma {:induction false} ColumnsTotalStep(w: seq<nat>, a: seq<nat>, m: nat, t: nat)
    requires 0 < t <= |w| && t <= |a|
    ensures ColumnsTotal(w, a, m, t)
         == ColumnsTotal(w, a, m, t - 1) + if a[t - 1] < m then w[t - 1] else 0
  {
    if m > 0 {
      ColumnsTotalStep(w, a, m - 1, t);
    }
  }

  /** Counting by column and counting by job give the same total. */
  lemma {:induction false} CountedByColumn(w: seq<nat>, a: seq<nat>, m: nat, t: nat)
    requires t <= |w| && t <= |a| && InRange(a, m)
    ensures ColumnsTotal(w, a, m, t) == Total(w, t)
  {
    if t > 0 {
      ColumnsTotalStep(w, a, m, t);
      CountedByColumn(w, a, m, t - 1);
    } else if m > 0 {
      assert InRange(a[..0], m - 1);
      NoJobs(w, a, m);
    }
  }

  lemma {:induction false} NoJobs(w: seq<nat>, a: seq<nat>, m: nat)
    ensures ColumnsTotal(w, a, m, 0) == 0
  {
    if m > 0 {
      NoJobs(w, a, m - 1);
    }
  }

  lemma {:induction false} TotalAtLeast(w: seq<nat>, a: seq<nat>, m: nat, t: nat, low: nat)
    requires t <= |w| && t <= |a|
    requires NoShorter(w, a, m, t, low)
    ensures m * low <= ColumnsTotal(w, a, m, t)
  {
    if m > 0 {
      TotalAtLeast(w, a, m - 1, t, low);
      assert m * low == (m - 1) * low + low;
    }
  }

  lemma {:induction false} TotalAtMost(w: seq<nat>, a: seq<nat>, m: nat, t: nat, high: nat)
    requires t <= |w| && t <= |a|
    requires NoTaller(w, a, m, t, high)
    ensures ColumnsTotal(w, a, m, t) <= m * high
  {
    if m > 0 {
      TotalAtMost(w, a, m - 1, t, high);
      assert m * high == (m - 1) * high + high;
    }
  }

  lemma {:induction false} LoadGrows(w: seq<nat>, a: seq<nat>, j: nat, s: nat, t: nat)
    requires s <= t <= |w| && t <= |a|
    ensures Load(w, a, j, s) <= Load(w, a, j, t)
  {
    if s < t {
      LoadGrows(w, a, j, s, t - 1);
    }
  }

  // ---- Facts about one column ----------------------------------------------------------

  /** A job on the column contributes its weight. */
  lemma {:induction false} JobWeighs(w: seq<nat>, a: seq<nat>, i: nat, t: nat)
    requires i < t <= |w| && t <= |a|
    ensures w[i] <= Load(w, a, a[i], t)
  {
    LoadGrows(w, a, a[i], i + 1, t);
  }

  /** Two jobs on one column contribute both their weights. */
  lemma {:induction false} TwoJobsWeigh(w: seq<nat>, a: seq<nat>, i: nat, k: nat, t: nat)
    requires i < k < t <= |w| && t <= |a| && a[i] == a[k]
    ensures w[i] + w[k] <= Load(w, a, a[k], t)
  {
    JobWeighs(w, a, i, k);
    LoadGrows(w, a, a[k], k + 1, t);
  }

  /** Jobs of weight at least low make the column at least low times its job count. */
  lemma {:induction false} LoadByCount(w: seq<nat>, a: seq<nat>, j: nat, t: nat, low: nat)
    requires t <= |w| && t <= |a|
    requires forall i :: 0 <= i < t && a[i] == j ==> low <= w[i]
    ensures low * Count(a, j, t) <= Load(w, a, j, t)
  {
    if t > 0 {
      LoadByCount(w, a, j, t - 1, low);
      if a[t - 1] == j {
        var c := Count(a, j, t - 1);
        assert low * (c + 1) == low * c + low;
      }
    }
  }

  /** Jobs of weight one make the column exactly its job count. */
  lemma {:induction false} LoadIsCount(w: seq<nat>, a: seq<nat>, j: nat, t: nat)
    requires t <= |w| && t <= |a|
    requires forall i :: 0 <= i < t && a[i] == j ==> w[i] == 1
    ensures Load(w, a, j, t) == Count(a, j, t)
  {
    if t > 0 {
      LoadIsCount(w, a, j, t - 1);
    }
  }

  /** How many of the first t jobs are on column j. */
  function Count(a: seq<nat>, j: nat, t: nat): nat
    requires t <= |a|
  {
    if t == 0 then 0 else Count(a, j, t - 1) + if a[t - 1] == j then 1 else 0
  }

  lemma {:induction false} CountSeesJob(a: seq<nat>, i: nat, t: nat)
    requires i < t <= |a|
    ensures 1 <= Count(a, a[i], t)
  {
    if i + 1 < t {
      CountSeesJob(a, i, t - 1);
    }
  }

  // ---- The last job is large: greedy is optimal -------------------------------------------

  /** Job i is alone on its column among the first l jobs. */
  predicate Loner(a: seq<nat>, i: nat, l: nat)
    requires l <= |a|
  {
    i < l && Count(a, a[i], l) == 1
  }

  /** Loners weigh double.  The sum of these weights is what both assignments must agree on. */
  function LonerWeights(a: seq<nat>, l: nat): (w: seq<nat>)
    requires l < |a|
    ensures |w| == l + 1
  {
    seq(l + 1, i requires 0 <= i <= l => if Loner(a, i, l) then 2 else 1)
  }

  /** In the greedy assignment every non-empty column carries at least two units. */
  lemma {:induction false} GreedyColumnsCarryTwo(a: seq<nat>, j: nat, l: nat)
    requires l < |a| && 1 <= Count(a, j, l)
    ensures 2 <= Load(LonerWeights(a, l), a, j, l)
  {
    var w := LonerWeights(a, l);
    if Count(a, j, l) == 1 {
      LoadByCount(w, a, j, l, 2);
    } else {
      LoadByCount(w, a, j, l, 1);
    }
  }

  /**
   In any assignment of height at most opt, every column carries at most two units:
   a loner shares its column with nobody, and three jobs above opt/3 do not fit.
   */
  lemma {:induction false} OtherColumnsCarryTwo(h: seq<nat>, a: seq<nat>, g: seq<nat>, j: nat, l: nat, opt: nat)
    requires |h| == |a| == |g| && l < |h| && Decreasing(h)
    requires Load(h, g, j, l + 1) <= opt < 3 * h[l]
    requires forall i: nat :: Loner(a, i, l) ==> opt < h[i] + h[l]
    ensures Load(LonerWeights(a, l), g, j, l + 1) <= 2
  {
    if i: nat :| i <= l && g[i] == j && Loner(a, i, l) {
      LonerSharesWithNobody(h, g, i, l, opt);
      OnlyJob(LonerWeights(a, l), g, j, i, l + 1);
    } else {
      LoadIsCount(LonerWeights(a, l), g, j, l + 1);
      NoThreeLargeJobs(h, g, j, l, opt);
    }
  }

  lemma {:induction false} LonerSharesWithNobody(h: seq<nat>, g: seq<nat>, i: nat, l: nat, opt: nat)
    requires |h| == |g| && i <= l < |h| && Decreasing(h)
    requires Load(h, g, g[i], l + 1) <= opt < h[i] + h[l]
    ensures forall k: nat :: k <= l && k != i ==> g[k] != g[i]
  {
    forall k: nat | k <= l && k != i ensures g[k] != g[i] {
      if g[k] == g[i] {
        assert h[l] <= h[k];
        TwoJobsWeigh(h, g, if i < k then i else k, if i < k then k else i, l + 1);
        assert false;
      }
    }
  }

  lemma {:induction false} NoThreeLargeJobs(h: seq<nat>, g: seq<nat>, j: nat, l: nat, opt: nat)
    requires |h| == |g| && l < |h| && Decreasing(h)
    requires Load(h, g, j, l + 1) <= opt < 3 * h[l]
    ensures Count(g, j, l + 1) <= 2
  {
    var c := Count(g, j, l + 1);
    LoadByCount(h, g, j, l + 1, h[l]);
    if c >= 3 {
      MulMono(h[l], 3, c);
    }
  }

  lemma {:induction false} OnlyJob(w: seq<nat>, a: seq<nat>, j: nat, i: nat, t: nat)
    requires t <= |w| && t <= |a|
    requires forall k: nat :: k < t && k != i ==> a[k] != j
    ensures Load(w, a, j, t) <= if i < t then w[i] else 0
  {
    if t > 0 {
      OnlyJob(w, a, j, i, t - 1);
    }
  }

  /** A column that holds exactly one job is as tall as that job. */
  lemma {:induction false} LonerHeight(h: seq<nat>, a: seq<nat>, i: nat, l: nat)
    requires l <= |h| && l <= |a| && Loner(a, i, l)
    ensures Load(h, a, a[i], l) == h[i]
    decreases l
  {
    var j := a[i];
    if i == l - 1 {
      NoCountNoLoad(h, a, j, l - 1);
    } else {
      CountSeesJob(a, i, l - 1);
      LonerHeight(h, a, i, l - 1);
    }
  }

  lemma {:induction false} NoCountNoLoad(h: seq<nat>, a: seq<nat>, j: nat, t: nat)
    requires t <= |h| && t <= |a| && Count(a, j, t) == 0
    ensures Load(h, a, j, t) == 0
  {
    if t > 0 {
      NoCountNoLoad(h, a, j, t - 1);
    }
  }

  /** When the job l that tops column c is above opt/3, the greedy column is no taller than opt. */
  lemma {:induction false} LargeLastJob(h: seq<nat>, a: seq<nat>, g: seq<nat>, m: nat, l: nat, opt: nat)
    requires |h| == |a| == |g| && l < |h| && Decreasing(h)
    requires InRange(a, m) && InRange(g, m) && Greedy(h, a, m)
    requires NoTaller(h, g, m, l + 1, opt)
    requires opt < 3 * h[l]
    ensures Load(h, a, a[l], l + 1) <= opt
  {
    if opt < Load(h, a, a[l], l) + h[l] {
      var w := LonerWeights(a, l);
      forall j: nat | j < m ensures 2 <= Load(w, a, j, l) {
        assert Load(h, a, a[l], l) <= Load(h, a, j, l);
        if Count(a, j, l) == 0 {
          NoCountNoLoad(h, a, j, l);
          JobWeighs(h, g, l, l + 1);
          assert false;
        }
        GreedyColumnsCarryTwo(a, j, l);
      }
      forall i: nat | Loner(a, i, l) ensures opt < h[i] + h[l] {
        LonerHeight(h, a, i, l);
        assert Load(h, a, a[l], l) <= Load(h, a, a[i], l);
      }
      var placed := l + 1;
      forall j: nat | j < m ensures Load(w, g, j, placed) <= 2 {
        OtherColumnsCarryTwo(h, a, g, j, l, opt);
      }
      TotalAtLeast(w, a, m, l, 2);
      TotalAtMost(w, g, m, l + 1, 2);
      CountedByColumn(w, a, m, l);
      CountedByColumn(w, g, m, l + 1);
      assert false;
    }
  }

  // ---- The last job is small: averaging ----------------------------------------------------

  lemma {:induction false} SmallLastJob(h: seq<nat>, a: seq<nat>, g: seq<nat>, m: nat, l: nat, opt: nat)
    requires 1 <= m && |h| == |a| == |g| && l < |h|
    requires InRange(a, m) && InRange(g, m) && Greedy(h, a, m)
    requires NoTaller(h, g, m, l + 1, opt)
    requires 3 * h[l] <= opt
    ensures 3 * m * Load(h, a, a[l], l + 1) <= (4 * m - 1) * opt
  {
    var before := Load(h, a, a[l], l);
    TotalAtLeast(h, a, m, l, before);
    TotalAtMost(h, g, m, l + 1, opt);
    CountedByColumn(h, a, m, l);
    CountedByColumn(h, g, m, l + 1);
    assert m * before + h[l] <= m * opt;
    Averaged(m, before, h[l], opt);
  }

  lemma Averaged(m: nat, before: nat, last: nat, opt: nat)
    requires 1 <= m && m * before + last <= m * opt && 3 * last <= opt
    ensures 3 * m * (before + last) <= (4 * m - 1) * opt
  {
    MulMono(m - 1, 3 * last, opt);
    assert (m - 1) * (3 * last) == 3 * (m * last) - 3 * last;
    assert (m - 1) * opt == m * opt - opt;
    assert 3 * m * (before + last) == 3 * (m * before) + 3 * (m * last);
    assert (4 * m - 1) * opt == 4 * (m * opt) - opt;
  }

  lemma WithinOptimum(m: nat, height: nat, opt: nat)
    requires 1 <= m && height <= opt
    ensures 3 * m * height <= (4 * m - 1) * opt
  {
    MulMono(3 * m, height, opt);
    assert (4 * m - 1) * opt == 3 * m * opt + (m - 1) * opt;
  }

  lemma MulMono(k: nat, x: nat, y: nat)
    requires x <= y
    ensures k * x <= k * y
  {
  }

  /**
   The bound: a greedy assignment of decreasing jobs is at most 4/3 - 1/(3m) times as tall
   as any other assignment g to the same m columns.
   */
  lemma {:induction false} GreedyBound(h: seq<nat>, a: seq<nat>, g: seq<nat>, m: nat, c: nat, t: nat, opt: nat)
    requires 1 <= m && |h| == |a| == |g| && t <= |h| && Decreasing(h)
    requires InRange(a, m) && InRange(g, m) && Greedy(h, a, m)
    requires NoTaller(h, g, m, t, opt)
    ensures 3 * m * Load(h, a, c, t) <= (4 * m - 1) * opt
    decreases t
  {
    if t == 0 {
      assert 0 <= (4 * m - 1) * opt;
    } else if a[t - 1] != c {
      var earlier := t - 1;
      forall j: nat | j < m ensures Load(h, g, j, earlier) <= opt {
        LoadGrows(h, g, j, earlier, t);
      }
      GreedyBound(h, a, g, m, c, t - 1, opt);
    } else if 3 * h[t - 1] <= opt {
      SmallLastJob(h, a, g, m, t - 1, opt);
    } else {
      LargeLastJob(h, a, g, m, t - 1, opt);
      WithinOptimum(m, Load(h, a, c, t), opt);
    }
  }
}
