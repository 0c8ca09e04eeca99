/**
 The height-balanced column packer.  A block is its height and its width; a column is the
 list of the block indices it holds.
 */
module Packing {
  import opened LptBound
  import opened Sorting

  // ---- What an arrangement is -------------------------------------------------------------

  /** Every member occurs exactly once in exactly one column, and nothing else occurs. */
  ghost predicate ExactlyOnce(columns: seq<seq<nat>>, members: set<nat>) {
    && (forall c :: 0 <= c < |columns| ==> Distinct(columns[c]))
    && (forall c, x :: 0 <= c < |columns| && x in columns[c] ==> x in members)
    && (forall c, d, x :: 0 <= c < d < |columns| && x in columns[c] ==> x !in columns[d])
    && (forall x :: x in members ==> Holds(columns, x))
  }

  ghost predicate Holds(columns: seq<seq<nat>>, x: nat) {
    exists c :: 0 <= c < |columns| && x in columns[c]
  }

  function Below(n: nat): (s: set<nat>)
    ensures forall x: nat :: x in s <==> x < n
  {
    if n == 0 then {} else Below(n - 1) + {n - 1}
  }

  ghost predicate Arrangement(columns: seq<seq<nat>>, n: nat) {
    ExactlyOnce(columns, Below(n))
  }

  function At(values: seq<nat>, index: nat): (value: nat)
    ensures index < |values| ==> value == values[index]
  {
    if index < |values| then values[index] else 0
  }

  function Height(heights: seq<nat>, column: seq<nat>): nat {
    if column == [] then 0
    else Height(heights, column[..|column| - 1]) + At(heights, column[|column| - 1])
  }

  /** The height of the tallest column, 0 when there is none. */
  function Tallest(heights: seq<nat>, columns: seq<seq<nat>>): (tallest: nat)
    ensures forall c :: 0 <= c < |columns| ==> Height(heights, columns[c]) <= tallest
    ensures tallest == 0 || exists c :: 0 <= c < |columns| && Height(heights, columns[c]) == tallest
  {
    if columns == [] then 0
    else
      var rest := Tallest(heights, columns[..|columns| - 1]);
      var last := Height(heights, columns[|columns| - 1]);
      if rest < last then last else rest
  }

  // ---- The distribution -------------------------------------------------------------------

  /** The tallest block first; equal heights by index. */
  function TallerFirst(heights: seq<nat>): (nat, nat) -> bool {
    (i: nat, k: nat) => At(heights, i) > At(heights, k) || (At(heights, i) == At(heights, k) && i < k)
  }

  function Order(heights: seq<nat>): seq<nat> {
    Sorted(TallerFirst(heights), Indices(|heights|))
  }

  /** The first of the shortest columns. */
  function Shortest(filled: seq<nat>): (r: nat)
    requires filled != []
    ensures r < |filled|
    ensures forall j :: 0 <= j < |filled| ==> filled[r] <= filled[j]
    ensures forall j :: 0 <= j < r ==> filled[r] < filled[j]
  {
    if |filled| == 1 then 0
    else
      var last := |filled| - 1;
      var r := Shortest(filled[..last]);
      if filled[last] < filled[r] then last else r
  }

  datatype Stacks = Stacks(columns: seq<seq<nat>>, filled: seq<nat>) {
    predicate Valid() {
      |columns| == |filled| > 0
    }

    /** Block `index` on top of the shortest column. */
    function Put(heights: seq<nat>, index: nat): (s: Stacks)
      requires Valid()
      ensures s.Valid() && |s.columns| == |columns|
    {
      var target := Shortest(filled);
      Stacks(columns[target := columns[target] + [index]],
             filled[target := filled[target] + At(heights, index)])
    }
  }

  /** The columns and their heights after the first t blocks of `order` are placed. */
  function Placed(heights: seq<nat>, order: seq<nat>, count: nat, t: nat): (s: Stacks)
    requires 1 <= count && t <= |order|
    ensures s.Valid() && |s.columns| == count
  {
    if t == 0 then Stacks(seq(count, _ => []), seq(count, _ => 0))
    else Placed(heights, order, count, t - 1).Put(heights, order[t - 1])
  }

  function Before(): (nat, nat) -> bool {
    (i: nat, k: nat) => i < k
  }

  /** The non-empty columns, each in index order. */
  function Tidied(columns: seq<seq<nat>>): seq<seq<nat>> {
    if columns == [] then []
    else
      var last := columns[|columns| - 1];
      Tidied(columns[..|columns| - 1]) + if last == [] then [] else [Sorted(Before(), last)]
  }

  function Distributed(heights: seq<nat>, count: nat): seq<seq<nat>>
    requires 1 <= count
  {
    Tidied(Placed(heights, Order(heights), count, |heights|).columns)
  }

  lemma PlacedAtFirst(heights: seq<nat>, order: seq<nat>, count: nat)
    requires 1 <= count
    ensures Placed(heights, order, count, 0) == Stacks(seq<seq<nat>>(count, _ => []), seq<nat>(count, _ => 0))
  {
  }

  lemma PlacedNext(heights: seq<nat>, order: seq<nat>, count: nat, t: nat)
    requires 1 <= count && t < |order|
    ensures Placed(heights, order, count, t + 1) == Placed(heights, order, count, t).Put(heights, order[t])
  {
  }

  method Distribute(heights: seq<nat>, count: nat) returns (columns: seq<seq<nat>>)
    requires 1 <= count
    ensures columns == Distributed(heights, count)
  {
    var order := Order(heights);
    assert |order| == |heights|;
    PlacedAtFirst(heights, order, count);
    hide Shortest, Order, Tidied, At, Placed;
    var stacks: seq<seq<nat>> := seq(count, _ => []);
    var filled: seq<nat> := seq(count, _ => 0);
    var t := 0;
    while t < |order|
      invariant t <= |order|
      invariant |stacks| == |filled| == count
      invariant Placed(heights, order, count, t) == Stacks(stacks, filled)
    {
      var index := order[t];
      var target := Shortest(filled);
      PlacedNext(heights, order, count, t);
      assert Stacks(stacks, filled).Put(heights, index)
        == Stacks(stacks[target := stacks[target] + [index]],
                  filled[target := filled[target] + At(heights, index)]);
      stacks := stacks[target := stacks[target] + [index]];
      filled := filled[target := filled[target] + At(heights, index)];
      t := t + 1;
    }
    columns := Tidied(stacks);
  }

  // ---- Heights are sums ---------------------------------------------------------------------

  lemma HeightAppend(heights: seq<nat>, column: seq<nat>, index: nat)
    ensures Height(heights, column + [index]) == Height(heights, column) + At(heights, index)
  {
    assert (column + [index])[..|column|] == column;
  }

  lemma {:induction false} HeightConcat(heights: seq<nat>, a: seq<nat>, b: seq<nat>)
    ensures Height(heights, a + b) == Height(heights, a) + Height(heights, b)
  {
    if b == [] {
      assert a + b == a;
    } else {
      var front := b[..|b| - 1];
      HeightConcat(heights, a, front);
      HeightAppend(heights, a + front, b[|b| - 1]);
      assert a + b == a + front + [b[|b| - 1]];
    }
  }

  /** The order of a column does not change its height. */
  lemma {:induction false} HeightPermutes(heights: seq<nat>, a: seq<nat>, b: seq<nat>)
    requires multiset(a) == multiset(b)
    ensures Height(heights, a) == Height(heights, b)
    decreases |a|
  {
    if a == [] {
      assert |multiset(b)| == 0;
    } else {
      var front, x := a[..|a| - 1], a[|a| - 1];
      assert a == front + [x];
      assert x in multiset(b);
      var k :| 0 <= k < |b| && b[k] == x;
      var left, right := b[..k], b[k + 1..];
      assert b == left + [x] + right;
      WithoutOne(front, x, left, right, b);
      hide Height;
      HeightPermutes(heights, front, left + right);
      HeightConcat(heights, left, right);
      HeightConcat(heights, left + [x], right);
      HeightAppend(heights, left, x);
      HeightAppend(heights, front, x);
    }
  }

  // ---- The order ------------------------------------------------------------------------------

  lemma OrderIsPermutation(heights: seq<nat>)
    ensures |Order(heights)| == |heights| && Distinct(Order(heights))
    ensures forall x: nat :: x in Order(heights) <==> x < |heights|
  {
    var indices := Indices(|heights|);
    DistinctPermutes(indices, Order(heights));
    MembersByMultiset(indices, Order(heights));
    forall x: nat | x < |heights| ensures x in indices {
      assert indices[x] == x;
    }
  }

  /** The heights in the order in which the blocks are placed. */
  function Ranked(heights: seq<nat>, order: seq<nat>): (r: seq<nat>)
    ensures |r| == |order|
    ensures forall i :: 0 <= i < |order| ==> r[i] == At(heights, order[i])
  {
    seq(|order|, i requires 0 <= i < |order| => At(heights, order[i]))
  }

  lemma RankedDecreases(heights: seq<nat>)
    ensures Decreasing(Ranked(heights, Order(heights)))
  {
    SortedAscends(TallerFirst(heights), Indices(|heights|));
  }

  // ---- What the loop assigns ----------------------------------------------------------------

  /** The column each placed block went to. */
  function Targets(heights: seq<nat>, order: seq<nat>, count: nat): (a: seq<nat>)
    requires 1 <= count
    ensures |a| == |order| && InRange(a, count)
    ensures forall i :: 0 <= i < |order| ==> a[i] == Target(heights, order, count, i)
  {
    seq(|order|, i requires 0 <= i < |order| => Target(heights, order, count, i))
  }

  function Target(heights: seq<nat>, order: seq<nat>, count: nat, i: nat): (c: nat)
    requires 1 <= count && i < |order|
    ensures c < count
  {
    Shortest(Placed(heights, order, count, i).filled)
  }

  lemma {:induction false} FilledIsHeight(heights: seq<nat>, order: seq<nat>, count: nat, t: nat, j: nat)
    requires 1 <= count && t <= |order| && j < count
    ensures var s := Placed(heights, order, count, t);
      s.filled[j] == Height(heights, s.columns[j])
  {
    if t > 0 {
      FilledIsHeight(heights, order, count, t - 1, j);
      HeightAppend(heights, Placed(heights, order, count, t - 1).columns[j], order[t - 1]);
    }
  }

  lemma {:induction false} FilledIsLoad(heights: seq<nat>, order: seq<nat>, count: nat, t: nat, j: nat)
    requires 1 <= count && t <= |order| && j < count
    ensures FilledMatches(heights, order, count, t, j)
    decreases t
  {
    hide FilledMatches;
    if t == 0 {
      FilledAtFirst(heights, order, count, j);
    } else {
      FilledIsLoad(heights, order, count, t - 1, j);
      FilledStep(heights, order, count, t, j);
    }
  }

  ghost predicate FilledMatches(heights: seq<nat>, order: seq<nat>, count: nat, t: nat, j: nat)
    requires 1 <= count && t <= |order| && j < count
  {
    Placed(heights, order, count, t).filled[j]
      == Load(Ranked(heights, order), Targets(heights, order, count), j, t)
  }

  lemma FilledAtFirst(heights: seq<nat>, order: seq<nat>, count: nat, j: nat)
    requires 1 <= count && j < count
    ensures FilledMatches(heights, order, count, 0, j)
  {
  }

  lemma FilledStep(heights: seq<nat>, order: seq<nat>, count: nat, t: nat, j: nat)
    requires 1 <= count && 0 < t <= |order| && j < count
    requires FilledMatches(heights, order, count, t - 1, j)
    ensures FilledMatches(heights, order, count, t, j)
  {
    PlacedStep(heights, order, count, t, j);
    TargetsStep(heights, order, count, t, j);
  }

  lemma TargetsStep(heights: seq<nat>, order: seq<nat>, count: nat, t: nat, j: nat)
    requires 1 <= count && 0 < t <= |order| && j < count
    ensures var h, a := Ranked(heights, order), Targets(heights, order, count);
      Load(h, a, j, t)
        == Load(h, a, j, t - 1) + if Target(heights, order, count, t - 1) == j then At(heights, order[t - 1]) else 0
  {
    var h, a := Ranked(heights, order), Targets(heights, order, count);
    assert h[t - 1] == At(heights, order[t - 1]);
    assert a[t - 1] == Target(heights, order, count, t - 1);
  }

  lemma PlacedStep(heights: seq<nat>, order: seq<nat>, count: nat, t: nat, j: nat)
    requires 1 <= count && 0 < t <= |order| && j < count
    ensures Placed(heights, order, count, t).filled[j]
         == Placed(heights, order, count, t - 1).filled[j]
          + if Target(heights, order, count, t - 1) == j then At(heights, order[t - 1]) else 0
  {
    PutAt(Placed(heights, order, count, t - 1), heights, order[t - 1], j);
  }

  lemma PutAt(s: Stacks, heights: seq<nat>, index: nat, j: nat)
    requires s.Valid() && j < |s.filled|
    ensures s.Put(heights, index).filled[j]
         == s.filled[j] + if Shortest(s.filled) == j then At(heights, index) else 0
  {
  }

  lemma TargetsAreGreedy(heights: seq<nat>, order: seq<nat>, count: nat)
    requires 1 <= count
    ensures Greedy(Ranked(heights, order), Targets(heights, order, count), count)
  {
    var h, a := Ranked(heights, order), Targets(heights, order, count);
    forall i | 0 <= i < |a| ensures NoShorter(h, a, count, i, Load(h, a, a[i], i)) {
      forall j: nat | j < count ensures Load(h, a, a[i], i) <= Load(h, a, j, i) {
        FilledIsLoad(heights, order, count, i, j);
        FilledIsLoad(heights, order, count, i, a[i]);
      }
    }
  }

  // ---- Any other arrangement as an assignment -------------------------------------------------

  ghost function Owner(columns: seq<seq<nat>>, x: nat): (c: nat)
    requires Holds(columns, x)
    ensures c < |columns| && x in columns[c]
  {
    var c :| 0 <= c < |columns| && x in columns[c];
    c
  }

  ghost function Owners(columns: seq<seq<nat>>, order: seq<nat>): (g: seq<nat>)
    requires forall x :: x in order ==> Holds(columns, x)
    ensures |g| == |order| && InRange(g, |columns|)
  {
    seq(|order|, i requires 0 <= i < |order| => Owner(columns, order[i]))
  }

  function Picked(s: seq<nat>, column: seq<nat>): seq<nat> {
    if s == [] then []
    else Picked(s[..|s| - 1], column) + if s[|s| - 1] in column then [s[|s| - 1]] else []
  }

  lemma {:induction false} PickedCounts(s: seq<nat>, column: seq<nat>, x: nat)
    ensures multiset(Picked(s, column))[x] == if x in column then multiset(s)[x] else 0
  {
    if s != [] {
      PickedCounts(s[..|s| - 1], column, x);
      assert s == s[..|s| - 1] + [s[|s| - 1]];
    }
  }

  lemma {:induction false} OwnedLoad(heights: seq<nat>, columns: seq<seq<nat>>, order: seq<nat>, h: seq<nat>,
      g: seq<nat>, n: nat, j: nat, t: nat)
    requires Arrangement(columns, n) && j < |columns| && t <= |order| == |h| == |g|
    requires forall x :: x in order ==> Holds(columns, x)
    requires h == Ranked(heights, order) && g == Owners(columns, order)
    ensures Load(h, g, j, t) == Height(heights, Picked(order[..t], columns[j]))
    decreases t
  {
    if t > 0 {
      OwnedLoad(heights, columns, order, h, g, n, j, t - 1);
      assert order[t - 1] in order && Holds(columns, order[t - 1]);
      OwnerHolds(columns, n, order[t - 1], j);
      HeightOfPicked(heights, order, columns[j], t);
    }
  }

  lemma OwnerHolds(columns: seq<seq<nat>>, n: nat, x: nat, j: nat)
    requires Arrangement(columns, n) && j < |columns| && Holds(columns, x)
    ensures x in columns[j] <==> Owner(columns, x) == j
  {
  }

  lemma HeightOfPicked(heights: seq<nat>, order: seq<nat>, column: seq<nat>, t: nat)
    requires 0 < t <= |order|
    ensures Height(heights, Picked(order[..t], column))
      == Height(heights, Picked(order[..t - 1], column))
         + if order[t - 1] in column then At(heights, order[t - 1]) else 0
  {
    var x, before := order[t - 1], order[..t - 1];
    hide Height, Picked, At;
    assert order[..t] == before + [x];
    PickedAppend(before, x, column);
    HeightAppend(heights, Picked(before, column), x);
  }

  lemma PickedAppend(s: seq<nat>, x: nat, column: seq<nat>)
    ensures Picked(s + [x], column) == if x in column then Picked(s, column) + [x] else Picked(s, column)
  {
    assert (s + [x])[..|s|] == s;
  }

  lemma PickedIsColumn(s: seq<nat>, column: seq<nat>)
    requires Distinct(s) && Distinct(column) && forall x :: x in column ==> x in s
    ensures multiset(Picked(s, column)) == multiset(column)
  {
    DistinctByMultiset(s);
    DistinctByMultiset(column);
    var ours: multiset<nat>, theirs: multiset<nat> := multiset(Picked(s, column)), multiset(column);
    forall x: nat ensures ours[x] == theirs[x] {
      PickedCounts(s, column, x);
      assert x in column <==> x in theirs;
    }
  }

  lemma ColumnWithinOrder(heights: seq<nat>, columns: seq<seq<nat>>, j: nat)
    requires Arrangement(columns, |heights|) && j < |columns|
    ensures forall x :: x in columns[j] ==> x in Order(heights)
  {
    OrderIsPermutation(heights);
    forall x | x in columns[j] ensures x in Order(heights) {
      assert x in Below(|heights|);
    }
  }

  lemma PickedColumn(heights: seq<nat>, order: seq<nat>, column: seq<nat>)
    requires Distinct(order) && Distinct(column) && forall x :: x in column ==> x in order
    ensures Height(heights, Picked(order, column)) == Height(heights, column)
  {
    PickedIsColumn(order, column);
    HeightPermutes(heights, Picked(order, column), column);
  }

  lemma ColumnIsLoad(heights: seq<nat>, columns: seq<seq<nat>>, j: nat)
    requires Arrangement(columns, |heights|) && j < |columns|
    requires forall x :: x in Order(heights) ==> Holds(columns, x)
    ensures Load(Ranked(heights, Order(heights)), Owners(columns, Order(heights)), j, |heights|)
         == Height(heights, columns[j])
  {
    var order := Order(heights);
    OwnedLoad(heights, columns, order, Ranked(heights, order), Owners(columns, order), |heights|, j, |order|);
    assert order[..|order|] == order;
    OrderIsPermutation(heights);
    ColumnWithinOrder(heights, columns, j);
    PickedColumn(heights, order, columns[j]);
  }

  lemma {:induction false} TidiedColumns(columns: seq<seq<nat>>, c: nat) returns (d: nat)
    requires c < |Tidied(columns)|
    ensures d < |columns| && columns[d] != [] && Tidied(columns)[c] == Sorted(Before(), columns[d])
  {
    var front := columns[..|columns| - 1];
    if c < |Tidied(front)| {
      d := TidiedColumns(front, c);
    } else {
      d := |columns| - 1;
    }
  }

  lemma OthersWithin(heights: seq<nat>, count: nat, other: seq<seq<nat>>, opt: nat)
    requires |other| <= count && Arrangement(other, |heights|)
    requires Tallest(heights, other) == opt
    ensures forall x :: x in Order(heights) ==> Holds(other, x)
    ensures NoTaller(Ranked(heights, Order(heights)), Owners(other, Order(heights)), count, |heights|, opt)
  {
    OrderIsPermutation(heights);
    var h, g := Ranked(heights, Order(heights)), Owners(other, Order(heights));
    forall j: nat | j < count ensures Load(h, g, j, |heights|) <= opt {
      if j < |other| {
        ColumnIsLoad(heights, other, j);
      } else {
        NobodyThere(h, g, j, |heights|);
      }
    }
  }

  /** The height of a column of the result is what the loop put there. */
  lemma DistributedColumn(heights: seq<nat>, count: nat, c: nat) returns (d: nat)
    requires 1 <= count && c < |Distributed(heights, count)|
    ensures d < count
    ensures Height(heights, Distributed(heights, count)[c])
         == Load(Ranked(heights, Order(heights)), Targets(heights, Order(heights), count), d, |heights|)
  {
    var order := Order(heights);
    var stacks := Placed(heights, order, count, |heights|);
    d := TidiedColumns(stacks.columns, c);
    HeightPermutes(heights, stacks.columns[d], Distributed(heights, count)[c]);
    FilledIsHeight(heights, order, count, |heights|, d);
    FilledIsLoad(heights, order, count, |heights|, d);
  }

  lemma ColumnWithinFourThirds(heights: seq<nat>, count: nat, other: seq<seq<nat>>, c: nat, opt: nat)
    requires 1 <= count && |other| <= count && Arrangement(other, |heights|)
    requires opt == Tallest(heights, other) && c < |Distributed(heights, count)|
    ensures 3 * count * Height(heights, Distributed(heights, count)[c]) <= (4 * count - 1) * opt
  {
    var order := Order(heights);
    var d := DistributedColumn(heights, count, c);
    OthersWithin(heights, count, other, opt);
    var h, a, g := Ranked(heights, order), Targets(heights, order, count), Owners(other, order);
    RankedDecreases(heights);
    TargetsAreGreedy(heights, order, count);
    WidenOwners(g, |other|, count);
    GreedyBound(h, a, g, count, d, |heights|, opt);
  }

  /**
   The worst case the docstring names: no arrangement into at most `count` columns is more
   than 4/3 - 1/(3 count) times shorter than the distribution, at its tallest column.
   */
  lemma WithinFourThirds(heights: seq<nat>, count: nat, other: seq<seq<nat>>)
    requires 1 <= count && |other| <= count && Arrangement(other, |heights|)
    ensures 3 * count * Tallest(heights, Distributed(heights, count))
         <= (4 * count - 1) * Tallest(heights, other)
  {
    var opt := Tallest(heights, other);
    var c := TallestColumn(heights, Distributed(heights, count));
    if c < |Distributed(heights, count)| {
      ColumnWithinFourThirds(heights, count, other, c, opt);
    } else {
      Nonnegative(count, opt);
    }
  }

  lemma Nonnegative(count: nat, opt: nat)
    requires 1 <= count
    ensures 3 * count * 0 <= (4 * count - 1) * opt
  {
    MulMono(opt, 0, 4 * count - 1);
  }

  lemma TallestColumn(heights: seq<nat>, columns: seq<seq<nat>>) returns (c: nat)
    ensures c < |columns| ==> Height(heights, columns[c]) == Tallest(heights, columns)
    ensures c >= |columns| ==> Tallest(heights, columns) == 0
  {
    if Tallest(heights, columns) == 0 {
      c := |columns|;
    } else {
      c :| c < |columns| && Height(heights, columns[c]) == Tallest(heights, columns);
    }
  }

  lemma WidenOwners(g: seq<nat>, m: nat, count: nat)
    requires InRange(g, m) && m <= count
    ensures InRange(g, count)
  {
  }

  lemma {:induction false} NobodyThere(h: seq<nat>, g: seq<nat>, j: nat, t: nat)
    requires t <= |h| && t <= |g| && InRange(g, j)
    ensures Load(h, g, j, t) == 0
  {
    if t > 0 {
      NobodyThere(h, g, j, t - 1);
    }
  }


  // ---- Lossless ------------------------------------------------------------------------------

  lemma PutKeepsExactlyOnce(s: Stacks, heights: seq<nat>, index: nat, members: set<nat>)
    requires s.Valid() && ExactlyOnce(s.columns, members) && index !in members
    ensures ExactlyOnce(s.Put(heights, index).columns, members + {index})
  {
    var target := Shortest(s.filled);
    var columns := s.Put(heights, index).columns;
    assert forall c, x :: 0 <= c < |columns| && x in columns[c] ==>
      x in s.columns[c] || (c == target && x == index);
    forall x | x in members + {index} ensures Holds(columns, x) {
      if x == index {
        assert index in columns[target];
      } else {
        var c :| 0 <= c < |columns| && x in s.columns[c];
        assert x in columns[c];
      }
    }
  }

  lemma {:induction false} PlacedExactlyOnce(heights: seq<nat>, order: seq<nat>, count: nat, t: nat)
    requires 1 <= count && t <= |order| && Distinct(order)
    ensures ExactlyOnce(Placed(heights, order, count, t).columns, set i | 0 <= i < t :: order[i])
    decreases t
  {
    if t > 0 {
      PlacedExactlyOnce(heights, order, count, t - 1);
      var members := set i | 0 <= i < t - 1 :: order[i];
      PutKeepsExactlyOnce(Placed(heights, order, count, t - 1), heights, order[t - 1], members);
      assert (set i | 0 <= i < t :: order[i]) == members + {order[t - 1]};
    }
  }

  ghost predicate InIndexOrder(columns: seq<seq<nat>>) {
    forall c, i, k :: 0 <= c < |columns| && 0 <= i < k < |columns[c]| ==> columns[c][i] < columns[c][k]
  }

  ghost predicate NoneEmpty(columns: seq<seq<nat>>) {
    forall c :: 0 <= c < |columns| ==> columns[c] != []
  }

  lemma SortedColumn(column: seq<nat>)
    requires Distinct(column)
    ensures var r := Sorted(Before(), column);
      Distinct(r) && (forall x :: x in r <==> x in column) && forall i, k :: 0 <= i < k < |r| ==> r[i] < r[k]
  {
    var r := Sorted(Before(), column);
    SortedAscends(Before(), column);
    DistinctPermutes(column, r);
    MembersByMultiset(column, r);
  }

  lemma {:induction false} TidiedExactlyOnce(columns: seq<seq<nat>>, members: set<nat>)
    requires ExactlyOnce(columns, members)
    ensures ExactlyOnce(Tidied(columns), members)
    decreases |columns|
  {
    if columns == [] {
    } else {
      var front, last := columns[..|columns| - 1], columns[|columns| - 1];
      var theirs := set x | x in members && x !in last;
      FrontExactlyOnce(columns, members, theirs);
      TidiedExactlyOnce(front, theirs);
      SortedColumn(last);
      AppendExactlyOnce(Tidied(front), last, Sorted(Before(), last), theirs, members);
    }
  }

  lemma {:induction false} TidiedInIndexOrder(columns: seq<seq<nat>>)
    requires forall c :: 0 <= c < |columns| ==> Distinct(columns[c])
    ensures InIndexOrder(Tidied(columns)) && NoneEmpty(Tidied(columns))
    ensures NoneEmpty(columns) ==> |Tidied(columns)| == |columns|
    decreases |columns|
  {
    if columns != [] {
      var front, last := columns[..|columns| - 1], columns[|columns| - 1];
      TidiedInIndexOrder(front);
      SortedColumn(last);
      AppendInIndexOrder(Tidied(front), last, Sorted(Before(), last));
      hide Sorted, Distinct, InIndexOrder;
    }
  }

  lemma AppendInIndexOrder(front: seq<seq<nat>>, last: seq<nat>, tidy: seq<nat>)
    requires InIndexOrder(front) && NoneEmpty(front) && |tidy| == |last|
    requires forall i, k :: 0 <= i < k < |tidy| ==> tidy[i] < tidy[k]
    ensures var columns := front + if last == [] then [] else [tidy]; InIndexOrder(columns) && NoneEmpty(columns)
  {
  }

  lemma FrontExactlyOnce(columns: seq<seq<nat>>, members: set<nat>, theirs: set<nat>)
    requires ExactlyOnce(columns, members) && columns != []
    requires theirs == (set x | x in members && x !in columns[|columns| - 1])
    ensures ExactlyOnce(columns[..|columns| - 1], theirs)
  {
    var front := columns[..|columns| - 1];
    forall x | x in theirs ensures Holds(front, x) {
      assert Holds(columns, x);
      var c :| 0 <= c < |columns| && x in columns[c];
      assert x in front[c];
    }
  }

  lemma AppendExactlyOnce(front: seq<seq<nat>>, last: seq<nat>, tidy: seq<nat>, theirs: set<nat>, members: set<nat>)
    requires ExactlyOnce(front, theirs) && theirs == (set x | x in members && x !in last)
    requires Distinct(tidy) && (forall x :: x in tidy <==> x in last) && (forall x :: x in last ==> x in members)
    ensures ExactlyOnce(front + if last == [] then [] else [tidy], members)
  {
    var columns := front + if last == [] then [] else [tidy];
    forall c | 0 <= c < |columns| ensures Distinct(columns[c]) && forall x :: x in columns[c] ==> x in members {
      assert columns[c] == if c < |front| then front[c] else tidy;
      assert c < |front| ==> forall x :: x in front[c] ==> x in theirs;
    }
    forall c, d, x | 0 <= c < d < |columns| && x in columns[c] ensures x !in columns[d] {
      assert columns[c] == front[c];
      assert x in theirs;
    }
    forall x | x in members ensures Holds(columns, x) {
      if x in last {
        assert x in columns[|front|];
      } else {
        assert Holds(front, x);
        var c :| 0 <= c < |front| && x in front[c];
        assert x in columns[c];
      }
    }
  }

  /** Every block is in exactly one column, and each column reads in declaration order. */
  lemma DistributedIsArrangement(heights: seq<nat>, count: nat)
    requires 1 <= count
    ensures Arrangement(Distributed(heights, count), |heights|)
    ensures InIndexOrder(Distributed(heights, count)) && NoneEmpty(Distributed(heights, count))
  {
    var order := Order(heights);
    OrderIsPermutation(heights);
    PlacedExactlyOnce(heights, order, count, |heights|);
    var members := set i | 0 <= i < |heights| :: order[i];
    forall x: nat ensures x in members <==> x in Below(|heights|) {
      assert x in members <==> x in order;
    }
    assert members == Below(|heights|);
    TidiedExactlyOnce(Placed(heights, order, count, |heights|).columns, members);
    TidiedInIndexOrder(Placed(heights, order, count, |heights|).columns);
  }

  // ---- No column stays empty ------------------------------------------------------------------

  /** The first t columns, and only those, hold something. */
  ghost predicate Opened(s: Stacks, t: nat) {
    && (forall j :: 0 <= j < |s.filled| && j < t ==> 0 < s.filled[j])
    && (forall j :: 0 <= j < |s.columns| && j < t ==> s.columns[j] != [])
    && (forall j :: t <= j < |s.filled| ==> s.filled[j] == 0)
  }

  lemma PutOpens(s: Stacks, heights: seq<nat>, index: nat, t: nat)
    requires s.Valid() && Opened(s, t) && 0 < At(heights, index)
    ensures Opened(s.Put(heights, index), t + 1)
  {
    if t < |s.filled| {
      assert s.filled[t] == 0;
      assert Shortest(s.filled) == t;
    }
  }

  /** While blocks of positive height are placed, they open one column after the other. */
  lemma {:induction false} PlacedOpensColumns(heights: seq<nat>, order: seq<nat>, count: nat, t: nat)
    requires 1 <= count && t <= |order|
    requires forall x :: x in order ==> 0 < At(heights, x)
    ensures Opened(Placed(heights, order, count, t), t)
    decreases t
  {
    if t > 0 {
      PlacedOpensColumns(heights, order, count, t - 1);
      assert order[t - 1] in order;
      PutOpens(Placed(heights, order, count, t - 1), heights, order[t - 1], t - 1);
    }
  }

  /** With no empty block, every one of the `count` columns is used. */
  lemma EveryColumnUsed(heights: seq<nat>, count: nat)
    requires 1 <= count <= |heights|
    requires forall i :: 0 <= i < |heights| ==> 0 < heights[i]
    ensures |Distributed(heights, count)| == count
  {
    var order := Order(heights);
    OrderIsPermutation(heights);
    assert forall x :: x in order ==> 0 < At(heights, x);
    PlacedOpensColumns(heights, order, count, |heights|);
    PlacedExactlyOnce(heights, order, count, |heights|);
    TidiedInIndexOrder(Placed(heights, order, count, |heights|).columns);
  }

  // ---- The search for the column count ------------------------------------------------------

  /** The widest block of a column: none is wider, and one is as wide. */
  function Widest(widths: seq<nat>, column: seq<nat>): (widest: nat)
    ensures forall x :: x in column ==> At(widths, x) <= widest
    ensures column != [] ==> exists x :: x in column && At(widths, x) == widest
  {
    if column == [] then 0
    else
      var rest := Widest(widths, column[1..]);
      var first := At(widths, column[0]);
      assert column == [column[0]] + column[1..];
      if rest < first then first else rest
  }

  function Used(widths: seq<nat>, columns: seq<seq<nat>>): nat {
    if columns == [] then 0
    else Used(widths, columns[..|columns| - 1]) + Widest(widths, columns[|columns| - 1])
  }

  /** One block of every column. */
  ghost predicate OneOfEach(choice: seq<nat>, columns: seq<seq<nat>>) {
    |choice| == |columns| && forall c :: 0 <= c < |columns| ==> choice[c] in columns[c]
  }

  /** Whichever block is taken of every column, side by side and with the gaps they fit. */
  ghost predicate EveryChoiceFits(widths: seq<nat>, columns: seq<seq<nat>>, width: int, gap: int) {
    forall choice :: OneOfEach(choice, columns) ==> Height(widths, choice) + gap * (|columns| - 1) <= width
  }

  lemma {:induction false} NoChoiceIsWider(widths: seq<nat>, columns: seq<seq<nat>>, choice: seq<nat>)
    requires OneOfEach(choice, columns)
    ensures Height(widths, choice) <= Used(widths, columns)
    decreases |columns|
  {
    if columns != [] {
      var n := |columns| - 1;
      NoChoiceIsWider(widths, columns[..n], choice[..n]);
      assert choice[n] in columns[n];
    }
  }

  lemma {:induction false} WidestChoice(widths: seq<nat>, columns: seq<seq<nat>>) returns (choice: seq<nat>)
    requires NoneEmpty(columns)
    ensures OneOfEach(choice, columns) && Height(widths, choice) == Used(widths, columns)
    decreases |columns|
  {
    if columns == [] {
      choice := [];
    } else {
      var n := |columns| - 1;
      var front := WidestChoice(widths, columns[..n]);
      var x :| x in columns[n] && At(widths, x) == Widest(widths, columns[n]);
      choice := front + [x];
      assert choice[..n] == front;
    }
  }

  /** The widths of the widest blocks, added up, decide for every choice. */
  lemma UsedDecides(widths: seq<nat>, columns: seq<seq<nat>>, width: int, gap: int)
    requires NoneEmpty(columns)
    ensures Used(widths, columns) + gap * (|columns| - 1) <= width <==> EveryChoiceFits(widths, columns, width, gap)
  {
    hide Used, Height;
    var room := gap * (|columns| - 1);
    var widest := WidestChoice(widths, columns);
    forall choice | OneOfEach(choice, columns) ensures Height(widths, choice) <= Used(widths, columns) {
      NoChoiceIsWider(widths, columns, choice);
    }
    assert EveryChoiceFits(widths, columns, width, gap) ==> Height(widths, widest) + room <= width;
  }

  ghost predicate CountFits(heights: seq<nat>, widths: seq<nat>, count: nat, width: int, gap: int) {
    1 <= count && EveryChoiceFits(widths, Distributed(heights, count), width, gap)
  }

  /** The columns are the distribution at `count`, the largest of 2..n that fits. */
  ghost predicate WidestFit(heights: seq<nat>, widths: seq<nat>, width: int, gap: int, count: nat,
      columns: seq<seq<nat>>)
  {
    && 2 <= count <= |heights|
    && columns == Distributed(heights, count)
    && CountFits(heights, widths, count, width, gap)
    && NoneFitsAbove(heights, widths, width, gap, count)
  }

  ghost predicate NoneFitsAbove(heights: seq<nat>, widths: seq<nat>, width: int, gap: int, count: nat) {
    forall c: nat :: count < c <= |heights| ==> !CountFits(heights, widths, c, width, gap)
  }

  /**
   Each block once, in order; several columns fit, whichever block is taken of each; and they are
   the distribution at the largest count that fits, or one column of everything if none does.
   */
  ghost predicate Packs(heights: seq<nat>, widths: seq<nat>, width: int, gap: int, columns: seq<seq<nat>>) {
    && Arrangement(columns, |heights|) && InIndexOrder(columns) && NoneEmpty(columns)
    && (|columns| > 1 ==> EveryChoiceFits(widths, columns, width, gap))
    && (heights != [] ==>
          || (exists count :: WidestFit(heights, widths, width, gap, count, columns))
          || (columns == [Indices(|heights|)] && NoneFitsAbove(heights, widths, width, gap, 1)))
    && ((forall i :: 0 <= i < |heights| ==> 0 < heights[i]) ==>
          forall count :: WidestFit(heights, widths, width, gap, count, columns) ==> |columns| == count)
  }

  method PackBlocks(heights: seq<nat>, widths: seq<nat>, width: int, gap: int) returns (columns: seq<seq<nat>>)
    requires |widths| == |heights|
    ensures Packs(heights, widths, width, gap, columns)
  {
    if heights == [] {
      return [];
    }
    var count := |heights|;
    while count > 1
      invariant 1 <= count <= |heights|
      invariant NoneFitsAbove(heights, widths, width, gap, count)
    {
      columns := Distribute(heights, count);
      CountDecided(heights, widths, width, gap, count);
      hide Used, CountFits, Packs, Distributed, NoneFitsAbove;
      if Used(widths, columns) + gap * (|columns| - 1) <= width {
        FirstFit(heights, widths, width, gap, count);
        return;
      }
      OneMoreRejected(heights, widths, width, gap, count);
      count := count - 1;
    }
    columns := [Indices(|heights|)];
    NoneFits(heights, widths, width, gap);
  }

  lemma CountDecided(heights: seq<nat>, widths: seq<nat>, width: int, gap: int, count: nat)
    requires 1 <= count
    ensures var columns := Distributed(heights, count);
      Used(widths, columns) + gap * (|columns| - 1) <= width <==> CountFits(heights, widths, count, width, gap)
  {
    DistributedIsArrangement(heights, count);
    UsedDecides(widths, Distributed(heights, count), width, gap);
  }

  lemma OneMoreRejected(heights: seq<nat>, widths: seq<nat>, width: int, gap: int, count: nat)
    requires 1 < count && NoneFitsAbove(heights, widths, width, gap, count)
    requires !CountFits(heights, widths, count, width, gap)
    ensures NoneFitsAbove(heights, widths, width, gap, count - 1)
  {
    hide CountFits;
  }

  lemma FirstFit(heights: seq<nat>, widths: seq<nat>, width: int, gap: int, count: nat)
    requires 2 <= count <= |heights| && NoneFitsAbove(heights, widths, width, gap, count)
    requires CountFits(heights, widths, count, width, gap)
    ensures Packs(heights, widths, width, gap, Distributed(heights, count))
  {
    DistributedIsArrangement(heights, count);
    if forall i :: 0 <= i < |heights| ==> 0 < heights[i] {
      EachCountUsed(heights);
    }
    hide EveryChoiceFits, Distributed, Arrangement, InIndexOrder, NoneEmpty;
    assert WidestFit(heights, widths, width, gap, count, Distributed(heights, count));
  }

  lemma NoneFits(heights: seq<nat>, widths: seq<nat>, width: int, gap: int)
    requires heights != [] && NoneFitsAbove(heights, widths, width, gap, 1)
    ensures Packs(heights, widths, width, gap, [Indices(|heights|)])
  {
    OneColumn(|heights|);
    if forall i :: 0 <= i < |heights| ==> 0 < heights[i] {
      EachCountUsed(heights);
    }
    hide EveryChoiceFits, Distributed, Arrangement, InIndexOrder, NoneEmpty, CountFits, Indices;
  }

  lemma EachCountUsed(heights: seq<nat>)
    requires forall i :: 0 <= i < |heights| ==> 0 < heights[i]
    ensures forall count :: 2 <= count <= |heights| ==> |Distributed(heights, count)| == count
  {
    forall count | 2 <= count <= |heights| ensures |Distributed(heights, count)| == count {
      EveryColumnUsed(heights, count);
    }
  }

  lemma OneColumn(n: nat)
    ensures Arrangement([Indices(n)], n) && InIndexOrder([Indices(n)]) && (n > 0 ==> NoneEmpty([Indices(n)]))
  {
    forall x: nat | x < n ensures Holds([Indices(n)], x) {
      assert Indices(n)[x] == x;
      assert x in [Indices(n)][0];
    }
  }
}
