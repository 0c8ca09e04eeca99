/** The order of the columns, and how ties are broken: by height first, then by index. */
module ColumnOrder {
  import opened Packing
  import opened Sorting

  /** Block `x` is taller than `y`, or as tall and declared before it. */
  predicate Ahead(heights: seq<nat>, x: nat, y: nat) {
    x < |heights| && y < |heights| && (heights[x] > heights[y] || (heights[x] == heights[y] && x < y))
  }

  /** The blocks are placed tallest first, and equally tall ones in the order of their declaration. */
  lemma OrderIsAhead(heights: seq<nat>)
    ensures var order := Order(heights);
      |order| == |heights| && forall i, k :: 0 <= i < k < |order| ==> Ahead(heights, order[i], order[k])
  {
    var order := Order(heights);
    SortedAscends(TallerFirst(heights), Indices(|heights|));
    OrderIsPermutation(heights);
    forall i | 0 <= i < |order| ensures order[i] < |heights| {
      assert order[i] in order;
    }
  }

  /** All these blocks are placed: they are among the first `t` of the order. */
  ghost predicate Among(column: seq<nat>, order: seq<nat>, t: nat)
    requires t <= |order|
  {
    forall x :: x in column ==> x in order[..t]
  }

  /** The first block of a column on the left is ahead of everything in one on its right. */
  ghost predicate LeftAhead(heights: seq<nat>, left: seq<nat>, right: seq<nat>) {
    right != [] ==> left != [] && forall y :: y in right ==> Ahead(heights, left[0], y)
  }

  ghost predicate LeftToRight(heights: seq<nat>, columns: seq<seq<nat>>) {
    forall c, d :: 0 <= c < d < |columns| ==> LeftAhead(heights, columns[c], columns[d])
  }

  /** What is placed next is behind everything placed before. */
  lemma NextIsBehind(heights: seq<nat>, t: nat, x: nat)
    requires t < |Order(heights)| && x in Order(heights)[..t]
    ensures Ahead(heights, x, Order(heights)[t])
  {
    OrderIsAhead(heights);
    var order := Order(heights);
    var i :| 0 <= i < t && order[i] == x;
  }

  lemma OneMoreAmong(heights: seq<nat>, s: Stacks, order: seq<nat>, t: nat)
    requires t < |order| && s.Valid() && forall c :: 0 <= c < |s.columns| ==> Among(s.columns[c], order, t)
    ensures var next := s.Put(heights, order[t]);
      forall c :: 0 <= c < |next.columns| ==> Among(next.columns[c], order, t + 1)
  {
    hide Shortest;
    var next, target := s.Put(heights, order[t]), Shortest(s.filled);
    assert order[..t + 1] == order[..t] + [order[t]];
    forall c | 0 <= c < |next.columns| ensures Among(next.columns[c], order, t + 1) {
      assert Among(s.columns[c], order, t);
      assert next.columns[c] == if c == target then s.columns[c] + [order[t]] else s.columns[c];
    }
  }

  /** Where the shortest column is empty, every column on its left holds something. */
  lemma LeftOfTarget(heights: seq<nat>, s: Stacks, c: nat)
    requires s.Valid() && c < Shortest(s.filled)
    requires forall j :: 0 <= j < |s.columns| ==> s.filled[j] == Height(heights, s.columns[j])
    ensures s.columns[c] != []
  {
    EmptyHasNoHeight(heights);
    hide Height;
    assert s.filled[Shortest(s.filled)] < s.filled[c];
  }

  lemma OneMorePlaced(heights: seq<nat>, s: Stacks, t: nat)
    requires t < |Order(heights)| && s.Valid() && LeftToRight(heights, s.columns)
    requires forall c :: 0 <= c < |s.columns| ==> Among(s.columns[c], Order(heights), t)
    requires forall c :: 0 <= c < |s.columns| ==> s.filled[c] == Height(heights, s.columns[c])
    ensures LeftToRight(heights, s.Put(heights, Order(heights)[t]).columns)
  {
    var index, target := Order(heights)[t], Shortest(s.filled);
    var next := s.Put(heights, index);
    hide Order, Height, Shortest, Ahead;
    assert forall c :: 0 <= c < |s.columns| ==>
      next.columns[c] == if c == target then s.columns[c] + [index] else s.columns[c];
    forall c, d | 0 <= c < d < |next.columns| ensures LeftAhead(heights, next.columns[c], next.columns[d]) {
      assert LeftAhead(heights, s.columns[c], s.columns[d]);
      if d == target {
        LeftOfTarget(heights, s, c);
        assert Among(s.columns[c], Order(heights), t);
        assert s.columns[c][0] in s.columns[c];
        NextIsBehind(heights, t, s.columns[c][0]);
      }
    }
  }

  lemma EmptyHasNoHeight(heights: seq<nat>)
    ensures Height(heights, []) == 0
  {
  }

  lemma {:induction false} PlacedLeftToRight(heights: seq<nat>, count: nat, t: nat)
    requires 1 <= count && t <= |heights|
    ensures |Order(heights)| == |heights|
    ensures var columns := Placed(heights, Order(heights), count, t).columns;
      && LeftToRight(heights, columns)
      && forall c :: 0 <= c < |columns| ==> Among(columns[c], Order(heights), t)
    decreases t
  {
    OrderIsPermutation(heights);
    hide Order, Height, Shortest;
    if t > 0 {
      PlacedLeftToRight(heights, count, t - 1);
      var s := Placed(heights, Order(heights), count, t - 1);
      forall c | 0 <= c < |s.columns| ensures s.filled[c] == Height(heights, s.columns[c]) {
        FilledIsHeight(heights, Order(heights), count, t - 1, c);
      }
      PlacedNext(heights, Order(heights), count, t - 1);
      OneMorePlaced(heights, s, t - 1);
      OneMoreAmong(heights, s, Order(heights), t - 1);
    }
  }

  /** The columns in use come first. */
  ghost predicate UsedFirst(columns: seq<seq<nat>>) {
    forall c, d :: 0 <= c < d < |columns| && columns[d] != [] ==> columns[c] != []
  }

  /** Each column in use has kept its place. */
  ghost predicate InPlace(columns: seq<seq<nat>>, tidy: seq<seq<nat>>) {
    && |tidy| <= |columns|
    && (forall c :: 0 <= c < |columns| ==> (c < |tidy| <==> columns[c] != []))
    && (forall c :: 0 <= c < |tidy| ==> tidy[c] == Sorted(Before(), columns[c]))
  }

  lemma OneMoreInPlace(columns: seq<seq<nat>>, tidy: seq<seq<nat>>, last: seq<nat>)
    requires UsedFirst(columns + [last]) && InPlace(columns, tidy)
    ensures InPlace(columns + [last], tidy + if last == [] then [] else [Sorted(Before(), last)])
  {
    hide Sorted;
    var all := columns + [last];
    assert forall c :: 0 <= c < |columns| ==> all[c] == columns[c];
    if last != [] {
      assert all[|columns|] == last;
      assert |tidy| < |columns| ==> all[|tidy|] != [];
    }
  }

  lemma {:induction false} TidiedInPlace(columns: seq<seq<nat>>)
    requires UsedFirst(columns)
    ensures InPlace(columns, Tidied(columns))
    decreases |columns|
  {
    if columns != [] {
      var front, last := columns[..|columns| - 1], columns[|columns| - 1];
      assert columns == front + [last];
      UsedInFront(front, last);
      TidiedInPlace(front);
      TidiedAppend(front, last);
      hide Sorted, UsedFirst, InPlace, Tidied;
      OneMoreInPlace(front, Tidied(front), last);
    } else {
      NothingTidied();
    }
  }

  lemma UsedInFront(front: seq<seq<nat>>, last: seq<nat>)
    requires UsedFirst(front + [last])
    ensures UsedFirst(front)
  {
    var all := front + [last];
    assert forall c :: 0 <= c < |front| ==> all[c] == front[c];
  }

  lemma TidiedAppend(front: seq<seq<nat>>, last: seq<nat>)
    ensures Tidied(front + [last]) == Tidied(front) + if last == [] then [] else [Sorted(Before(), last)]
  {
    hide Sorted;
    assert (front + [last])[..|front|] == front;
  }

  lemma NothingTidied()
    ensures Tidied([]) == [] && InPlace([], [])
  {
  }

  /** A column holds a block that is ahead of every block of another. */
  ghost predicate LedBefore(heights: seq<nat>, left: seq<nat>, right: seq<nat>) {
    exists x :: x in left && forall y :: y in right ==> Ahead(heights, x, y)
  }

  /**
   The columns come by their tallest blocks: of any two, the left one holds a block that is taller
   than everything in the right one, or as tall and declared before it.
   */
  lemma ColumnsByTallest(heights: seq<nat>, count: nat, c: nat, d: nat)
    requires 1 <= count && c < d < |Distributed(heights, count)|
    ensures LedBefore(heights, Distributed(heights, count)[c], Distributed(heights, count)[d])
  {
    var columns := Placed(heights, Order(heights), count, |heights|).columns;
    PlacedLeftToRight(heights, count, |heights|);
    assert UsedFirst(columns) by {
      forall i, k | 0 <= i < k < |columns| ensures columns[k] != [] ==> columns[i] != [] {
        assert LeftAhead(heights, columns[i], columns[k]);
      }
    }
    TidiedInPlace(columns);
    assert Distributed(heights, count) == Tidied(columns);
    MembersByMultiset(columns[c], Sorted(Before(), columns[c]));
    MembersByMultiset(columns[d], Sorted(Before(), columns[d]));
    assert LeftAhead(heights, columns[c], columns[d]);
    assert columns[c][0] in Sorted(Before(), columns[c]);
  }
}
