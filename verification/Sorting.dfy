/** Sorting under a strict total order, as Python's `sorted` does it. */
module Sorting {

  ghost predicate StrictTotal<T(!new)>(lt: (T, T) -> bool) {
    && (forall x :: !lt(x, x))
    && (forall x, y :: x == y || lt(x, y) || lt(y, x))
    && (forall x, y, z :: lt(x, y) && lt(y, z) ==> lt(x, z))
  }

  ghost predicate Ascending<T>(lt: (T, T) -> bool, s: seq<T>) {
    forall i, k :: 0 <= i < k < |s| ==> s[i] == s[k] || lt(s[i], s[k])
  }

  ghost predicate Distinct<T>(s: seq<T>) {
    forall i, k :: 0 <= i < k < |s| ==> s[i] != s[k]
  }

  function Indices(n: nat): (r: seq<nat>)
    ensures |r| == n && forall i :: 0 <= i < n ==> r[i] == i
  {
    seq(n, i requires 0 <= i < n => i)
  }

  function Insert<T>(lt: (T, T) -> bool, x: T, s: seq<T>): (r: seq<T>)
    ensures multiset(r) == multiset(s) + multiset{x}
    ensures |r| == |s| + 1
  {
    if s != [] && lt(s[0], x) then
      assert s == [s[0]] + s[1..];
      [s[0]] + Insert(lt, x, s[1..])
    else
      [x] + s
  }

  function Sorted<T>(lt: (T, T) -> bool, s: seq<T>): (r: seq<T>)
    ensures multiset(r) == multiset(s) && |r| == |s|
  {
    if s == [] then []
    else
      assert s == [s[0]] + s[1..];
      Insert(lt, s[0], Sorted(lt, s[1..]))
  }

  lemma {:induction false} InsertAscends<T(!new)>(lt: (T, T) -> bool, x: T, s: seq<T>)
    requires StrictTotal(lt) && Ascending(lt, s)
    ensures Ascending(lt, Insert(lt, x, s))
  {
    if s != [] && lt(s[0], x) {
      var rest := Insert(lt, x, s[1..]);
      InsertAscends(lt, x, s[1..]);
      forall k | 0 <= k < |rest| ensures s[0] == rest[k] || lt(s[0], rest[k]) {
        assert rest[k] in multiset(rest);
        assert rest[k] == x || rest[k] in s[1..];
      }
    } else if s != [] {
      assert x == s[0] || lt(x, s[0]);
    }
  }

  lemma {:induction false} SortedAscends<T(!new)>(lt: (T, T) -> bool, s: seq<T>)
    requires StrictTotal(lt)
    ensures Ascending(lt, Sorted(lt, s))
  {
    if s != [] {
      SortedAscends(lt, s[1..]);
      InsertAscends(lt, s[0], Sorted(lt, s[1..]));
    }
  }

  lemma MembersByMultiset<T>(a: seq<T>, b: seq<T>)
    requires multiset(a) == multiset(b)
    ensures forall x :: x in a <==> x in b
  {
    forall x ensures x in a <==> x in b {
      assert x in a <==> x in multiset(a);
      assert x in b <==> x in multiset(b);
    }
  }

  lemma {:induction false} DistinctByMultiset<T>(s: seq<T>)
    ensures Distinct(s) <==> forall x :: x in s ==> multiset(s)[x] == 1
  {
    if s != [] {
      var rest := s[1..];
      assert s == [s[0]] + rest;
      DistinctByMultiset(rest);
      if Distinct(s) {
        assert s[0] !in rest;
        forall x | x in s ensures multiset(s)[x] == 1 {
          assert multiset(s)[x] == multiset([s[0]])[x] + multiset(rest)[x];
        }
      }
      if forall x :: x in s ==> multiset(s)[x] == 1 {
        forall x | x in rest ensures multiset(rest)[x] == 1 && x != s[0] {
          assert x in s;
          assert multiset(s)[x] == multiset([s[0]])[x] + multiset(rest)[x];
          assert x in multiset(rest);
        }
        assert Distinct(rest);
        forall i, k | 0 <= i < k < |s| ensures s[i] != s[k] {
          assert s[k] == rest[k - 1];
          assert s[k] in rest;
        }
      }
    }
  }

  lemma DistinctPermutes<T>(a: seq<T>, b: seq<T>)
    requires multiset(a) == multiset(b) && Distinct(a)
    ensures Distinct(b)
  {
    DistinctByMultiset(a);
    DistinctByMultiset(b);
    MembersByMultiset(a, b);
  }

  lemma CancelOne<T>(a: multiset<T>, b: multiset<T>, x: T)
    requires a + multiset{x} == b + multiset{x}
    ensures a == b
  {
    forall y ensures a[y] == b[y] {
      assert (a + multiset{x})[y] == (b + multiset{x})[y];
    }
  }

  /** Permutations that agree on one element are permutations without it. */
  lemma WithoutOne<T>(front: seq<T>, x: T, left: seq<T>, right: seq<T>, b: seq<T>)
    requires multiset(front + [x]) == multiset(b) && b == left + [x] + right
    ensures multiset(front) == multiset(left + right)
  {
    assert multiset(b) == multiset(left + right) + multiset{x};
    CancelOne(multiset(front), multiset(left + right), x);
  }

  /** Without repetition, in the order of first mention. */
  function Distinctly<T(==)>(s: seq<T>): seq<T> {
    if s == [] then []
    else
      var before, last := Distinctly(s[..|s| - 1]), s[|s| - 1];
      if last in s[..|s| - 1] then before else before + [last]
  }

  lemma {:induction false} DistinctlyKeeps<T>(s: seq<T>)
    ensures Distinct(Distinctly(s))
    ensures forall x :: x in Distinctly(s) <==> x in s
    decreases |s|
  {
    if s != [] {
      DistinctlyKeeps(s[..|s| - 1]);
    }
  }

  /** Somewhere in the sequence `x` stands, and `y` does not stand up to there. */
  ghost predicate MentionedFirst<T(!new)>(s: seq<T>, x: T, y: T) {
    exists p :: 0 <= p < |s| && s[p] == x && y !in s[..p + 1]
  }

  /** They come in the order in which they are first mentioned. */
  lemma {:induction false} DistinctlyInOrder<T(!new)>(s: seq<T>, i: nat, k: nat)
    requires i < k < |Distinctly(s)|
    ensures MentionedFirst(s, Distinctly(s)[i], Distinctly(s)[k])
    decreases |s|
  {
    var n, front := |s| - 1, s[..|s| - 1];
    var x, y := Distinctly(s)[i], Distinctly(s)[k];
    if k < |Distinctly(front)| {
      DistinctlyInOrder(front, i, k);
      var p :| 0 <= p < |front| && front[p] == x && y !in front[..p + 1];
      assert s[p] == x && s[..p + 1] == front[..p + 1];
    } else {
      DistinctlyKeeps(front);
      assert x in front && y == s[n] && y !in front;
      var p :| 0 <= p < n && front[p] == x;
      assert s[p] == x && forall z :: z in s[..p + 1] ==> z in front;
    }
  }
}
