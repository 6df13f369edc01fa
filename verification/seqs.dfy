/** Sequence utilities shared by the aggregations: sums, concatenation of
    batches, a stable descending insertion sort, and the permutation lemmas
    that let results be stated independently of task completion order. */
module Seqs {

  /** Sum of `f` over the elements of `xs`. */
  function SumBy<T>(xs: seq<T>, f: T -> int): int {
    if |xs| == 0 then 0 else f(xs[0]) + SumBy(xs[1..], f)
  }

  lemma {:induction false} SumByAppend<T>(a: seq<T>, b: seq<T>, f: T -> int)
    ensures SumBy(a + b, f) == SumBy(a, f) + SumBy(b, f)
    decreases |a|
  {
    if |a| == 0 {
      assert a + b == b;
    } else {
      assert (a + b)[1..] == a[1..] + b;
      SumByAppend(a[1..], b, f);
    }
  }

  /** Two sequences whose elements contribute the same values pairwise have the same sum. */
  lemma {:induction false} SumByPointwise<T, U>(xs: seq<T>, f: T -> int, ys: seq<U>, g: U -> int)
    requires |xs| == |ys|
    requires forall i :: 0 <= i < |xs| ==> f(xs[i]) == g(ys[i])
    ensures SumBy(xs, f) == SumBy(ys, g)
    decreases |xs|
  {
    if |xs| > 0 {
      SumByPointwise(xs[1..], f, ys[1..], g);
    }
  }

  /** Replacing one element changes the sum by the difference of the two values. */
  lemma SumByUpdate<T>(xs: seq<T>, i: nat, x: T, f: T -> int)
    requires i < |xs|
    ensures SumBy(xs[i := x], f) == SumBy(xs, f) - f(xs[i]) + f(x)
  {
    assert xs == xs[..i] + [xs[i]] + xs[i+1..];
    assert xs[i := x] == xs[..i] + [x] + xs[i+1..];
    SumByAppend(xs[..i] + [xs[i]], xs[i+1..], f);
    SumByAppend(xs[..i], [xs[i]], f);
    SumByAppend(xs[..i] + [x], xs[i+1..], f);
    SumByAppend(xs[..i], [x], f);
  }

  /** Locates the head of `xs` inside a permutation `ys` of it. */
  lemma PermHead<T>(xs: seq<T>, ys: seq<T>) returns (j: nat)
    requires |xs| > 0 && multiset(xs) == multiset(ys)
    ensures j < |ys| && ys[j] == xs[0]
    ensures multiset(xs[1..]) == multiset(ys[..j] + ys[j+1..])
  {
    assert xs == [xs[0]] + xs[1..];
    assert xs[0] in multiset(ys);
    j :| 0 <= j < |ys| && ys[j] == xs[0];
    assert ys == ys[..j] + [ys[j]] + ys[j+1..];
    calc {
      multiset(xs[1..]);
      multiset(xs) - multiset{xs[0]};
      multiset(ys) - multiset{ys[j]};
      multiset(ys[..j]) + multiset(ys[j+1..]);
      multiset(ys[..j] + ys[j+1..]);
    }
  }

  /** A sum does not depend on the order of the summands. */
  lemma {:induction false} SumByPerm<T>(xs: seq<T>, ys: seq<T>, f: T -> int)
    requires multiset(xs) == multiset(ys)
    ensures SumBy(xs, f) == SumBy(ys, f)
    decreases |xs|
  {
    if |xs| == 0 {
      assert |ys| == |multiset(ys)| == 0;
    } else {
      var j := PermHead(xs, ys);
      SumByPerm(xs[1..], ys[..j] + ys[j+1..], f);
      SumByAppend(ys[..j], ys[j+1..], f);
      assert ys == ys[..j] + ([ys[j]] + ys[j+1..]);
      SumByAppend(ys[..j], [ys[j]] + ys[j+1..], f);
      assert ([ys[j]] + ys[j+1..])[1..] == ys[j+1..];
    }
  }

  lemma ConcatAssoc<T>(x: seq<T>, y: seq<T>, z: seq<T>)
    ensures x + (y + z) == (x + y) + z
  {
  }

  /** Concatenation of a sequence of batches, in order. */
  function Flatten<T>(xss: seq<seq<T>>): seq<T> {
    if |xss| == 0 then [] else xss[0] + Flatten(xss[1..])
  }

  lemma {:induction false} FlattenAppend<T>(a: seq<seq<T>>, b: seq<seq<T>>)
    ensures Flatten(a + b) == Flatten(a) + Flatten(b)
    decreases |a|
  {
    if |a| == 0 {
      assert a + b == b;
    } else {
      assert (a + b)[1..] == a[1..] + b;
      FlattenAppend(a[1..], b);
    }
  }

  /** Concatenating the batches in another order yields the same multiset of elements. */
  lemma {:induction false} FlattenPerm<T>(xss: seq<seq<T>>, yss: seq<seq<T>>)
    requires multiset(xss) == multiset(yss)
    ensures multiset(Flatten(xss)) == multiset(Flatten(yss))
    decreases |xss|
  {
    if |xss| == 0 {
      assert |yss| == |multiset(yss)| == 0;
    } else {
      var j := PermHead(xss, yss);
      FlattenPerm(xss[1..], yss[..j] + yss[j+1..]);
      FlattenRemove(yss, j);
      assert Flatten(xss) == xss[0] + Flatten(xss[1..]);
    }
  }

  /** Taking one batch out of the concatenation removes exactly its elements. */
  lemma FlattenRemove<T>(yss: seq<seq<T>>, j: nat)
    requires j < |yss|
    ensures multiset(Flatten(yss)) == multiset(yss[j]) + multiset(Flatten(yss[..j] + yss[j+1..]))
  {
    var front, back := yss[..j], yss[j+1..];
    var tail := [yss[j]] + back;
    assert yss == front + tail;
    FlattenAppend(front, tail);
    assert tail[0] == yss[j] && tail[1..] == back;
    var a, b, c := Flatten(front), yss[j], Flatten(back);
    assert Flatten(tail) == b + c;
    assert Flatten(yss) == a + (b + c);
    FlattenAppend(front, back);
    assert Flatten(front + back) == a + c;
    assert multiset(a + (b + c)) == multiset(a) + multiset(b) + multiset(c);
  }

  /** Keys never increase from left to right. */
  ghost predicate NonIncreasing<T>(xs: seq<T>, key: T -> int) {
    forall i, j :: 0 <= i < j < |xs| ==> key(xs[i]) >= key(xs[j])
  }

  /** No two elements carry the same tag. */
  ghost predicate DistinctBy<T, K>(xs: seq<T>, tag: T -> K) {
    forall i, j :: 0 <= i < j < |xs| ==> tag(xs[i]) != tag(xs[j])
  }

  /** Inserts `x` after every element whose key is at least `x`'s, so equal
      keys keep their arrival order. */
  function InsertDesc<T>(x: T, s: seq<T>, key: T -> int): (r: seq<T>)
    ensures multiset(r) == multiset(s) + multiset{x}
  {
    if |s| == 0 then [x]
    else if key(s[0]) >= key(x) then
      assert s == [s[0]] + s[1..];
      [s[0]] + InsertDesc(x, s[1..], key)
    else
      [x] + s
  }

  /** Every key in `xs` is at most `b`. */
  ghost predicate AllAtMost<T>(xs: seq<T>, key: T -> int, b: int) {
    forall i :: 0 <= i < |xs| ==> key(xs[i]) <= b
  }

  lemma {:induction false} InsertKeepsBound<T>(x: T, s: seq<T>, key: T -> int, b: int)
    requires AllAtMost(s, key, b) && key(x) <= b
    ensures AllAtMost(InsertDesc(x, s, key), key, b)
    decreases |s|
  {
    if |s| > 0 && key(s[0]) >= key(x) {
      InsertKeepsBound(x, s[1..], key, b);
    }
  }

  lemma {:induction false} InsertKeepsOrder<T>(x: T, s: seq<T>, key: T -> int)
    requires NonIncreasing(s, key)
    ensures NonIncreasing(InsertDesc(x, s, key), key)
    decreases |s|
  {
    if |s| > 0 && key(s[0]) >= key(x) {
      InsertKeepsOrder(x, s[1..], key);
      InsertKeepsBound(x, s[1..], key, key(s[0]));
      var rest := InsertDesc(x, s[1..], key);
      var r := [s[0]] + rest;
      forall i, j | 0 <= i < j < |r| ensures key(r[i]) >= key(r[j]) {
        assert r[j] == rest[j-1];
        if i > 0 {
          assert r[i] == rest[i-1];
        }
      }
    }
  }

  /** Python's `sorted(..., key=key, reverse=True)`: a stable sort into
      non-increasing key order. */
  function SortDesc<T>(xs: seq<T>, key: T -> int): (r: seq<T>)
    ensures multiset(r) == multiset(xs)
    ensures NonIncreasing(r, key)
  {
    if |xs| == 0 then []
    else
      assert xs == xs[..|xs|-1] + [xs[|xs|-1]];
      var sorted := SortDesc(xs[..|xs|-1], key);
      InsertKeepsOrder(xs[|xs|-1], sorted, key);
      InsertDesc(xs[|xs|-1], sorted, key)
  }

  lemma {:induction false} InsertKeepsDistinct<T, K>(x: T, s: seq<T>, key: T -> int, tag: T -> K)
    requires DistinctBy(s, tag)
    requires forall e :: e in s ==> tag(e) != tag(x)
    ensures DistinctBy(InsertDesc(x, s, key), tag)
    decreases |s|
  {
    if |s| > 0 && key(s[0]) >= key(x) {
      InsertKeepsDistinct(x, s[1..], key, tag);
      var rest := InsertDesc(x, s[1..], key);
      assert s == [s[0]] + s[1..];
      forall e | e in rest ensures tag(e) != tag(s[0]) {
        assert e in multiset(s[1..]) + multiset{x};
      }
    }
  }

  /** Sorting keeps tags distinct. */
  lemma {:induction false} SortKeepsDistinct<T, K>(xs: seq<T>, key: T -> int, tag: T -> K)
    requires DistinctBy(xs, tag)
    ensures DistinctBy(SortDesc(xs, key), tag)
    decreases |xs|
  {
    if |xs| > 0 {
      var init := xs[..|xs|-1];
      SortKeepsDistinct(init, key, tag);
      var sorted := SortDesc(init, key);
      forall e | e in sorted ensures tag(e) != tag(xs[|xs|-1]) {
        assert e in multiset(init);
      }
      InsertKeepsDistinct(xs[|xs|-1], sorted, key, tag);
    }
  }
}
