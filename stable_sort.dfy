/**
  `Array.prototype.sort` with a comparator `(a, b) => w(b) - w(a)`: a stable
  sort (required of `sort` since ECMAScript 2019) into descending weight,
  elements of equal weight keeping their original order. Written as an
  insertion sort; the lemmas show that its result is the only arrangement with
  those properties, so it is the result of any stable sort by that comparator.
 */
module StableSort {
  import opened Filtering
  import opened Sequences

  /** Weights never increase from left to right. */
  predicate NonIncreasing<T>(s: seq<T>, w: T -> int) {
    forall i, j :: 0 <= i < j < |s| ==> w(s[i]) >= w(s[j])
  }

  /** The test "has weight `v`". */
  function HasWeight<T>(w: T -> int, v: int): T -> bool {
    x => w(x) == v
  }

  /** The elements of weight `v`, in the order in which they occur in `s`. */
  function OfWeight<T>(w: T -> int, v: int, s: seq<T>): seq<T> {
    Filter(HasWeight(w, v), s)
  }

  /** For every weight, the elements of that weight occur in the same order in `a` and `b`. */
  ghost predicate SameTies<T>(w: T -> int, a: seq<T>, b: seq<T>) {
    forall v :: OfWeight(w, v, a) == OfWeight(w, v, b)
  }

  /**
    Insert `x` into a list sorted by descending weight, after every element
    whose weight is at least that of `x`.
   */
  function Insert<T>(t: seq<T>, x: T, w: T -> int): (r: seq<T>)
    ensures |r| == |t| + 1
  {
    if t == [] then [x]
    else if w(t[0]) >= w(x) then [t[0]] + Insert(t[1..], x, w)
    else [x] + t
  }

  /** Sort `s` by descending weight, inserting its elements one at a time. */
  function SortByWeight<T>(s: seq<T>, w: T -> int): (r: seq<T>)
    ensures |r| == |s|
  {
    if s == [] then [] else Insert(SortByWeight(s[..|s| - 1], w), s[|s| - 1], w)
  }

  lemma {:induction false} InsertSorted<T>(t: seq<T>, x: T, w: T -> int)
    requires NonIncreasing(t, w)
    ensures NonIncreasing(Insert(t, x, w), w)
    ensures Insert(t, x, w) != [] && (t != [] ==> Insert(t, x, w)[0] == t[0] || Insert(t, x, w)[0] == x)
  {
    if t != [] && w(t[0]) >= w(x) {
      var rest := Insert(t[1..], x, w);
      InsertSorted(t[1..], x, w);
      var r := [t[0]] + rest;
      forall i, j | 0 <= i < j < |r|
        ensures w(r[i]) >= w(r[j])
      {
        if i == 0 {
          assert r[j] == rest[j - 1];
          WeightAtMost(t, x, w, j - 1);
        } else {
          assert r[i] == rest[i - 1] && r[j] == rest[j - 1];
        }
      }
    } else if t != [] {
      var r := [x] + t;
      forall i, j | 0 <= i < j < |r|
        ensures w(r[i]) >= w(r[j])
      {
        if i == 0 {
          assert r[j] == t[j - 1];
        } else {
          assert r[i] == t[i - 1] && r[j] == t[j - 1];
        }
      }
    }
  }

  /** Everything in `Insert(t[1..], x)` weighs no more than `t[0]`, given `w(t[0]) >= w(x)`. */
  lemma WeightAtMost<T>(t: seq<T>, x: T, w: T -> int, k: int)
    requires t != [] && NonIncreasing(t, w) && w(t[0]) >= w(x)
    requires 0 <= k < |t|
    ensures w(Insert(t[1..], x, w)[k]) <= w(t[0])
  {
    InsertCount(t[1..], x, w);
    var y := Insert(t[1..], x, w)[k];
    assert y in multiset(Insert(t[1..], x, w));
    assert y in multiset(t[1..]) + multiset{x};
    if y != x {
      assert y in t[1..];
    }
  }

  lemma {:induction false} InsertCount<T>(t: seq<T>, x: T, w: T -> int)
    ensures multiset(Insert(t, x, w)) == multiset(t) + multiset{x}
  {
    if t != [] && w(t[0]) >= w(x) {
      InsertCount(t[1..], x, w);
      assert t == [t[0]] + t[1..];
    }
  }

  /** Inserting `x` appends it to the elements of its weight and leaves the others alone. */
  lemma {:induction false} InsertTies<T>(t: seq<T>, x: T, w: T -> int, v: int)
    requires NonIncreasing(t, w)
    ensures OfWeight(w, v, Insert(t, x, w)) == OfWeight(w, v, t) + if w(x) == v then [x] else []
  {
    if t == [] {
      assert Insert(t, x, w) == [x];
      OfWeightHead(w, v, [x]);
    } else if w(t[0]) >= w(x) {
      InsertTies(t[1..], x, w, v);
      InsertBehind(t, x, w, v);
    } else {
      InsertInFront(t, x, w, v);
    }
  }

  /** The step of InsertTies where `x` goes behind `t[0]`. */
  lemma InsertBehind<T>(t: seq<T>, x: T, w: T -> int, v: int)
    requires t != [] && w(t[0]) >= w(x)
    requires OfWeight(w, v, Insert(t[1..], x, w)) == OfWeight(w, v, t[1..]) + if w(x) == v then [x] else []
    ensures OfWeight(w, v, Insert(t, x, w)) == OfWeight(w, v, t) + if w(x) == v then [x] else []
  {
    var r := Insert(t, x, w);
    assert r[0] == t[0] && r[1..] == Insert(t[1..], x, w);
    OfWeightHead(w, v, r);
    OfWeightHead(w, v, t);
    var head := if w(t[0]) == v then [t[0]] else [];
    var tail := if w(x) == v then [x] else [];
    Associative(head, OfWeight(w, v, t[1..]), tail);
  }

  /** The step of InsertTies where `x` outweighs `t[0]` and so everything in `t`. */
  lemma InsertInFront<T>(t: seq<T>, x: T, w: T -> int, v: int)
    requires NonIncreasing(t, w)
    requires t != [] && w(t[0]) < w(x)
    ensures OfWeight(w, v, Insert(t, x, w)) == OfWeight(w, v, t) + if w(x) == v then [x] else []
  {
    var r := Insert(t, x, w);
    assert r == [x] + t;
    assert r[0] == x && r[1..] == t;
    OfWeightHead(w, v, r);
    if w(x) == v {
      FilterKeepsNone(HasWeight(w, v), t);
      assert OfWeight(w, v, t) == [];
    }
  }

  /** The sort orders by descending weight. */
  lemma {:induction false} SortIsSorted<T>(s: seq<T>, w: T -> int)
    ensures NonIncreasing(SortByWeight(s, w), w)
  {
    if s != [] {
      SortIsSorted(s[..|s| - 1], w);
      InsertSorted(SortByWeight(s[..|s| - 1], w), s[|s| - 1], w);
    }
  }

  /** The sort rearranges its input: every element occurs as often as before. */
  lemma {:induction false} SortIsPermutation<T>(s: seq<T>, w: T -> int)
    ensures multiset(SortByWeight(s, w)) == multiset(s)
  {
    if s != [] {
      SortIsPermutation(s[..|s| - 1], w);
      InsertCount(SortByWeight(s[..|s| - 1], w), s[|s| - 1], w);
      assert s == s[..|s| - 1] + [s[|s| - 1]];
    }
  }

  /** The sort is stable: elements of equal weight keep their order. */
  lemma {:induction false} SortIsStable<T>(s: seq<T>, w: T -> int)
    ensures SameTies(w, SortByWeight(s, w), s)
  {
    if s != [] {
      var init := s[..|s| - 1];
      var x := s[|s| - 1];
      SortIsStable(init, w);
      SortIsSorted(init, w);
      forall v
        ensures OfWeight(w, v, SortByWeight(s, w)) == OfWeight(w, v, s)
      {
        InsertTies(SortByWeight(init, w), x, w, v);
        FilterConcat(HasWeight(w, v), init, [x]);
        assert init + [x] == s;
        assert Filter(HasWeight(w, v), [x]) == (if w(x) == v then [x] else []) + [];
      }
    }
  }

  /** In a list sorted by descending weight, the first element weighs the most. */
  lemma FirstIsHeaviest<T>(s: seq<T>, w: T -> int, y: T)
    requires NonIncreasing(s, w) && y in s
    ensures w(y) <= w(s[0])
  {
    var k :| 0 <= k < |s| && s[k] == y;
    if k > 0 {
      assert w(s[0]) >= w(s[k]);
    }
  }

  /** The first element of `s` has weight `v` exactly when the elements of weight `v` start with it. */
  lemma OfWeightHead<T>(w: T -> int, v: int, s: seq<T>)
    requires s != []
    ensures OfWeight(w, v, s) == (if w(s[0]) == v then [s[0]] else []) + OfWeight(w, v, s[1..])
  {
  }

  /** Two sorted lists with the same ties start with the same element. */
  lemma HeadsAgree<T>(a: seq<T>, b: seq<T>, w: T -> int)
    requires a != [] && b != []
    requires NonIncreasing(a, w) && NonIncreasing(b, w)
    requires SameTies(w, a, b)
    ensures a[0] == b[0]
  {
    var va, vb := w(a[0]), w(b[0]);
    OfWeightHead(w, va, a);
    OfWeightHead(w, vb, b);
    assert OfWeight(w, va, a) == OfWeight(w, va, b);
    assert OfWeight(w, vb, a) == OfWeight(w, vb, b);
    FilterMembership(HasWeight(w, va), b, a[0]);
    FilterMembership(HasWeight(w, vb), a, b[0]);
    FirstIsHeaviest(b, w, a[0]);
    FirstIsHeaviest(a, w, b[0]);
    assert va == vb;
    OfWeightHead(w, va, b);
    assert OfWeight(w, va, a)[0] == a[0];
    assert OfWeight(w, va, b)[0] == b[0];
  }

  /** Removing a common first element keeps the ties equal. */
  lemma TailsAgree<T>(a: seq<T>, b: seq<T>, w: T -> int)
    requires a != [] && b != [] && a[0] == b[0]
    requires SameTies(w, a, b)
    ensures SameTies(w, a[1..], b[1..])
  {
    forall u
      ensures OfWeight(w, u, a[1..]) == OfWeight(w, u, b[1..])
    {
      var h := if w(a[0]) == u then [a[0]] else [];
      OfWeightHead(w, u, a);
      OfWeightHead(w, u, b);
      assert OfWeight(w, u, a) == OfWeight(w, u, b);
      assert OfWeight(w, u, a[1..]) == OfWeight(w, u, a)[|h|..];
      assert OfWeight(w, u, b[1..]) == OfWeight(w, u, b)[|h|..];
    }
  }

  /** Every element of a non-empty list heads the elements of its own weight. */
  lemma NonEmptyTies<T>(a: seq<T>, b: seq<T>, w: T -> int)
    requires a != [] && SameTies(w, a, b)
    ensures b != []
  {
    OfWeightHead(w, w(a[0]), a);
    assert OfWeight(w, w(a[0]), a) == OfWeight(w, w(a[0]), b);
  }

  /**
    Two lists sorted by descending weight that agree on the order of the
    elements of each weight are equal: a stable sort has only one result.
   */
  lemma {:induction false} SortedTiesUnique<T>(a: seq<T>, b: seq<T>, w: T -> int)
    requires NonIncreasing(a, w) && NonIncreasing(b, w)
    requires SameTies(w, a, b)
    ensures a == b
    decreases |a|
  {
    if a != [] {
      NonEmptyTies(a, b, w);
      HeadsAgree(a, b, w);
      TailsAgree(a, b, w);
      SortedTiesUnique(a[1..], b[1..], w);
      assert a == [a[0]] + a[1..] && b == [b[0]] + b[1..];
    } else if b != [] {
      forall v
        ensures OfWeight(w, v, b) == OfWeight(w, v, a)
      {
      }
      NonEmptyTies(b, a, w);
    }
  }

  /**
    Any arrangement of `s` sorted by descending weight with the ties in their
    original order is the one SortByWeight computes.
   */
  lemma StableSortIsUnique<T>(s: seq<T>, r: seq<T>, w: T -> int)
    requires NonIncreasing(r, w) && SameTies(w, r, s)
    ensures r == SortByWeight(s, w)
  {
    SortIsSorted(s, w);
    SortIsStable(s, w);
    forall v
      ensures OfWeight(w, v, r) == OfWeight(w, v, SortByWeight(s, w))
    {
      assert OfWeight(w, v, r) == OfWeight(w, v, s);
      assert OfWeight(w, v, SortByWeight(s, w)) == OfWeight(w, v, s);
    }
    SortedTiesUnique(r, SortByWeight(s, w), w);
  }
}
