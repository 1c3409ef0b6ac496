/**
 * The ranking steps of the report: `Array.prototype.sort` with a
 * descending comparator (stable, as ECMAScript 2019 requires), `slice(0, k)`,
 * and the strict `>` scans that keep the first maximum.
 */
module Ranking {
  import opened Tallies

  // ---- Stable descending sort -------------------------------------------

  predicate SortedDesc<T>(xs: seq<T>, w: T -> int) {
    forall i, j :: 0 <= i < j < |xs| ==> w(xs[i]) >= w(xs[j])
  }

  /** Places `x` behind every element at least as heavy. */
  function Insert<T>(s: seq<T>, x: T, w: T -> int): seq<T>
    decreases |s|
  {
    if s == [] then [x]
    else if w(s[0]) >= w(x) then [s[0]] + Insert(s[1..], x, w)
    else [x] + s
  }

  /** `xs.sort((a, b) => w(b) - w(a))`. */
  function SortDesc<T>(xs: seq<T>, w: T -> int): seq<T>
    decreases |xs|
  {
    if xs == [] then [] else Insert(SortDesc(Init(xs), w), Last(xs), w)
  }

  /** The elements of weight `v`, in order. */
  function OfWeight<T>(xs: seq<T>, w: T -> int, v: int): seq<T>
    decreases |xs|
  {
    if xs == [] then []
    else (if w(xs[0]) == v then [xs[0]] else []) + OfWeight(xs[1..], w, v)
  }

  lemma {:induction false} InsertPerm<T>(s: seq<T>, x: T, w: T -> int)
    ensures multiset(Insert(s, x, w)) == multiset(s) + multiset{x}
    ensures |Insert(s, x, w)| == |s| + 1
    decreases |s|
  {
    if s != [] && w(s[0]) >= w(x) {
      InsertPerm(s[1..], x, w);
      assert s == [s[0]] + s[1..];
      assert Insert(s, x, w) == [s[0]] + Insert(s[1..], x, w);
    }
  }

  /** Prepending an element at least as heavy as all others keeps a
      sequence sorted. */
  lemma ConsSorted<T>(y: T, t: seq<T>, w: T -> int)
    requires SortedDesc(t, w)
    requires forall j :: 0 <= j < |t| ==> w(y) >= w(t[j])
    ensures SortedDesc([y] + t, w)
  {
    var r := [y] + t;
    forall i, j | 0 <= i < j < |r|
      ensures w(r[i]) >= w(r[j])
    {
      assert r[j] == t[j - 1];
      if i > 0 {
        assert r[i] == t[i - 1];
      }
    }
  }

  lemma {:induction false} InsertSorted<T>(s: seq<T>, x: T, w: T -> int)
    requires SortedDesc(s, w)
    ensures SortedDesc(Insert(s, x, w), w)
    decreases |s|
  {
    if s == [] {
    } else if w(s[0]) >= w(x) {
      var tail := s[1..];
      assert SortedDesc(tail, w) by {
        forall i, j | 0 <= i < j < |tail|
          ensures w(tail[i]) >= w(tail[j])
        {
          assert tail[i] == s[i + 1] && tail[j] == s[j + 1];
        }
      }
      InsertSorted(tail, x, w);
      InsertPerm(tail, x, w);
      var t := Insert(tail, x, w);
      forall j | 0 <= j < |t|
        ensures w(s[0]) >= w(t[j])
      {
        assert t[j] in multiset(tail) + multiset{x};
        if t[j] != x {
          assert t[j] in tail;
          var k :| 0 <= k < |tail| && tail[k] == t[j];
          assert s[k + 1] == t[j];
        }
      }
      ConsSorted(s[0], t, w);
      assert Insert(s, x, w) == [s[0]] + t;
    } else {
      ConsSorted(x, s, w);
    }
  }

  lemma Assoc<T>(a: seq<T>, b: seq<T>, c: seq<T>)
    ensures a + (b + c) == (a + b) + c
  {
  }

  lemma {:induction false} OfWeightAppend<T>(a: seq<T>, b: seq<T>, w: T -> int, v: int)
    ensures OfWeight(a + b, w, v) == OfWeight(a, w, v) + OfWeight(b, w, v)
    decreases |a|
  {
    if a == [] {
      assert a + b == b;
    } else {
      var head := if w(a[0]) == v then [a[0]] else [];
      assert a + b != [] && (a + b)[0] == a[0];
      assert (a + b)[1..] == a[1..] + b;
      OfWeightAppend(a[1..], b, w, v);
      calc {
        OfWeight(a + b, w, v);
        head + OfWeight(a[1..] + b, w, v);
        head + (OfWeight(a[1..], w, v) + OfWeight(b, w, v));
        { Assoc(head, OfWeight(a[1..], w, v), OfWeight(b, w, v)); }
        (head + OfWeight(a[1..], w, v)) + OfWeight(b, w, v);
        OfWeight(a, w, v) + OfWeight(b, w, v);
      }
    }
  }

  lemma {:induction false} OfWeightNone<T>(s: seq<T>, w: T -> int, v: int)
    requires forall i :: 0 <= i < |s| ==> w(s[i]) < v
    ensures OfWeight(s, w, v) == []
    decreases |s|
  {
    if s != [] {
      OfWeightNone(s[1..], w, v);
    }
  }

  /** Inserting keeps the relative order of equal weights: `x` comes after
      every element of its weight. */
  lemma {:induction false} InsertStable<T>(s: seq<T>, x: T, w: T -> int, v: int)
    requires SortedDesc(s, w)
    ensures OfWeight(Insert(s, x, w), w, v) == OfWeight(s, w, v) + (if w(x) == v then [x] else [])
    decreases |s|
  {
    if s == [] {
      assert OfWeight([x], w, v) == (if w(x) == v then [x] else []) + OfWeight([], w, v);
    } else if w(s[0]) >= w(x) {
      var tail := s[1..];
      assert SortedDesc(tail, w) by {
        forall i, j | 0 <= i < j < |tail|
          ensures w(tail[i]) >= w(tail[j])
        {
          assert tail[i] == s[i + 1] && tail[j] == s[j + 1];
        }
      }
      InsertStable(tail, x, w, v);
      InsertStableBehind(s, x, w, v);
    } else {
      InsertStableFront(s, x, w, v);
    }
  }

  /** The step of `InsertStable` where `x` goes behind the head. */
  lemma InsertStableBehind<T>(s: seq<T>, x: T, w: T -> int, v: int)
    requires s != [] && w(s[0]) >= w(x)
    requires OfWeight(Insert(s[1..], x, w), w, v) == OfWeight(s[1..], w, v) + (if w(x) == v then [x] else [])
    ensures OfWeight(Insert(s, x, w), w, v) == OfWeight(s, w, v) + (if w(x) == v then [x] else [])
  {
    var tail := s[1..];
    var head := if w(s[0]) == v then [s[0]] else [];
    var last := if w(x) == v then [x] else [];
    assert Insert(s, x, w) == [s[0]] + Insert(tail, x, w);
    OfWeightAppend([s[0]], Insert(tail, x, w), w, v);
    assert OfWeight([s[0]], w, v) == head + OfWeight([s[0]][1..], w, v);
    assert [s[0]][1..] == [];
    assert OfWeight(s, w, v) == head + OfWeight(tail, w, v);
    Assoc(head, OfWeight(tail, w, v), last);
  }

  /** The step of `InsertStable` where `x` goes in front: nothing in `s`
      shares its weight. */
  lemma InsertStableFront<T>(s: seq<T>, x: T, w: T -> int, v: int)
    requires SortedDesc(s, w)
    requires s != [] && w(s[0]) < w(x)
    ensures OfWeight(Insert(s, x, w), w, v) == OfWeight(s, w, v) + (if w(x) == v then [x] else [])
  {
    assert Insert(s, x, w) == [x] + s;
    OfWeightAppend([x], s, w, v);
    OfWeightSingle(x, w, v);
    if w(x) == v {
      assert forall i :: 0 <= i < |s| ==> w(s[i]) < v by {
        forall i | 0 <= i < |s|
          ensures w(s[i]) < v
        {
          assert i == 0 || w(s[0]) >= w(s[i]);
        }
      }
      OfWeightNone(s, w, v);
    } else {
      assert [] + OfWeight(s, w, v) == OfWeight(s, w, v) + [];
    }
  }

  lemma OfWeightSingle<T>(x: T, w: T -> int, v: int)
    ensures OfWeight([x], w, v) == if w(x) == v then [x] else []
  {
    assert [x][1..] == [];
  }

  /** The sort orders by weight and keeps every element. */
  lemma {:induction false} SortDescOrder<T>(xs: seq<T>, w: T -> int)
    ensures SortedDesc(SortDesc(xs, w), w)
    ensures multiset(SortDesc(xs, w)) == multiset(xs)
    ensures |SortDesc(xs, w)| == |xs|
    decreases |xs|
  {
    if xs != [] {
      var p, x := Init(xs), Last(xs);
      SortDescOrder(p, w);
      assert SortDesc(xs, w) == Insert(SortDesc(p, w), x, w);
      InsertSorted(SortDesc(p, w), x, w);
      InsertPerm(SortDesc(p, w), x, w);
      assert xs == p + [x];
    }
  }

  /** The sort is stable: the elements of each weight keep their order. */
  lemma {:induction false} SortDescStable<T>(xs: seq<T>, w: T -> int, v: int)
    ensures OfWeight(SortDesc(xs, w), w, v) == OfWeight(xs, w, v)
    decreases |xs|
  {
    if xs != [] {
      var p, x := Init(xs), Last(xs);
      SortDescOrder(p, w);
      SortDescStable(p, w, v);
      assert xs == p + [x];
      StableStep(SortDesc(p, w), p, x, w, v);
    }
  }

  /** Inserting the next element keeps the sorted prefix stable. */
  lemma StableStep<T>(sorted: seq<T>, p: seq<T>, x: T, w: T -> int, v: int)
    requires SortedDesc(sorted, w)
    requires OfWeight(sorted, w, v) == OfWeight(p, w, v)
    ensures OfWeight(Insert(sorted, x, w), w, v) == OfWeight(p + [x], w, v)
  {
    InsertStable(sorted, x, w, v);
    OfWeightAppend(p, [x], w, v);
    OfWeightSingle(x, w, v);
  }

  /** The sort orders by weight, keeps every element, and is stable. */
  lemma SortDescSpec<T>(xs: seq<T>, w: T -> int)
    ensures SortedDesc(SortDesc(xs, w), w)
    ensures multiset(SortDesc(xs, w)) == multiset(xs)
    ensures |SortDesc(xs, w)| == |xs|
    ensures forall v :: OfWeight(SortDesc(xs, w), w, v) == OfWeight(xs, w, v)
  {
    SortDescOrder(xs, w);
    forall v
      ensures OfWeight(SortDesc(xs, w), w, v) == OfWeight(xs, w, v)
    {
      SortDescStable(xs, w, v);
    }
  }

  /** `slice(0, k)`. */
  function Take<T>(xs: seq<T>, k: nat): (r: seq<T>)
    ensures |r| == if |xs| < k then |xs| else k
  {
    if |xs| < k then xs else xs[..k]
  }

  /** The first `k` after sorting: at most `k`, sorted, and drawn from `xs`. */
  lemma TopSpec<T>(xs: seq<T>, w: T -> int, k: nat)
    ensures var top := Take(SortDesc(xs, w), k);
            && |top| == (if |xs| < k then |xs| else k)
            && SortedDesc(top, w)
            && forall t :: t in top ==> t in xs
  {
    SortDescSpec(xs, w);
    var s := SortDesc(xs, w);
    var top := Take(s, k);
    forall t | t in top
      ensures t in xs
    {
      assert t in s;
      assert t in multiset(s);
    }
  }

  /** An element the first `k` leave out: it exists only when there are more
      than `k`, and it is no heavier than any element kept. */
  lemma TopLeftOut<T>(xs: seq<T>, w: T -> int, k: nat, y: T)
    requires y in xs && y !in Take(SortDesc(xs, w), k)
    ensures k < |xs| && |Take(SortDesc(xs, w), k)| == k
    ensures forall t :: t in Take(SortDesc(xs, w), k) ==> w(t) >= w(y)
  {
    SortDescSpec(xs, w);
    var s := SortDesc(xs, w);
    assert y in multiset(s);
    var j :| 0 <= j < |s| && s[j] == y;
    assert s[..|s|] == s;
    assert k < |s|;
    var top := s[..k];
    assert j >= k;
    forall t | t in top
      ensures w(t) >= w(y)
    {
      var i :| 0 <= i < k && top[i] == t;
      assert s[i] == t;
    }
  }

  // ---- The first maximum of a scan ---------------------------------------

  /** What the scan `if (count > max) { max = count; best = key }` over `ks`,
      started from `max = 0` and `best = none`, leaves behind: `max` is the
      largest weight, and `best` is the first key that has it, or `none`
      when every weight is zero. */
  predicate FirstMaxOf<K(==)>(ks: seq<K>, w: K -> nat, none: K, best: K, max: nat) {
    && (forall j :: 0 <= j < |ks| ==> w(ks[j]) <= max)
    && (max == 0 ==> best == none)
    && (max > 0 ==> exists i :: 0 <= i < |ks| && ks[i] == best && w(ks[i]) == max &&
                                forall j :: 0 <= j < i ==> w(ks[j]) < max)
  }

  /** The scan's outcome is determined by the keys and weights. */
  lemma FirstMaxUnique<K>(ks: seq<K>, w: K -> nat, none: K, b1: K, m1: nat, b2: K, m2: nat)
    requires FirstMaxOf(ks, w, none, b1, m1) && FirstMaxOf(ks, w, none, b2, m2)
    ensures b1 == b2 && m1 == m2
  {
    if m1 > 0 {
      var i1 :| 0 <= i1 < |ks| && ks[i1] == b1 && w(ks[i1]) == m1 && forall j :: 0 <= j < i1 ==> w(ks[j]) < m1;
      assert m1 <= m2;
    }
    if m2 > 0 {
      var i2 :| 0 <= i2 < |ks| && ks[i2] == b2 && w(ks[i2]) == m2 && forall j :: 0 <= j < i2 ==> w(ks[j]) < m2;
      assert m2 <= m1;
    }
    if m1 > 0 {
      var i1 :| 0 <= i1 < |ks| && ks[i1] == b1 && w(ks[i1]) == m1 && forall j :: 0 <= j < i1 ==> w(ks[j]) < m1;
      var i2 :| 0 <= i2 < |ks| && ks[i2] == b2 && w(ks[i2]) == m2 && forall j :: 0 <= j < i2 ==> w(ks[j]) < m2;
      assert !(i1 < i2) && !(i2 < i1);
    }
  }

  /** The scan itself. */
  method FirstMax<K(==)>(ks: seq<K>, w: K -> nat, none: K) returns (best: K, max: nat)
    ensures FirstMaxOf(ks, w, none, best, max)
  {
    best, max := none, 0;
    ghost var at := 0;
    var i := 0;
    while i < |ks|
      invariant 0 <= i <= |ks|
      invariant forall j :: 0 <= j < i ==> w(ks[j]) <= max
      invariant max == 0 ==> best == none
      invariant max > 0 ==> 0 <= at < i && ks[at] == best && w(ks[at]) == max &&
                            forall j :: 0 <= j < at ==> w(ks[j]) < max
    {
      var count := w(ks[i]);
      if count > max {
        max := count;
        best := ks[i];
        at := i;
      }
      i := i + 1;
    }
  }
}
