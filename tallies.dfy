/**
 * Counting by key over a sequence: the reference meaning of every counter
 * map (`Map<K, number>` filled with `set(k, (get(k) || 0) + 1)`) that the
 * report engine keeps, together with the insertion order that JavaScript's
 * `Map` iterates in.
 */
module Tallies {
  import opened Wrappers

  function Init<T>(s: seq<T>): seq<T>
    requires s != []
  {
    s[..|s| - 1]
  }

  function Last<T>(s: seq<T>): T
    requires s != []
  {
    s[|s| - 1]
  }

  lemma InitOfSnoc<T>(s: seq<T>, x: T)
    ensures Init(s + [x]) == s && Last(s + [x]) == x
  {
    assert (s + [x])[..|s|] == s;
  }

  predicate Distinct<K(==)>(ks: seq<K>) {
    forall i, j :: 0 <= i < j < |ks| ==> ks[i] != ks[j]
  }

  /** How many elements of `xs` carry key `k`. */
  function Count<T, K(==)>(xs: seq<T>, key: T -> Option<K>, k: K): nat
    decreases |xs|
  {
    if xs == [] then 0
    else Count(Init(xs), key, k) + (if key(Last(xs)) == Some(k) then 1 else 0)
  }

  /** How many elements of `xs` carry any key at all. */
  function Keyed<T, K(==)>(xs: seq<T>, key: T -> Option<K>): nat
    decreases |xs|
  {
    if xs == [] then 0
    else Keyed(Init(xs), key) + (if key(Last(xs)).Some? then 1 else 0)
  }

  /** The keys of `xs` in order of first occurrence. */
  function Order<T, K(==)>(xs: seq<T>, key: T -> Option<K>): seq<K>
    decreases |xs|
  {
    if xs == [] then []
    else
      var o := Order(Init(xs), key);
      match key(Last(xs))
      case None => o
      case Some(k) => if k in o then o else o + [k]
  }

  /** A JavaScript `Map`: its keys in insertion order and its entries. */
  datatype Dict<K(==), V> = Dict(keys: seq<K>, entries: map<K, V>) {
    /** `m.set(k, v)`: a new key goes to the end of the order, an existing
        one keeps its place. */
    function Put(k: K, v: V): Dict<K, V> {
      Dict(if k in entries then keys else keys + [k], entries[k := v])
    }

    /** `m.get(k) ?? default` */
    function GetOr(k: K, default: V): V {
      if k in entries then entries[k] else default
    }
  }

  type Counter<K(==)> = Dict<K, nat>

  /** `m.set(k, (m.get(k) || 0) + 1)` */
  function Bump<K(==)>(c: Counter<K>, k: K): Counter<K>
  {
    c.Put(k, (if k in c.entries then c.entries[k] else 0) + 1)
  }

  /** The counter that tallying the keys of `xs` in order leaves behind. */
  function CounterOf<T, K(==)>(xs: seq<T>, key: T -> Option<K>): Counter<K>
  {
    Dict(Order(xs, key), map k | k in Order(xs, key) :: Count(xs, key, k))
  }

  /** Tallying one more element is one `Bump`, or nothing for an element
      without a key. */
  lemma CounterOfSnoc<T, K>(xs: seq<T>, x: T, key: T -> Option<K>)
    ensures CounterOf(xs + [x], key) ==
            match key(x)
            case None => CounterOf(xs, key)
            case Some(k) => Bump(CounterOf(xs, key), k)
  {
    match key(x)
    case None => CounterOfSnocNone(xs, x, key);
    case Some(k) => CounterOfSnocSome(xs, x, key, k);
  }

  lemma CounterOfSnocNone<T, K>(xs: seq<T>, x: T, key: T -> Option<K>)
    requires key(x).None?
    ensures CounterOf(xs + [x], key) == CounterOf(xs, key)
  {
    InitOfSnoc(xs, x);
    var ys := xs + [x];
    assert Order(ys, key) == Order(xs, key);
    forall j
      ensures Count(ys, key, j) == Count(xs, key, j)
    {
      CountSnoc(xs, x, key, j);
    }
    var c, d := CounterOf(xs, key), CounterOf(ys, key);
    assert d.entries.Keys == c.entries.Keys;
    assert d.entries == c.entries;
  }

  lemma CounterOfSnocSome<T, K>(xs: seq<T>, x: T, key: T -> Option<K>, k: K)
    requires key(x) == Some(k)
    ensures CounterOf(xs + [x], key) == Bump(CounterOf(xs, key), k)
  {
    OrderSnoc(xs, x, key);
    var ys := xs + [x];
    var c, d := CounterOf(xs, key), CounterOf(ys, key);
    var b := Bump(c, k);
    assert d.keys == b.keys;
    assert d.entries.Keys == b.entries.Keys;
    forall j | j in d.entries
      ensures d.entries[j] == b.entries[j]
    {
      CountSnoc(xs, x, key, j);
      if j != k {
        assert j in c.entries;
      } else if k !in c.entries {
        OrderSpec(xs, key);
      }
    }
    assert d.entries == b.entries;
  }

  /** The order lists each key once, and exactly the keys that occur. */
  lemma {:induction false} OrderSpec<T, K>(xs: seq<T>, key: T -> Option<K>)
    ensures Distinct(Order(xs, key))
    ensures forall k :: k in Order(xs, key) <==> Count(xs, key, k) > 0
    decreases |xs|
  {
    if xs != [] {
      OrderSpec(Init(xs), key);
    }
  }

  function SumOver<K>(ks: seq<K>, f: K -> nat): nat
  {
    if ks == [] then 0 else f(ks[0]) + SumOver(ks[1..], f)
  }

  lemma {:induction false} SumOverSame<K>(ks: seq<K>, f: K -> nat, g: K -> nat)
    requires forall i :: 0 <= i < |ks| ==> f(ks[i]) == g(ks[i])
    ensures SumOver(ks, f) == SumOver(ks, g)
  {
    if ks != [] {
      SumOverSame(ks[1..], f, g);
    }
  }

  /** Raising one listed key by one raises the sum by one. */
  lemma {:induction false} SumOverBump<K>(ks: seq<K>, f: K -> nat, g: K -> nat, k: K)
    requires Distinct(ks) && k in ks
    requires g(k) == f(k) + 1
    requires forall i :: 0 <= i < |ks| && ks[i] != k ==> g(ks[i]) == f(ks[i])
    ensures SumOver(ks, g) == SumOver(ks, f) + 1
  {
    if ks[0] == k {
      assert k !in ks[1..];
      SumOverSame(ks[1..], f, g);
    } else {
      SumOverBump(ks[1..], f, g, k);
    }
  }

  /** Summing the counts over any duplicate-free list that holds every key
      that occurs gives the number of keyed elements. */
  lemma {:induction false} SumOfCounts<T, K>(xs: seq<T>, key: T -> Option<K>, ks: seq<K>)
    requires Distinct(ks)
    requires forall i :: 0 <= i < |xs| && key(xs[i]).Some? ==> key(xs[i]).value in ks
    ensures SumOver(ks, k => Count(xs, key, k)) == Keyed(xs, key)
    decreases |xs|
  {
    var f := k => Count(xs, key, k);
    if xs == [] {
      var z := (k: K) => 0;
      SumOverSame(ks, f, z);
      SumOfZero(ks);
    } else {
      var p := Init(xs);
      var g := k => Count(p, key, k);
      assert forall i :: 0 <= i < |p| ==> p[i] == xs[i];
      SumOfCounts(p, key, ks);
      match key(Last(xs))
      case None =>
        SumOverSame(ks, f, g);
      case Some(k0) =>
        assert key(xs[|xs| - 1]).Some?;
        SumOverBump(ks, g, f, k0);
    }
  }

  lemma {:induction false} SumOfZero<K>(ks: seq<K>)
    ensures SumOver(ks, (k: K) => 0) == 0
  {
    if ks != [] {
      SumOfZero(ks[1..]);
    }
  }

  /** The counts of a counter add up to the number of keyed elements. */
  lemma CounterTotal<T, K>(xs: seq<T>, key: T -> Option<K>)
    ensures SumOver(Order(xs, key), k => Count(xs, key, k)) == Keyed(xs, key)
  {
    OrderSpec(xs, key);
    forall i | 0 <= i < |xs| && key(xs[i]).Some?
      ensures key(xs[i]).value in Order(xs, key)
    {
      var k := key(xs[i]).value;
      assert key(xs[i]) == Some(k);
      CountPositive(xs, key, k);
      assert Count(xs, key, k) > 0;
    }
    SumOfCounts(xs, key, Order(xs, key));
  }

  /** Counting one more element. */
  lemma CountSnoc<T, K>(xs: seq<T>, x: T, key: T -> Option<K>, k: K)
    ensures Count(xs + [x], key, k) == Count(xs, key, k) + (if key(x) == Some(k) then 1 else 0)
  {
    InitOfSnoc(xs, x);
  }

  /** The order of keys after one more element. */
  lemma OrderSnoc<T, K>(xs: seq<T>, x: T, key: T -> Option<K>)
    ensures Order(xs + [x], key) ==
            match key(x)
            case None => Order(xs, key)
            case Some(k) => if k in Order(xs, key) then Order(xs, key) else Order(xs, key) + [k]
  {
    InitOfSnoc(xs, x);
  }

  /** A map that agrees with `d.Put(k, v)` key by key, in the same order, is it. */
  lemma PutAgrees<K, V>(d: Dict<K, V>, t: Dict<K, V>, k: K, v: V)
    requires t.keys == if k in d.entries then d.keys else d.keys + [k]
    requires t.entries.Keys == d.entries.Keys + {k}
    requires k in t.entries && t.entries[k] == v
    requires forall x :: x in d.entries && x != k ==> x in t.entries && t.entries[x] == d.entries[x]
    ensures t == d.Put(k, v)
  {
    assert t.entries == d.Put(k, v).entries;
  }

  /** Setting a key twice keeps only the second value. */
  lemma PutPut<K, V>(d: Dict<K, V>, k: K, v: V, w: V)
    ensures d.Put(k, v).Put(k, w) == d.Put(k, w)
  {
  }

  /** When every element has a key, every element is counted. */
  lemma {:induction false} KeyedTotal<T, K>(xs: seq<T>, key: T -> Option<K>)
    requires forall i :: 0 <= i < |xs| ==> key(xs[i]).Some?
    ensures Keyed(xs, key) == |xs|
    decreases |xs|
  {
    if xs != [] {
      assert key(xs[|xs| - 1]).Some?;
      KeyedTotal(Init(xs), key);
    }
  }

  /** A key that implies another cannot be counted more often. */
  lemma {:induction false} CountMono<T, K>(xs: seq<T>, fine: T -> Option<K>, coarse: T -> Option<K>, k: K)
    requires forall i :: 0 <= i < |xs| && fine(xs[i]) == Some(k) ==> coarse(xs[i]) == Some(k)
    ensures Count(xs, fine, k) <= Count(xs, coarse, k)
    decreases |xs|
  {
    if xs != [] {
      assert fine(xs[|xs| - 1]) == Some(k) ==> coarse(xs[|xs| - 1]) == Some(k);
      CountMono(Init(xs), fine, coarse, k);
    }
  }

  /** A key is counted exactly when some element carries it. */
  lemma {:induction false} CountPositive<T, K>(xs: seq<T>, key: T -> Option<K>, k: K)
    ensures Count(xs, key, k) > 0 <==> exists i :: 0 <= i < |xs| && key(xs[i]) == Some(k)
    decreases |xs|
  {
    if xs != [] {
      CountPositive(Init(xs), key, k);
      if Count(Init(xs), key, k) > 0 {
        var i :| 0 <= i < |Init(xs)| && key(Init(xs)[i]) == Some(k);
        assert xs[i] == Init(xs)[i];
      }
      if exists i :: 0 <= i < |xs| && key(xs[i]) == Some(k) {
        var i :| 0 <= i < |xs| && key(xs[i]) == Some(k);
        if i < |xs| - 1 {
          assert Init(xs)[i] == xs[i];
        }
      }
    }
  }

  /** The entries of a counter add up to the number of keyed elements. */
  lemma CounterSums<T, K>(xs: seq<T>, key: T -> Option<K>)
    ensures var c := CounterOf(xs, key);
            SumOver(c.keys, k => c.GetOr(k, 0)) == Keyed(xs, key)
  {
    var c := CounterOf(xs, key);
    SumOverSame(c.keys, k => c.GetOr(k, 0), k => Count(xs, key, k));
    CounterTotal(xs, key);
  }

  /** Adding up one more key at the end. */
  lemma {:induction false} SumOverSnoc<K>(ks: seq<K>, k: K, f: K -> nat)
    ensures SumOver(ks + [k], f) == SumOver(ks, f) + f(k)
    decreases |ks|
  {
    if ks == [] {
      assert [] + [k] == [k];
      assert [k][1..] == [];
    } else {
      assert (ks + [k])[1..] == ks[1..] + [k];
      SumOverSnoc(ks[1..], k, f);
    }
  }

  /** Each summand is at most the sum. */
  lemma {:induction false} SumOverBound<K>(ks: seq<K>, f: K -> nat, i: nat)
    requires i < |ks|
    ensures f(ks[i]) <= SumOver(ks, f)
    decreases |ks|
  {
    if i > 0 {
      SumOverBound(ks[1..], f, i - 1);
    }
  }

  /** A positive sum has a positive summand. */
  lemma {:induction false} SumOverPositive<K>(ks: seq<K>, f: K -> nat)
    requires SumOver(ks, f) > 0
    ensures exists i :: 0 <= i < |ks| && f(ks[i]) > 0
    decreases |ks|
  {
    if f(ks[0]) == 0 {
      SumOverPositive(ks[1..], f);
      var i :| 0 <= i < |ks[1..]| && f(ks[1..][i]) > 0;
      assert ks[i + 1] == ks[1..][i];
    }
  }
}
