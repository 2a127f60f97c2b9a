/** Generic sequence shapes the pipeline's loops follow: a loop that keeps
    the items a test admits (a filter-map), a dict comprehension whose later
    items replace earlier ones with the same key, and the first-encounter
    key order of a dict filled by a loop. */
module Seqs {
  import opened Wrappers

  predicate Distinct<T(==)>(xs: seq<T>) {
    forall i, j :: 0 <= i < j < |xs| ==> xs[i] != xs[j]
  }

  lemma AppendAssoc<T>(a: seq<T>, b: seq<T>, c: seq<T>)
    ensures a + (b + c) == (a + b) + c
  {
  }

  /** The results `f` gives for the items of `xs`, skipping the items it
      rejects, in order. */
  function FilterMap<A, B(!new)>(f: A -> Option<B>, xs: seq<A>): (r: seq<B>)
    ensures |r| <= |xs|
    ensures forall y :: y in r <==> exists i :: 0 <= i < |xs| && f(xs[i]) == Some(y)
  {
    if xs == [] then []
    else
      var rest := FilterMap(f, xs[1..]);
      assert forall i :: 1 <= i < |xs| ==> xs[i] == xs[1..][i - 1];
      forall y | exists i :: 0 <= i < |xs[1..]| && f(xs[1..][i]) == Some(y)
        ensures exists i :: 0 <= i < |xs| && f(xs[i]) == Some(y)
      {
        var i :| 0 <= i < |xs[1..]| && f(xs[1..][i]) == Some(y);
        assert f(xs[i + 1]) == Some(y);
      }
      match f(xs[0])
      case None => rest
      case Some(y) => [y] + rest
  }

  /** The result for a list is the head's result, if any, then the tail's. */
  lemma FilterMapCons<A, B(!new)>(f: A -> Option<B>, x: A, xs: seq<A>)
    ensures FilterMap(f, [x] + xs) == (if f(x).Some? then [f(x).value] else []) + FilterMap(f, xs)
  {
    assert ([x] + xs)[1..] == xs;
  }

  /** Filtering a concatenation filters each part in turn: the kept items
      stay in their input order. */
  lemma {:induction false} FilterMapAppend<A, B(!new)>(f: A -> Option<B>, a: seq<A>, b: seq<A>)
    ensures FilterMap(f, a + b) == FilterMap(f, a) + FilterMap(f, b)
  {
    if a != [] {
      var t := a[1..];
      assert a == [a[0]] + t;
      assert a + b == [a[0]] + (t + b);
      FilterMapCons(f, a[0], t + b);
      FilterMapCons(f, a[0], t);
      FilterMapAppend(f, t, b);
      AppendAssoc(if f(a[0]).Some? then [f(a[0]).value] else [], FilterMap(f, t), FilterMap(f, b));
    } else {
      assert a + b == b;
    }
  }

  /** An item the test admits contributes its result once, at its own
      position. */
  lemma FilterMapKeeps<A, B(!new)>(f: A -> Option<B>, a: seq<A>, x: A, b: seq<A>)
    requires f(x).Some?
    ensures FilterMap(f, a + [x] + b) == FilterMap(f, a) + [f(x).value] + FilterMap(f, b)
  {
    assert [x][1..] == [];
    assert FilterMap(f, [x]) == [f(x).value];
    FilterMapAppend(f, a, [x]);
    FilterMapAppend(f, a + [x], b);
  }

  /** An item the test rejects can be removed without changing the result. */
  lemma FilterMapSkips<A, B(!new)>(f: A -> Option<B>, a: seq<A>, x: A, b: seq<A>)
    requires f(x).None?
    ensures FilterMap(f, a + [x] + b) == FilterMap(f, a + b)
  {
    assert [x][1..] == [];
    assert FilterMap(f, [x]) == [];
    FilterMapAppend(f, a, [x]);
    assert FilterMap(f, a + [x]) == FilterMap(f, a);
    FilterMapAppend(f, a + [x], b);
    FilterMapAppend(f, a, b);
  }

  /** `x` is the last item of `xs` with its key. */
  ghost predicate IsLastWithKey<K, V>(key: V -> K, xs: seq<V>, x: V) {
    exists i :: 0 <= i < |xs| && xs[i] == x
      && forall j :: i < j < |xs| ==> key(xs[j]) != key(x)
  }

  /** Appending an item with another key keeps the last item of a key. */
  lemma LastWithKeySnoc<K, V>(key: V -> K, xs: seq<V>, x: V, v: V)
    requires IsLastWithKey(key, xs, v) && key(v) != key(x)
    ensures IsLastWithKey(key, xs + [x], v)
  {
    var i :| 0 <= i < |xs| && xs[i] == v && forall j :: i < j < |xs| ==> key(xs[j]) != key(v);
    assert (xs + [x])[i] == v;
    forall j | i < j < |xs| + 1 ensures key((xs + [x])[j]) != key(v) {
      if j < |xs| { assert (xs + [x])[j] == xs[j]; }
    }
  }

  /** The keys of `xs + [x]` are those of `xs` and `x`'s. */
  lemma KeysSnoc<K, V>(key: V -> K, xs: seq<V>, x: V, k: K)
    ensures (exists i :: 0 <= i < |xs| + 1 && key((xs + [x])[i]) == k)
        <==> (exists i :: 0 <= i < |xs| && key(xs[i]) == k) || key(x) == k
  {
    if exists i :: 0 <= i < |xs| && key(xs[i]) == k {
      var i :| 0 <= i < |xs| && key(xs[i]) == k;
      assert (xs + [x])[i] == xs[i];
    }
    if key(x) == k {
      assert (xs + [x])[|xs|] == x;
    }
    if exists i :: 0 <= i < |xs| + 1 && key((xs + [x])[i]) == k {
      var i :| 0 <= i < |xs| + 1 && key((xs + [x])[i]) == k;
      if i < |xs| { assert (xs + [x])[i] == xs[i]; }
    }
  }

  /** `{key(x): x for x in xs}`: each key maps to the last item carrying it. */
  function IndexBy<K(!new), V>(key: V -> K, xs: seq<V>): (m: map<K, V>)
    ensures forall k :: k in m <==> exists i :: 0 <= i < |xs| && key(xs[i]) == k
    ensures forall k :: k in m ==> key(m[k]) == k && IsLastWithKey(key, xs, m[k])
  {
    if xs == [] then map[]
    else
      var init := xs[..|xs| - 1];
      var x := xs[|xs| - 1];
      var m := IndexBy(key, init);
      var m' := m[key(x) := x];
      assert xs == init + [x];
      forall k ensures k in m' <==> exists i :: 0 <= i < |xs| && key(xs[i]) == k {
        KeysSnoc(key, init, x, k);
      }
      forall k | k in m && k != key(x) ensures IsLastWithKey(key, xs, m[k]) {
        LastWithKeySnoc(key, init, x, m[k]);
      }
      assert IsLastWithKey(key, xs, x) by {
        assert xs[|xs| - 1] == x;
      }
      m'
  }

  /** At most one item is the last with a given key, so `IndexBy`'s
      contract determines each value it maps to. */
  lemma LastWithKeyUnique<K, V>(key: V -> K, xs: seq<V>, x: V, y: V)
    requires IsLastWithKey(key, xs, x) && IsLastWithKey(key, xs, y)
    requires key(x) == key(y)
    ensures x == y
  {
    var i :| 0 <= i < |xs| && xs[i] == x && forall j :: i < j < |xs| ==> key(xs[j]) != key(x);
    var k :| 0 <= k < |xs| && xs[k] == y && forall j :: k < j < |xs| ==> key(xs[j]) != key(y);
    assert key(xs[k]) == key(x) && key(xs[i]) == key(y);
  }

  /** Index of the first occurrence of `x` in `xs`. */
  function FirstIndex<T(==)>(xs: seq<T>, x: T): (i: nat)
    requires x in xs
    ensures i < |xs| && xs[i] == x && x !in xs[..i]
  {
    if xs[0] == x then 0 else 1 + FirstIndex(xs[1..], x)
  }

  lemma FirstIndexSnoc<T>(xs: seq<T>, z: T, x: T)
    requires x in xs
    ensures FirstIndex(xs + [z], x) == FirstIndex(xs, x)
  {
    var i := FirstIndex(xs, x);
    var j := FirstIndex(xs + [z], x);
    forall k | 0 <= k < i ensures (xs + [z])[k] != x {
      assert xs[..i][k] == xs[k];
    }
    forall k | 0 <= k < j ensures xs[k] != x {
      assert (xs + [z])[..j][k] == (xs + [z])[k];
    }
  }

  /** The keys of a Python dict filled by a loop over `xs`: each distinct
      element once, in the order of its first occurrence. */
  function Dedup<T(==,!new)>(xs: seq<T>): (r: seq<T>)
    ensures Distinct(r)
    ensures forall y :: y in r <==> y in xs
    ensures forall i, j :: 0 <= i < j < |r| ==> FirstIndex(xs, r[i]) < FirstIndex(xs, r[j])
  {
    if xs == [] then []
    else
      var init := xs[..|xs| - 1];
      var x := xs[|xs| - 1];
      var d := Dedup(init);
      assert xs == init + [x];
      forall y | y in d ensures FirstIndex(xs, y) == FirstIndex(init, y) {
        FirstIndexSnoc(init, x, y);
      }
      if x in d then d
      else
        assert FirstIndex(xs, x) == |init|;
        d + [x]
  }
}
