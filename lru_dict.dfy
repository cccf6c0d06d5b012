/** `LRUDict` of servedb.py: a dictionary whose writes move the key to the end of the
    insertion order, and which drops its oldest keys while it holds more than `maxsize`
    (when `maxsize` is positive). Reads are the dictionary's own and leave the order alone.

    The dictionary is its insertion order `order` and its bindings `vals`. `Lru` is that
    state as a value, the functions below say what each write does to it, and the class
    `LruDict` does it in place. */
module Lru {
  import opened Common

  datatype Lru<K, V> = Lru(order: seq<K>, vals: map<K, V>)

  predicate NoDup<K(==)>(xs: seq<K>)
  {
    forall i, j :: 0 <= i < j < |xs| ==> xs[i] != xs[j]
  }

  /** A dictionary: every key once in the order, and exactly the keys of the order bound. */
  ghost predicate WF<K(!new), V>(s: Lru<K, V>)
  {
    NoDup(s.order) && forall k :: k in s.vals <==> k in s.order
  }

  /** What holds between writes: a dictionary within its size bound when it has one. */
  ghost predicate Bounded<K(!new), V>(s: Lru<K, V>, maxsize: int)
  {
    WF(s) && (maxsize > 0 ==> |s.order| <= maxsize)
  }

  /** `xs` ends with `ys`. */
  predicate IsSuffix<K(==)>(ys: seq<K>, xs: seq<K>)
  {
    |ys| <= |xs| && xs[|xs| - |ys|..] == ys
  }

  /** The order without `k`. */
  function Remove<K(==)>(xs: seq<K>, k: K): seq<K>
    decreases |xs|
  {
    if xs == [] then []
    else if xs[0] == k then Remove(xs[1..], k)
    else [xs[0]] + Remove(xs[1..], k)
  }

  /** `self.pop(key, None)`. */
  function PopSpec<K(==,!new), V>(s: Lru<K, V>, k: K): Lru<K, V>
  {
    Lru(Remove(s.order, k), s.vals - {k})
  }

  /** `clean`: while the dictionary is over a positive `maxsize`, pop its oldest key. */
  function Evict<K(==,!new), V>(s: Lru<K, V>, maxsize: int): Lru<K, V>
    decreases |s.order|
  {
    if maxsize > 0 && |s.order| > maxsize then
      Evict(Lru(s.order[1..], s.vals - {s.order[0]}), maxsize)
    else s
  }

  /** `d[k] = v`: pop `k`, bind it again (so it comes last), then `clean`. */
  function SetSpec<K(==,!new), V>(s: Lru<K, V>, k: K, v: V, maxsize: int): Lru<K, V>
  {
    var p := PopSpec(s, k);
    Evict(Lru(p.order + [k], p.vals[k := v]), maxsize)
  }

  /** `setdefault(k, default)`: the dictionary's own, which binds `k` at the end only when
      it is missing, then `clean`. */
  function SetDefaultSpec<K(==,!new), V>(s: Lru<K, V>, k: K, default: V, maxsize: int): (V, Lru<K, V>)
  {
    if k in s.vals then (s.vals[k], Evict(s, maxsize))
    else (default, Evict(Lru(s.order + [k], s.vals[k := default]), maxsize))
  }

  /** A run of `d[k] = v` over `pairs`, left to right. */
  function SetAll<K(==,!new), V>(s: Lru<K, V>, pairs: seq<(K, V)>, maxsize: int): Lru<K, V>
    decreases |pairs|
  {
    if pairs == [] then s
    else
      var p := pairs[|pairs| - 1];
      SetSpec(SetAll(s, pairs[..|pairs| - 1], maxsize), p.0, p.1, maxsize)
  }

  // ---------------------------------------------------------------------------
  // Removing a key

  lemma {:induction false} RemoveShape<K>(xs: seq<K>, k: K)
    requires NoDup(xs)
    ensures NoDup(Remove(xs, k)) && k !in Remove(xs, k)
    ensures forall x :: x in Remove(xs, k) <==> x in xs && x != k
    ensures k !in xs ==> Remove(xs, k) == xs
    ensures |Remove(xs, k)| <= |xs|
    decreases |xs|
  {
    if xs != [] {
      RemoveShape(xs[1..], k);
      var r := Remove(xs, k);
      if xs[0] != k {
        assert xs[0] !in xs[1..];
        forall i, j | 0 <= i < j < |r|
          ensures r[i] != r[j]
        {
          if i > 0 {
            assert r[i] == Remove(xs[1..], k)[i - 1] && r[j] == Remove(xs[1..], k)[j - 1];
          } else {
            assert r[j] in Remove(xs[1..], k);
          }
        }
        if k !in xs {
          assert xs == [xs[0]] + xs[1..];
        }
      }
    }
  }

  lemma {:induction false} RemoveTwice<K>(xs: seq<K>, k: K)
    ensures Remove(Remove(xs, k), k) == Remove(xs, k)
    decreases |xs|
  {
    if xs != [] {
      RemoveTwice(xs[1..], k);
      if xs[0] != k {
        assert ([xs[0]] + Remove(xs[1..], k))[1..] == Remove(xs[1..], k);
      }
    }
  }

  // ---------------------------------------------------------------------------
  // Eviction

  /** `clean` keeps the newest `maxsize` keys with their values and drops the rest. */
  lemma {:induction false} EvictShape<K(!new), V>(s: Lru<K, V>, maxsize: int)
    requires WF(s)
    ensures var t := Evict(s, maxsize);
            && WF(t)
            && t.order == (if maxsize > 0 && |s.order| > maxsize then s.order[|s.order| - maxsize..] else s.order)
            && (forall k :: k in t.vals ==> k in s.vals && t.vals[k] == s.vals[k])
    decreases |s.order|
  {
    if maxsize > 0 && |s.order| > maxsize {
      var u := Lru(s.order[1..], s.vals - {s.order[0]});
      forall k
        ensures k in u.vals <==> k in u.order
      {
        if k == s.order[0] {
          forall j | 0 <= j < |u.order|
            ensures u.order[j] != k
          {
            assert u.order[j] == s.order[j + 1];
          }
        }
      }
      EvictShape(u, maxsize);
      assert s.order[1..][|u.order| - maxsize..] == s.order[|s.order| - maxsize..];
    }
  }

  /** Within the bound, `clean` does nothing. */
  lemma EvictBounded<K(!new), V>(s: Lru<K, V>, maxsize: int)
    requires maxsize > 0 ==> |s.order| <= maxsize
    ensures Evict(s, maxsize) == s
  {
  }

  // ---------------------------------------------------------------------------
  // Writes

  /** `pop` keeps a dictionary within its bound, and removes `k`. */
  lemma PopBounded<K(!new), V>(s: Lru<K, V>, k: K, maxsize: int)
    requires Bounded(s, maxsize)
    ensures Bounded(PopSpec(s, k), maxsize) && k !in PopSpec(s, k).vals
  {
    RemoveShape(s.order, k);
  }

  /** Binding a missing key appends it to the order. */
  lemma AppendWF<K(!new), V>(p: Lru<K, V>, k: K, v: V)
    requires WF(p) && k !in p.vals
    ensures WF(Lru(p.order + [k], p.vals[k := v]))
  {
    var o := p.order + [k];
    forall i, j | 0 <= i < j < |o|
      ensures o[i] != o[j]
    {
      if j == |o| - 1 {
        assert o[i] in p.order;
      } else {
        assert o[i] == p.order[i] && o[j] == p.order[j];
      }
    }
  }

  /** The state `d[k] = v` passes to `clean`. */
  lemma Inserted<K(!new), V>(s: Lru<K, V>, k: K, v: V, maxsize: int)
    requires Bounded(s, maxsize)
    ensures var p := PopSpec(s, k);
            var u := Lru(p.order + [k], p.vals[k := v]);
            && WF(u) && SetSpec(s, k, v, maxsize) == Evict(u, maxsize)
            && |p.order| <= |s.order| && k !in p.order
            && p.order == Remove(s.order, k)
            && (forall x :: x in p.vals ==> x in s.vals && p.vals[x] == s.vals[x])
  {
    PopBounded(s, k, maxsize);
    RemoveShape(s.order, k);
    AppendWF(PopSpec(s, k), k, v);
  }

  /** After `d[k] = v`: `d[k] == v`, `k` is the newest key and the bound holds. */
  lemma SetItemBound<K(!new), V>(s: Lru<K, V>, k: K, v: V, maxsize: int)
    requires Bounded(s, maxsize)
    ensures var t := SetSpec(s, k, v, maxsize);
            && Bounded(t, maxsize)
            && k in t.vals && t.vals[k] == v
            && |t.order| >= 1 && t.order[|t.order| - 1] == k
  {
    Inserted(s, k, v, maxsize);
    var p := PopSpec(s, k);
    EvictShape(Lru(p.order + [k], p.vals[k := v]), maxsize);
  }

  /** After `d[k] = v`, the other keys that are left keep their values and their relative
      order and are the newest of the others, so eviction took the oldest first; with
      `maxsize <= 0` nothing was evicted. */
  lemma SetItemKeepsOthers<K(!new), V>(s: Lru<K, V>, k: K, v: V, maxsize: int)
    requires Bounded(s, maxsize)
    ensures var t := SetSpec(s, k, v, maxsize);
            && |t.order| >= 1
            && IsSuffix(t.order[..|t.order| - 1], Remove(s.order, k))
            && (forall x :: x in t.vals && x != k ==> x in s.vals && t.vals[x] == s.vals[x])
            && (maxsize <= 0 ==> t.order == Remove(s.order, k) + [k])
  {
    Inserted(s, k, v, maxsize);
    var p := PopSpec(s, k);
    var u := Lru(p.order + [k], p.vals[k := v]);
    EvictShape(u, maxsize);
    var t := Evict(u, maxsize);
    if maxsize > 0 && |u.order| > maxsize {
      assert t.order[..|t.order| - 1] == p.order[|p.order| - (maxsize - 1)..];
    } else {
      assert t.order[..|t.order| - 1] == p.order;
    }
  }

  /** The `pop` that `update` does before each `d[k] = v` changes nothing. */
  lemma PopThenSet<K(!new), V>(s: Lru<K, V>, k: K, v: V, maxsize: int)
    ensures SetSpec(PopSpec(s, k), k, v, maxsize) == SetSpec(s, k, v, maxsize)
  {
    RemoveTwice(s.order, k);
    assert (s.vals - {k}) - {k} == s.vals - {k};
  }

  /** `setdefault` on a present key returns its value and changes nothing; on a missing key
      it returns the default and does what `d[k] = default` does. */
  lemma SetDefaultFacts<K(!new), V>(s: Lru<K, V>, k: K, default: V, maxsize: int)
    requires Bounded(s, maxsize)
    ensures k in s.vals ==> SetDefaultSpec(s, k, default, maxsize) == (s.vals[k], s)
    ensures k !in s.vals ==> SetDefaultSpec(s, k, default, maxsize) == (default, SetSpec(s, k, default, maxsize))
  {
    RemoveShape(s.order, k);
    if k !in s.vals {
      assert s.vals - {k} == s.vals;
    }
  }

  /** A run of writes keeps the bound, and its last write wins for its key. */
  lemma {:induction false} SetAllFacts<K(!new), V>(s: Lru<K, V>, pairs: seq<(K, V)>, maxsize: int)
    requires Bounded(s, maxsize)
    ensures Bounded(SetAll(s, pairs, maxsize), maxsize)
    ensures pairs != [] ==> var t := SetAll(s, pairs, maxsize);
              var p := pairs[|pairs| - 1];
              p.0 in t.vals && t.vals[p.0] == p.1 && t.order[|t.order| - 1] == p.0
    decreases |pairs|
  {
    if pairs != [] {
      var p := pairs[|pairs| - 1];
      SetAllFacts(s, pairs[..|pairs| - 1], maxsize);
      SetItemBound(SetAll(s, pairs[..|pairs| - 1], maxsize), p.0, p.1, maxsize);
    }
  }

  lemma SetAllSnoc<K(!new), V>(s: Lru<K, V>, pairs: seq<(K, V)>, p: (K, V), maxsize: int)
    ensures SetAll(s, pairs + [p], maxsize) == SetSpec(SetAll(s, pairs, maxsize), p.0, p.1, maxsize)
  {
    assert (pairs + [p])[..|pairs|] == pairs;
  }

  // ---------------------------------------------------------------------------
  // The class

  class LruDict<K(==,!new), V> {
    var order: seq<K>
    var vals: map<K, V>
    const maxsize: int

    function Snapshot(): Lru<K, V>
      reads this
    {
      Lru(order, vals)
    }

    ghost predicate Valid()
      reads this
    {
      Bounded(Snapshot(), maxsize)
    }

    /** `LRUDict(maxsize)`: empty. */
    constructor(maxsize: int)
      ensures Valid() && Snapshot() == Lru([], map[]) && this.maxsize == maxsize
    {
      order := [];
      vals := map[];
      this.maxsize := maxsize;
    }

    /** A read (`d.get(k)`): the bound value, if any; the order is not touched. */
    function Get(k: K): (r: Option<V>)
      reads this
      requires Valid()
      ensures r.Some? <==> k in order
      ensures r.Some? ==> r.value == vals[k]
    {
      if k in vals then Some(vals[k]) else None
    }

    /** `self.pop(key, None)`. */
    method Pop(k: K)
      requires WF(Snapshot())
      modifies this
      ensures Snapshot() == PopSpec(old(Snapshot()), k)
    {
      order := Remove(order, k);
      vals := vals - {k};
    }

    /** `clean`. */
    method Clean()
      modifies this
      ensures Snapshot() == Evict(old(Snapshot()), maxsize)
    {
      if maxsize > 0 {
        while |order| > maxsize
          invariant Evict(Snapshot(), maxsize) == Evict(old(Snapshot()), maxsize)
          decreases |order|
        {
          var oldest := order[0];
          order := order[1..];
          vals := vals - {oldest};
        }
      }
    }

    /** `__setitem__`. */
    method SetItem(k: K, v: V)
      requires Valid()
      modifies this
      ensures Valid()
      ensures Snapshot() == SetSpec(old(Snapshot()), k, v, maxsize)
    {
      SetItemBound(Snapshot(), k, v, maxsize);
      PopBounded(Snapshot(), k, maxsize);
      Pop(k);
      vals := vals[k := v];
      order := order + [k];
      Clean();
    }

    /** `setdefault`. */
    method SetDefault(k: K, default: V) returns (value: V)
      requires Valid()
      modifies this
      ensures Valid()
      ensures (value, Snapshot()) == SetDefaultSpec(old(Snapshot()), k, default, maxsize)
    {
      ghost var s := Snapshot();
      SetDefaultFacts(s, k, default, maxsize);
      SetItemBound(s, k, default, maxsize);
      if k in vals {
        value := vals[k];
        EvictBounded(s, maxsize);
      } else {
        vals := vals[k := default];
        order := order + [k];
        value := default;
      }
      Clean();
    }

    /** `update(iterable, **pairs)`: a `pop` and a `d[k] = v` per pair of the iterable, then
        per keyword pair, then `clean`. */
    method Update(iterable: seq<(K, V)>, pairs: seq<(K, V)>)
      requires Valid()
      modifies this
      ensures Valid()
      ensures Snapshot() == SetAll(SetAll(old(Snapshot()), iterable, maxsize), pairs, maxsize)
    {
      ghost var start := Snapshot();
      for i := 0 to |iterable|
        invariant Valid()
        invariant Snapshot() == SetAll(start, iterable[..i], maxsize)
      {
        var (key, val) := iterable[i];
        SetAllSnoc(start, iterable[..i], iterable[i], maxsize);
        assert iterable[..i + 1] == iterable[..i] + [iterable[i]];
        PopThenSet(Snapshot(), key, val, maxsize);
        PopBounded(Snapshot(), key, maxsize);
        Pop(key);
        SetItem(key, val);
      }
      assert iterable[..|iterable|] == iterable;
      ghost var mid := Snapshot();
      for i := 0 to |pairs|
        invariant Valid()
        invariant Snapshot() == SetAll(mid, pairs[..i], maxsize)
      {
        var (key, val) := pairs[i];
        SetAllSnoc(mid, pairs[..i], pairs[i], maxsize);
        assert pairs[..i + 1] == pairs[..i] + [pairs[i]];
        PopThenSet(Snapshot(), key, val, maxsize);
        PopBounded(Snapshot(), key, maxsize);
        Pop(key);
        SetItem(key, val);
      }
      assert pairs[..|pairs|] == pairs;
      EvictBounded(Snapshot(), maxsize);
      Clean();
    }
  }
}
