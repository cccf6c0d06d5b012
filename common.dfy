/** Small shared vocabulary: an optional value and last-write-wins map updates. */
module Common {

  datatype Option<+T> = None | Some(value: T)

  /** Assigns every pair of `kvs` into `m`, left to right, as a run of `d[k] = v`
      statements on a dictionary does: a later pair for the same key wins. */
  function AssignAll<K, V>(m: map<K, V>, kvs: seq<(K, V)>): map<K, V>
    decreases |kvs|
  {
    if kvs == [] then m
    else
      assert kvs == [kvs[0]] + kvs[1..];
      AssignAll(m[kvs[0].0 := kvs[0].1], kvs[1..])
  }

  /** The value the last pair for key `k` carries, when there is one. */
  function LastFor<K(==), V>(kvs: seq<(K, V)>, k: K): Option<V>
    decreases |kvs|
  {
    if kvs == [] then None
    else if kvs[|kvs| - 1].0 == k then Some(kvs[|kvs| - 1].1)
    else LastFor(kvs[..|kvs| - 1], k)
  }

  /** The assignments add exactly the keys they name. */
  lemma {:induction false} AssignAllKeys<K, V>(m: map<K, V>, kvs: seq<(K, V)>)
    ensures AssignAll(m, kvs).Keys == m.Keys + (set p | p in kvs :: p.0)
    decreases |kvs|
  {
    if kvs != [] {
      AssignAllKeys(m[kvs[0].0 := kvs[0].1], kvs[1..]);
      assert kvs == [kvs[0]] + kvs[1..];
    }
  }

  /** Last write wins: after the assignments, a key holds the value of the last pair
      that names it, and keeps its old binding when no pair names it. */
  lemma {:induction false} AssignAllLastWins<K, V>(m: map<K, V>, kvs: seq<(K, V)>, k: K)
    ensures LastFor(kvs, k).Some? ==> k in AssignAll(m, kvs) && AssignAll(m, kvs)[k] == LastFor(kvs, k).value
    ensures LastFor(kvs, k).None? ==> (k in AssignAll(m, kvs) <==> k in m)
    ensures LastFor(kvs, k).None? && k in m ==> AssignAll(m, kvs)[k] == m[k]
    decreases |kvs|
  {
    if kvs != [] {
      var init := kvs[..|kvs| - 1];
      var p := kvs[|kvs| - 1];
      AssignAllSnoc(m, init, p);
      assert kvs == init + [p];
      AssignAllLastWins(m, init, k);
    }
  }

  lemma {:induction false} AssignAllSnoc<K, V>(m: map<K, V>, kvs: seq<(K, V)>, p: (K, V))
    ensures AssignAll(m, kvs + [p]) == AssignAll(m, kvs)[p.0 := p.1]
    decreases |kvs|
  {
    if kvs == [] {
      assert [p][1..] == [];
    } else {
      assert (kvs + [p])[1..] == kvs[1..] + [p];
      AssignAllSnoc(m[kvs[0].0 := kvs[0].1], kvs[1..], p);
    }
  }

  lemma {:induction false} AssignAllAppend<K, V>(m: map<K, V>, a: seq<(K, V)>, b: seq<(K, V)>)
    ensures AssignAll(m, a + b) == AssignAll(AssignAll(m, a), b)
    decreases |a|
  {
    if a != [] {
      var ab := a + b;
      assert ab[0] == a[0];
      assert ab[1..] == a[1..] + b;
      calc {
        AssignAll(m, ab);
        AssignAll(m[a[0].0 := a[0].1], a[1..] + b);
        { AssignAllAppend(m[a[0].0 := a[0].1], a[1..], b); }
        AssignAll(AssignAll(m[a[0].0 := a[0].1], a[1..]), b);
      }
    } else {
      assert a + b == b;
    }
  }

  /** Every binding after the assignments is an old one or one of the pairs. */
  lemma {:induction false} AssignAllFrom<K, V>(m: map<K, V>, kvs: seq<(K, V)>, k: K)
    requires k in AssignAll(m, kvs)
    ensures (k in m && AssignAll(m, kvs)[k] == m[k]) || (k, AssignAll(m, kvs)[k]) in kvs
    decreases |kvs|
  {
    if kvs != [] {
      AssignAllFrom(m[kvs[0].0 := kvs[0].1], kvs[1..], k);
      assert kvs == [kvs[0]] + kvs[1..];
    }
  }

  /** A key is bound after the assignments exactly when it was bound or some pair names it. */
  lemma {:induction false} AssignAllHas<K, V>(m: map<K, V>, kvs: seq<(K, V)>, k: K)
    ensures k in AssignAll(m, kvs) <==> k in m || exists i :: 0 <= i < |kvs| && kvs[i].0 == k
    decreases |kvs|
  {
    if kvs != [] {
      AssignAllHas(m[kvs[0].0 := kvs[0].1], kvs[1..], k);
      if exists i :: 0 <= i < |kvs[1..]| && kvs[1..][i].0 == k {
        var i :| 0 <= i < |kvs[1..]| && kvs[1..][i].0 == k;
        assert kvs[i + 1].0 == k;
      }
      if exists i :: 0 <= i < |kvs| && kvs[i].0 == k {
        var i :| 0 <= i < |kvs| && kvs[i].0 == k;
        if i > 0 {
          assert kvs[1..][i - 1].0 == k;
        }
      }
    }
  }
}
