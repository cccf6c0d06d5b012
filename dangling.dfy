/** `find_dangling_ids` in updatedb.py: the table's `id -> parent_id` links are followed from
    every row; a row whose chain reaches parent 0 is sound, a row whose chain reaches an id
    that is not in the table is dangling. Chains already classified are reused through the
    `ok_ids` / `na_ids` sets.

    The table is the map `d`, visited in the order of a sequence of its keys. */
module Dangling {

  /** Where the parent links of a row lead: to parent 0, to an id outside the table, or not
      anywhere within the fuel given. */
  datatype Fate = Rooted | Dangling | Unresolved

  function Follow(d: map<int, int>, k: int, fuel: nat): Fate
    requires k in d
    decreases fuel
  {
    if fuel == 0 then Unresolved
    else
      var p := d[k];
      if p == 0 then Rooted
      else if p !in d then Dangling
      else Follow(d, p, fuel - 1)
  }

  /** A chain of more than `|d|` links repeats a row, so `|d|` fuel decides every chain that
      ends at all. */
  function FateOf(d: map<int, int>, k: int): Fate
    requires k in d
  {
    Follow(d, k, |d|)
  }

  /** Every parent chain ends: the `while k := d[k]` loop never cycles. */
  predicate Acyclic(d: map<int, int>)
  {
    forall k :: k in d ==> Follow(d, k, |d|) != Unresolved
  }

  function RootedIds(d: map<int, int>): set<int>
  {
    set k | k in d && FateOf(d, k) == Rooted
  }

  function DanglingIds(d: map<int, int>): set<int>
  {
    set k | k in d && FateOf(d, k) == Dangling
  }

  /** The non-zero parent ids that are not rows of the table. */
  function MissingParents(d: map<int, int>): set<int>
  {
    set k | k in d && d[k] != 0 && d[k] !in d :: d[k]
  }

  // ---------------------------------------------------------------------------
  // Chains

  /** More fuel does not change a decided chain. */
  lemma {:induction false} FollowMore(d: map<int, int>, k: int, f: nat, g: nat)
    requires k in d && f <= g && Follow(d, k, f) != Unresolved
    ensures Follow(d, k, g) == Follow(d, k, f)
    decreases f
  {
    var p := d[k];
    if p != 0 && p in d {
      FollowMore(d, p, f - 1, g - 1);
    }
  }

  /** A row whose parent is a row shares its parent's fate. */
  lemma FollowParent(d: map<int, int>, k: int, f: nat)
    requires k in d && d[k] != 0 && d[k] in d && Follow(d, k, f) != Unresolved
    ensures Follow(d, d[k], f) == Follow(d, k, f)
  {
    assert f > 0 && Follow(d, k, f) == Follow(d, d[k], f - 1);
    FollowMore(d, d[k], f - 1, f);
  }

  /** A set of rows, 0 not among them, whose parents all lie in the set is a cycle: no
      amount of fuel decides a chain that starts in it, which is the case `Acyclic` excludes. */
  lemma {:induction false} CycleUnresolved(d: map<int, int>, s: set<int>, k: int, f: nat)
    requires 0 !in s && s <= d.Keys && k in s
    requires forall x :: x in s ==> d[x] in s
    ensures Follow(d, k, f) == Unresolved
    decreases f
  {
    if f > 0 {
      CycleUnresolved(d, s, d[k], f - 1);
    }
  }

  /** Under `Acyclic`: a row with parent 0 is sound, a row whose parent is missing is
      dangling, a row whose parent is a row has its parent's fate, and so every row is
      exactly one of sound and dangling. */
  lemma FateRules(d: map<int, int>, k: int)
    requires Acyclic(d) && k in d
    ensures d[k] == 0 ==> FateOf(d, k) == Rooted
    ensures d[k] != 0 && d[k] !in d ==> FateOf(d, k) == Dangling
    ensures d[k] != 0 && d[k] in d ==> FateOf(d, k) == FateOf(d, d[k])
    ensures FateOf(d, k) == Rooted || FateOf(d, k) == Dangling
  {
    if d[k] != 0 && d[k] in d {
      FollowParent(d, k, |d|);
    }
  }

  // ---------------------------------------------------------------------------
  // The loop

  /** What the sets hold at any time: `ok_ids` only sound rows, `na_ids` only dangling rows
      and missing parent ids. */
  ghost predicate Sound(d: map<int, int>, ok: set<int>, na: set<int>)
  {
    && (forall x :: x in ok ==> x in d && FateOf(d, x) == Rooted)
    && (forall x :: x in na ==> (x in d && FateOf(d, x) == Dangling) || x in MissingParents(d))
  }

  /** After row `k` was visited: it is classified, and its parent with it when that is missing. */
  ghost predicate Visited(d: map<int, int>, ok: set<int>, na: set<int>, k: int)
    requires k in d
  {
    (k in ok || k in na) && (d[k] != 0 && d[k] !in d ==> d[k] in na)
  }

  /** `find_dangling_ids`: returns `na_ids`, and also `ok_ids`. `keys` is the order in which
      `dict.items()` visits the table. `na_ids` holds the dangling rows and, beside them, the
      missing parent ids the chains ran into. */
  method FindDanglingIds(d: map<int, int>, keys: seq<int>) returns (ok: set<int>, na: set<int>)
    requires forall i :: 0 <= i < |keys| ==> keys[i] in d
    requires forall k :: k in d ==> k in keys
    requires Acyclic(d)
    ensures ok == RootedIds(d)
    ensures na == DanglingIds(d) + MissingParents(d)
  {
    ok, na := {}, {};
    for i := 0 to |keys|
      invariant Sound(d, ok, na)
      invariant forall j :: 0 <= j < i ==> Visited(d, ok, na, keys[j])
    {
      ok, na := VisitRow(d, keys[i], ok, na);
    }
    forall x | x in ok
      ensures x in RootedIds(d)
    {
      assert x in d && FateOf(d, x) == Rooted;
    }
    forall x | x in na
      ensures x in DanglingIds(d) + MissingParents(d)
    {
    }
    forall x | x in RootedIds(d)
      ensures x in ok
    {
      var j :| 0 <= j < |keys| && keys[j] == x;
      assert Visited(d, ok, na, keys[j]);
      assert x !in MissingParents(d);
    }
    forall x | x in DanglingIds(d) + MissingParents(d)
      ensures x in na
    {
      if x !in DanglingIds(d) {
        var k :| k in d && d[k] != 0 && d[k] !in d && d[k] == x;
        var j :| 0 <= j < |keys| && keys[j] == k;
        assert Visited(d, ok, na, keys[j]);
      }
    }
  }

  /** One turn of the `for k, v in d.items()` loop: follow the parents of `k` until parent 0,
      a classified id or a missing one, then file the whole chain. */
  method VisitRow(d: map<int, int>, k: int, ok: set<int>, na: set<int>) returns (ok': set<int>, na': set<int>)
    requires Acyclic(d) && k in d && Sound(d, ok, na)
    ensures Sound(d, ok', na') && ok <= ok' && na <= na'
    ensures Visited(d, ok', na', k)
  {
    var temp := [k];
    var cur := k;
    ghost var f: nat := |d|;
    while true
      invariant cur in d && f <= |d| && Follow(d, cur, f) != Unresolved
      invariant FateOf(d, cur) == Follow(d, cur, f)
      invariant |temp| > 0 && temp[0] == k && temp[|temp| - 1] == cur
      invariant d[k] != 0 && d[k] !in d ==> cur == k
      invariant forall i :: 0 <= i < |temp| ==> temp[i] in d && FateOf(d, temp[i]) == FateOf(d, cur)
      decreases f
    {
      var p := d[cur];
      if p == 0 {
        return ok + (set x | x in temp), na;
      }
      if p in ok {
        FollowParent(d, cur, |d|);
        return ok + (set x | x in temp), na;
      }
      if p in na {
        if p in d {
          FollowParent(d, cur, |d|);
        }
        return ok, na + (set x | x in temp);
      }
      if p !in d {
        assert p in MissingParents(d);
        return ok, na + (set x | x in temp + [p]);
      }
      FollowParent(d, cur, |d|);
      temp := temp + [p];
      cur := p;
      f := f - 1;
      FollowMore(d, cur, f, |d|);
    }
  }

  // ---------------------------------------------------------------------------
  // Reading the result

  /** Every row is in exactly one of the two sets; `na_ids` reaches outside the table
      exactly at the missing parents, and `cleandb` passes those to the delete as well. */
  lemma DanglingPartition(d: map<int, int>)
    requires Acyclic(d)
    ensures RootedIds(d) * (DanglingIds(d) + MissingParents(d)) == {}
    ensures RootedIds(d) + DanglingIds(d) == d.Keys
    ensures (DanglingIds(d) + MissingParents(d)) - d.Keys == MissingParents(d)
  {
    forall k | k in d
      ensures k in RootedIds(d) || k in DanglingIds(d)
    {
      FateRules(d, k);
    }
    assert forall x :: x in MissingParents(d) ==> x !in d;
  }

  /** Row 2 hangs under the missing directory 7: both 2 and 7 come back. */
  lemma MissingParentReturned()
    ensures var d := map[1 := 0, 2 := 7];
            Acyclic(d) && DanglingIds(d) + MissingParents(d) == {2, 7} && RootedIds(d) == {1}
  {
    var d := map[1 := 0, 2 := 7];
    assert FateOf(d, 1) == Rooted && FateOf(d, 2) == Dangling;
    assert MissingParents(d) == {7};
    assert DanglingIds(d) == {2};
    assert RootedIds(d) == {1};
  }
}
