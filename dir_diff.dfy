/** `diff_dir` of updatedb.py: a merge of the saved children of one directory, grouped by
    modification time and newest group first, against the remote listing, newest first.
    It answers which saved ids to delete and which remote entries to write.

    The saved groups are `select_mtime_groups`: one `(mtime, ids)` pair per distinct
    non-zero mtime, in descending mtime order. The delete list is a set here: the source
    extends it from Python sets, whose iteration order is not modelled. */
module DirDiff {
  import opened Common
  import opened Normalize

  type Group = (int, set<int>)

  /** `AsWritten` is the source; `Intended` closes its two gaps (see `Pop` and `Scan`). */
  datatype Mode = AsWritten | Intended

  /** What `diff_dir` gives back: `OSBusyError` for a repeated remote id, or the delete and
      replace lists; `early` is set when it stopped because the entries still to come are
      as many as the saved ids still unmatched, and so it takes them to be unchanged. */
  datatype Diff = Busy(dup: int) | Done(delete: set<int>, replace: seq<Attr>, early: bool)

  /** `n`: the number of saved ids still unmatched in these groups. */
  function Total(gs: seq<Group>): nat
  {
    if gs == [] then 0 else |gs[0].1| + Total(gs[1..])
  }

  function Ids(gs: seq<Group>): set<int>
  {
    if gs == [] then {} else gs[0].1 + Ids(gs[1..])
  }

  /** `a` has a saved row in one of the groups, with the same mtime. */
  predicate Matched(gs: seq<Group>, a: Attr)
  {
    gs != [] && ((a.id in gs[0].1 && gs[0].0 == a.mtime) || Matched(gs[1..], a))
  }

  /** The `for attr in data_it` loop from entry `items[0]` on; `gs` is the current group
      (with the ids matched so far removed) followed by the groups not yet reached. When the
      listing ends, the groups not yet reached lose their unseen ids; as written, the
      current group keeps its own. */
  function Scan(mode: Mode, items: seq<Attr>, count: int, gs: seq<Group>,
                seen: set<int>, del: set<int>, rep: seq<Attr>): Diff
    requires gs != []
    decreases |items|, 1, 0
  {
    if items == [] then
      var left := if mode == AsWritten then Ids(gs[1..]) else Ids(gs);
      Done(del + (left - seen), rep, false)
    else if items[0].id in seen then Busy(items[0].id)
    else Pop(mode, items, count, gs, seen + {items[0].id}, del, rep)
  }

  /** The body of that loop for the entry `items[0]`, already marked seen: every group newer
      than the entry is closed (its unseen ids deleted) until the entry's mtime is reached.
      When no unmatched id is left, the entry and all after it are written. An entry with
      the current group's mtime that is in the group is matched; as written, one that is
      not in the group is dropped; an entry newer than the current group is written. */
  function Pop(mode: Mode, items: seq<Attr>, count: int, gs: seq<Group>,
               seen: set<int>, del: set<int>, rep: seq<Attr>): Diff
    requires gs != [] && items != []
    decreases |items|, 0, |gs|
  {
    var a := items[0];
    var (hm, hids) := gs[0];
    if hm > a.mtime then
      var del' := del + (hids - seen);
      if Total(gs[1..]) == 0 then Done(del', rep + items, false)
      else Pop(mode, items, count, gs[1..], seen, del', rep)
    else if hm == a.mtime && a.id in hids then
      if count - |seen| == Total(gs) - 1 then Done(del, rep, true)
      else Scan(mode, items[1..], count, [(hm, hids - {a.id})] + gs[1..], seen, del, rep)
    else if hm == a.mtime && mode == AsWritten then
      Scan(mode, items[1..], count, gs, seen, del, rep)
    else
      Scan(mode, items[1..], count, gs, seen, del, rep + [a])
  }

  /** `diff_dir` on the saved groups and a listing of `count` entries. */
  function DiffDirSpec(mode: Mode, groups: seq<Group>, count: int, items: seq<Attr>): Diff
  {
    if Total(groups) == 0 then Done({}, items, false)
    else Scan(mode, items, count, groups, {}, {}, [])
  }

  // ---------------------------------------------------------------------------
  // Vocabulary for the properties

  predicate PairwiseDisjoint(gs: seq<Group>)
  {
    forall i, j :: 0 <= i < j < |gs| ==> gs[i].1 !! gs[j].1
  }

  /** The shape `select_mtime_groups` gives: strictly descending, non-empty, disjoint. */
  predicate SavedGroups(gs: seq<Group>)
  {
    && PairwiseDisjoint(gs)
    && (forall i :: 0 <= i < |gs| ==> gs[i].1 != {})
    && (forall i, j :: 0 <= i < j < |gs| ==> gs[i].0 > gs[j].0)
  }

  function IdSeq(items: seq<Attr>): (s: seq<int>)
    ensures |s| == |items| && forall i :: 0 <= i < |items| ==> s[i] == items[i].id
  {
    seq(|items|, i requires 0 <= i < |items| => items[i].id)
  }

  predicate DistinctIds(items: seq<Attr>)
  {
    forall i, j :: 0 <= i < j < |items| ==> items[i].id != items[j].id
  }

  /** `s` is an in-order subsequence of `t`. */
  predicate Subseq<T(==)>(s: seq<T>, t: seq<T>)
    decreases |t|
  {
    s == [] || (t != [] && ((s[0] == t[0] && Subseq(s[1..], t[1..])) || Subseq(s, t[1..])))
  }

  lemma {:induction false} SubseqRefl<T>(t: seq<T>)
    ensures Subseq(t, t)
    decreases |t|
  {
    if t != [] { SubseqRefl(t[1..]); }
  }

  lemma {:induction false} SubseqSkip<T>(s: seq<T>, t: seq<T>)
    requires t != [] && Subseq(s, t[1..])
    ensures Subseq(s, t)
  {
  }

  lemma {:induction false} TotalZero(gs: seq<Group>)
    requires Total(gs) == 0
    ensures Ids(gs) == {}
    decreases |gs|
  {
    if gs != [] { TotalZero(gs[1..]); }
  }

  lemma {:induction false} DisjointTail(gs: seq<Group>)
    requires gs != [] && PairwiseDisjoint(gs)
    ensures PairwiseDisjoint(gs[1..]) && gs[0].1 !! Ids(gs[1..])
  {
    HeadOutside(gs[0].1, gs[1..], gs);
  }

  lemma {:induction false} HeadOutside(h: set<int>, tail: seq<Group>, gs: seq<Group>)
    requires gs != [] && gs[0].1 == h && tail == gs[1..]
    requires forall i, j :: 0 <= i < j < |gs| ==> gs[i].1 !! gs[j].1
    ensures h !! Ids(tail)
    decreases |tail|
  {
    if tail != [] {
      var gs' := [gs[0]] + gs[2..];
      assert gs'[1..] == tail[1..];
      forall i, j | 0 <= i < j < |gs'|
        ensures gs'[i].1 !! gs'[j].1
      {
        if i == 0 { assert gs'[j] == gs[j + 1]; } else { assert gs'[i] == gs[i + 1] && gs'[j] == gs[j + 1]; }
      }
      HeadOutside(h, tail[1..], gs');
      assert gs[0].1 !! gs[1].1;
    }
  }

  lemma ReplaceHead(gs: seq<Group>, x: int)
    requires gs != [] && PairwiseDisjoint(gs)
    ensures var gs' := [(gs[0].0, gs[0].1 - {x})] + gs[1..];
            && PairwiseDisjoint(gs') && Ids(gs') == Ids(gs) - ({x} * gs[0].1)
            && Ids(gs') <= Ids(gs)
            && (forall a :: Matched(gs', a) ==> Matched(gs, a))
  {
    var gs' := [(gs[0].0, gs[0].1 - {x})] + gs[1..];
    assert gs'[1..] == gs[1..];
    DisjointTail(gs);
    forall i, j | 0 <= i < j < |gs'|
      ensures gs'[i].1 !! gs'[j].1
    {
      assert gs'[j] == gs[j];
      if i > 0 { assert gs'[i] == gs[i]; }
    }
  }

  lemma TotalTail(gs: seq<Group>, i: nat)
    requires i < |gs|
    ensures Total(gs[i..]) == |gs[i].1| + Total(gs[i + 1..])
    ensures Ids(gs[i..]) == gs[i].1 + Ids(gs[i + 1..])
  {
    assert gs[i..][1..] == gs[i + 1..];
  }

  /** `diff_dir` as written. `groups` are the items of the `saved` dictionary, in the order
      the query returned them. */
  method DiffDir(groups: seq<Group>, count: int, items: seq<Attr>) returns (r: Diff)
    ensures r == DiffDirSpec(AsWritten, groups, count, items)
  {
    var n := CountSaved(groups);
    if n == 0 {
      return Done({}, items, false);
    }
    assert groups[0..] == groups;
    TotalTail(groups, 0);
    var seen: set<int> := {};
    var del: set<int> := {};
    var rep: seq<Attr> := [];
    var hm, hids := groups[0].0, groups[0].1;
    var next := 1;
    assert [(hm, hids)] + groups[next..] == groups;
    ghost var whole := Scan(AsWritten, items, count, groups, seen, del, rep);
    var k := 0;
    while k < |items|
      invariant 0 <= k <= |items| && 1 <= next <= |groups|
      invariant n == |hids| + Total(groups[next..])
      invariant whole == Scan(AsWritten, items[k..], count, [(hm, hids)] + groups[next..], seen, del, rep)
    {
      var attr := items[k];
      if attr.id in seen {
        return Busy(attr.id);
      }
      seen := seen + {attr.id};
      var stop;
      stop, r, hm, hids, next, del, rep, n := MergeEntry(items[k..], count, groups, hm, hids, next, seen, del, rep, n);
      if stop {
        return;
      }
      assert items[k..][1..] == items[k + 1..];
      k := k + 1;
    }
    assert items[k..] == [];
    assert ([(hm, hids)] + groups[next..])[1..] == groups[next..];
    r := CloseRest(groups, next, seen, del, rep);
  }

  /** `n = sum(len(ids) for _, ids in groups)`: the number of saved entries. */
  method CountSaved(groups: seq<Group>) returns (n: nat)
    ensures n == Total(groups)
  {
    n := 0;
    var i := 0;
    while i < |groups|
      invariant 0 <= i <= |groups| && n + Total(groups[i..]) == Total(groups)
    {
      TotalTail(groups, i);
      n := n + |groups[i].1|;
      i := i + 1;
    }
  }

  /** `for _, his_ids in it`: the unseen ids of the groups after the current one are deleted. */
  method CloseRest(groups: seq<Group>, next: nat, seen: set<int>, del: set<int>, rep: seq<Attr>) returns (r: Diff)
    requires next <= |groups|
    ensures r == Done(del + (Ids(groups[next..]) - seen), rep, false)
  {
    var del' := del;
    var j := next;
    while j < |groups|
      invariant next <= j <= |groups|
      invariant del + (Ids(groups[next..]) - seen) == del' + (Ids(groups[j..]) - seen)
    {
      TotalTail(groups, j);
      del' := del' + (groups[j].1 - seen);
      j := j + 1;
    }
    assert groups[j..] == [];
    r := Done(del', rep, false);
  }

  /** The loop body for `items[0]`, already marked seen: closes the groups newer than it,
      then matches, drops or writes it. `stop` is set when `diff_dir` returns here. */
  method MergeEntry(items: seq<Attr>, count: int, groups: seq<Group>, hm: int, hids: set<int>, next: nat,
                    seen: set<int>, del: set<int>, rep: seq<Attr>, n: int)
      returns (stop: bool, r: Diff, hm': int, hids': set<int>, next': nat, del': set<int>, rep': seq<Attr>, n': int)
    requires items != [] && 1 <= next <= |groups| && n == |hids| + Total(groups[next..])
    ensures var p := Pop(AsWritten, items, count, [(hm, hids)] + groups[next..], seen, del, rep);
            && (stop ==> r == p)
            && (!stop ==> && 1 <= next' <= |groups| && n' == |hids'| + Total(groups[next'..])
                          && p == Scan(AsWritten, items[1..], count, [(hm', hids')] + groups[next'..], seen, del', rep'))
  {
    var attr := items[0];
    hm', hids', next', del', rep', n' := hm, hids, next, del, rep, n;
    ghost var p := Pop(AsWritten, items, count, [(hm, hids)] + groups[next..], seen, del, rep);
    while hm' > attr.mtime
      invariant 1 <= next' <= |groups| && n' == |hids'| + Total(groups[next'..])
      invariant p == Pop(AsWritten, items, count, [(hm', hids')] + groups[next'..], seen, del', rep')
      decreases |groups| - next'
    {
      assert ([(hm', hids')] + groups[next'..])[1..] == groups[next'..];
      del' := del' + (hids' - seen);
      n' := n' - |hids'|;
      if n' == 0 {
        return true, Done(del', rep' + items, false), hm', hids', next', del', rep', n';
      }
      // `next(it)` finds a group: the unmatched ids left are in the groups not yet reached
      assert next' < |groups|;
      TotalTail(groups, next');
      hm', hids' := groups[next'].0, groups[next'].1;
      assert [(hm', hids')] + groups[next' + 1..] == groups[next'..];
      next' := next' + 1;
    }
    assert ([(hm', hids')] + groups[next'..])[1..] == groups[next'..];
    if hm' == attr.mtime {
      if attr.id in hids' {
        n' := n' - 1;
        if count - |seen| == n' {
          return true, Done(del', rep', true), hm', hids', next', del', rep', n';
        }
        hids' := hids' - {attr.id};
      }
    } else {
      rep' := rep' + [attr];
    }
    stop, r := false, Done(del', rep', false);
  }
}
