/** What `diff_dir` guarantees, as written and with its two gaps closed. */
module DirDiffProps {
  import opened Common
  import opened Normalize
  import opened DirDiff

  // ---------------------------------------------------------------------------
  // Both modes: duplicates, deletions, order of the written entries

  /** The facts every run of the merge keeps, from a state with `seen`, `del` and `rep`. */
  predicate Keeps(items: seq<Attr>, gs: seq<Group>, seen: set<int>, del: set<int>, rep: seq<Attr>, r: Diff)
  {
    && (r.Busy? ==> (r.dup in seen && r.dup in IdSeq(items)) || multiset(IdSeq(items))[r.dup] >= 2)
    && (r.Done? ==> && del <= r.delete
                    && (forall x :: x in r.delete ==> x in del || (x in Ids(gs) && x !in seen))
                    && |rep| <= |r.replace| && r.replace[..|rep|] == rep
                    && Subseq(r.replace[|rep|..], items))
  }

  lemma IdSeqCons(items: seq<Attr>)
    requires items != []
    ensures IdSeq(items) == [items[0].id] + IdSeq(items[1..])
  {
  }

  lemma {:induction false} ScanKeeps(mode: Mode, items: seq<Attr>, count: int, gs: seq<Group>,
                                     seen: set<int>, del: set<int>, rep: seq<Attr>)
    requires gs != []
    ensures Keeps(items, gs, seen, del, rep, Scan(mode, items, count, gs, seen, del, rep))
    decreases |items|, 1, 0
  {
    if items == [] {
      assert rep[|rep|..] == [];
      if mode == AsWritten { IdsTailWithin(gs); }
    } else if items[0].id !in seen {
      var a := items[0];
      PopKeeps(mode, items, count, gs, seen + {a.id}, del, rep);
      IdSeqCons(items);
    }
  }

  /** `Ids(gs[1..])` lies inside `Ids(gs)`. */
  lemma IdsTailWithin(gs: seq<Group>)
    requires gs != []
    ensures Ids(gs[1..]) <= Ids(gs)
  {
  }

  lemma {:induction false} PopKeeps(mode: Mode, items: seq<Attr>, count: int, gs: seq<Group>,
                                    seen: set<int>, del: set<int>, rep: seq<Attr>)
    requires gs != [] && items != []
    ensures var r := Pop(mode, items, count, gs, seen, del, rep);
            && (r.Busy? ==> (r.dup in seen && r.dup in IdSeq(items[1..])) || multiset(IdSeq(items[1..]))[r.dup] >= 2)
            && (r.Done? ==> && del <= r.delete
                            && (forall x :: x in r.delete ==> x in del || (x in Ids(gs) && x !in seen))
                            && |rep| <= |r.replace| && r.replace[..|rep|] == rep
                            && Subseq(r.replace[|rep|..], items))
    decreases |items|, 0, |gs|
  {
    var a := items[0];
    var (hm, hids) := gs[0];
    var r := Pop(mode, items, count, gs, seen, del, rep);
    if hm > a.mtime {
      var del' := del + (hids - seen);
      if Total(gs[1..]) == 0 {
        assert (rep + items)[..|rep|] == rep && (rep + items)[|rep|..] == items;
        SubseqRefl(items);
      } else {
        PopKeeps(mode, items, count, gs[1..], seen, del', rep);
        IdsTailWithin(gs);
      }
    } else if hm == a.mtime && a.id in hids {
      if count - |seen| != Total(gs) - 1 {
        var gs' := [(hm, hids - {a.id})] + gs[1..];
        ScanKeeps(mode, items[1..], count, gs', seen, del, rep);
        assert gs'[1..] == gs[1..];
        if r.Done? {
          SubseqSkip(r.replace[|rep|..], items);
        }
      }
    } else if hm == a.mtime && mode == AsWritten {
      ScanKeeps(mode, items[1..], count, gs, seen, del, rep);
      if r.Done? {
        SubseqSkip(r.replace[|rep|..], items);
      }
    } else {
      ScanKeeps(mode, items[1..], count, gs, seen, del, rep + [a]);
      if r.Done? {
        var s := r.replace[|rep| + 1..];
        assert r.replace[..|rep| + 1] == rep + [a];
        assert r.replace[..|rep|] == rep;
        assert r.replace[|rep|..] == [a] + s;
        assert ([a] + s)[1..] == s;
      }
    }
  }

  lemma {:induction false} DistinctCount(items: seq<Attr>, x: int)
    requires DistinctIds(items)
    ensures multiset(IdSeq(items))[x] <= 1
    decreases |items|
  {
    if items != [] {
      IdSeqCons(items);
      DistinctCount(items[1..], x);
      if items[0].id == x {
        assert x !in IdSeq(items[1..]);
      }
    }
  }

  /** `OSBusyError` is raised only for an id the listing gives twice; a listing without
      repeated ids never raises it. */
  lemma DiffDirBusy(mode: Mode, groups: seq<Group>, count: int, items: seq<Attr>)
    ensures var r := DiffDirSpec(mode, groups, count, items);
            && (r.Busy? ==> multiset(IdSeq(items))[r.dup] >= 2)
            && (DistinctIds(items) ==> !r.Busy?)
  {
    var r := DiffDirSpec(mode, groups, count, items);
    if Total(groups) != 0 {
      ScanKeeps(mode, items, count, groups, {}, {}, []);
      if r.Busy? && DistinctIds(items) {
        DistinctCount(items, r.dup);
      }
    }
  }

  /** Every deleted id is a saved one, and the entries to write are the listing's, in the
      listing's order. */
  lemma DiffDirOutputs(mode: Mode, groups: seq<Group>, count: int, items: seq<Attr>)
    ensures var r := DiffDirSpec(mode, groups, count, items);
            r.Done? ==> r.delete <= Ids(groups) && Subseq(r.replace, items)
  {
    var r := DiffDirSpec(mode, groups, count, items);
    if Total(groups) != 0 {
      ScanKeeps(mode, items, count, groups, {}, {}, []);
      if r.Done? {
        assert r.replace[0..] == r.replace;
        forall x | x in r.delete
          ensures x in Ids(groups)
        {
        }
      }
    } else {
      SubseqRefl(items);
    }
  }

  /** No saved rows: the whole listing is written and nothing deleted. */
  lemma NoSavedRows(mode: Mode, groups: seq<Group>, count: int, items: seq<Attr>)
    requires Total(groups) == 0
    ensures DiffDirSpec(mode, groups, count, items) == Done({}, items, false)
  {
  }

  // ---------------------------------------------------------------------------
  // Both modes, on a listing newest first: which ids are deleted, which entries written

  /** The listing comes newest first, as `o=user_utime` with `asc=0` asks. */
  predicate NewestFirst(items: seq<Attr>)
  {
    forall i, j :: 0 <= i < j < |items| ==> items[i].mtime >= items[j].mtime
  }

  /** Every entry of the listing with id `x` is older than `m`. */
  predicate OlderThan(items: seq<Attr>, x: int, m: int)
  {
    forall i :: 0 <= i < |items| && items[i].id == x ==> items[i].mtime < m
  }

  /** `x` is saved in some group, and the listing has no entry with id `x` at that group's
      mtime or newer. */
  predicate Outdated(items: seq<Attr>, gs: seq<Group>, x: int)
  {
    exists j :: 0 <= j < |gs| && x in gs[j].1 && OlderThan(items, x, gs[j].0)
  }

  /** After the merge from this state: every deletion comes from `del`, or is an id not seen
      yet that is outdated in `gs` against the entries still to come. */
  predicate DeletesOutdated(items: seq<Attr>, gs: seq<Group>, seen: set<int>, del: set<int>, r: Diff)
  {
    r.Done? ==> forall x :: x in r.delete ==> x in del || (x !in seen && Outdated(items, gs, x))
  }

  lemma {:induction false} IdsMember(gs: seq<Group>, x: int)
    requires x in Ids(gs)
    ensures exists j :: 0 <= j < |gs| && x in gs[j].1
    decreases |gs|
  {
    if x !in gs[0].1 {
      IdsMember(gs[1..], x);
      var j :| 0 <= j < |gs[1..]| && x in gs[1..][j].1;
      assert x in gs[j + 1].1;
    }
  }

  /** An id outdated in the later groups is outdated in all of them. */
  lemma OutdatedTail(items: seq<Attr>, gs: seq<Group>, x: int)
    requires gs != [] && Outdated(items, gs[1..], x)
    ensures Outdated(items, gs, x)
  {
    var j :| 0 <= j < |gs[1..]| && x in gs[1..][j].1 && OlderThan(items, x, gs[1..][j].0);
    assert gs[1..][j] == gs[j + 1];
  }

  /** An id outdated against the entries after `items[0]`, and other than its id, is outdated
      against all of them; the groups may have lost ids from their sets. */
  lemma OutdatedCons(items: seq<Attr>, gs: seq<Group>, gs': seq<Group>, x: int)
    requires items != [] && x != items[0].id && Outdated(items[1..], gs', x)
    requires |gs'| == |gs| && forall j :: 0 <= j < |gs| ==> gs'[j].0 == gs[j].0 && gs'[j].1 <= gs[j].1
    ensures Outdated(items, gs, x)
  {
    var j :| 0 <= j < |gs'| && x in gs'[j].1 && OlderThan(items[1..], x, gs'[j].0);
    forall i | 0 <= i < |items| && items[i].id == x
      ensures items[i].mtime < gs[j].0
    {
      assert items[1..][i - 1] == items[i];
    }
  }

  lemma {:induction false} ScanDeletesOutdated(mode: Mode, items: seq<Attr>, count: int, gs: seq<Group>,
                                               seen: set<int>, del: set<int>, rep: seq<Attr>)
    requires gs != [] && NewestFirst(items)
    ensures DeletesOutdated(items, gs, seen, del, Scan(mode, items, count, gs, seen, del, rep))
    decreases |items|, 1, 0
  {
    var r := Scan(mode, items, count, gs, seen, del, rep);
    if items == [] {
      forall x | r.Done? && x in r.delete && x !in del
        ensures Outdated(items, gs, x)
      {
        if mode == AsWritten {
          IdsMember(gs[1..], x);
          var j :| 0 <= j < |gs[1..]| && x in gs[1..][j].1;
          assert x in gs[j + 1].1 && OlderThan(items, x, gs[j + 1].0);
        } else {
          IdsMember(gs, x);
        }
      }
    } else if items[0].id !in seen {
      PopDeletesOutdated(mode, items, count, gs, seen + {items[0].id}, del, rep);
    }
  }

  lemma {:induction false} PopDeletesOutdated(mode: Mode, items: seq<Attr>, count: int, gs: seq<Group>,
                                              seen: set<int>, del: set<int>, rep: seq<Attr>)
    requires gs != [] && items != [] && items[0].id in seen && NewestFirst(items)
    ensures DeletesOutdated(items, gs, seen, del, Pop(mode, items, count, gs, seen, del, rep))
    decreases |items|, 0, |gs|
  {
    var a := items[0];
    var (hm, hids) := gs[0];
    var r := Pop(mode, items, count, gs, seen, del, rep);
    if hm > a.mtime {
      var del' := del + (hids - seen);
      assert forall x :: x in hids - seen ==> OlderThan(items, x, hm) by {
        forall x, i | x in hids - seen && 0 <= i < |items| && items[i].id == x
          ensures items[i].mtime < hm
        {
          assert i != 0;
        }
      }
      if Total(gs[1..]) != 0 {
        PopDeletesOutdated(mode, items, count, gs[1..], seen, del', rep);
        forall x | r.Done? && x in r.delete && x !in del && x !in del'
          ensures Outdated(items, gs, x)
        {
          OutdatedTail(items, gs, x);
        }
      }
      forall x | r.Done? && x in r.delete && x !in del && x in hids - seen
        ensures Outdated(items, gs, x)
      {
        assert x in gs[0].1 && OlderThan(items, x, gs[0].0);
      }
    } else if hm == a.mtime && a.id in hids {
      if count - |seen| != Total(gs) - 1 {
        var gs' := [(hm, hids - {a.id})] + gs[1..];
        ScanDeletesOutdated(mode, items[1..], count, gs', seen, del, rep);
        assert NewestFirst(items[1..]);
        forall x | r.Done? && x in r.delete && x !in del
          ensures Outdated(items, gs, x)
        {
          OutdatedCons(items, gs, gs', x);
        }
      }
    } else {
      var rep' := if hm == a.mtime && mode == AsWritten then rep else rep + [a];
      ScanDeletesOutdated(mode, items[1..], count, gs, seen, del, rep');
      forall x | r.Done? && x in r.delete && x !in del
        ensures Outdated(items, gs, x)
      {
        OutdatedCons(items, gs, gs, x);
      }
    }
  }

  /** On a listing newest first, a saved id is deleted only when it was not seen in the
      listing at its saved mtime or newer: every deleted id belongs to a saved group, and
      each listing entry with that id is older than the group. */
  lemma DiffDirDeletesOutdated(mode: Mode, groups: seq<Group>, count: int, items: seq<Attr>)
    requires NewestFirst(items)
    ensures var r := DiffDirSpec(mode, groups, count, items);
            r.Done? ==> forall x :: x in r.delete ==>
              exists j :: 0 <= j < |groups| && x in groups[j].1 && OlderThan(items, x, groups[j].0)
  {
    if Total(groups) != 0 {
      ScanDeletesOutdated(mode, items, count, groups, {}, {}, []);
    }
  }

  /** The groups still open: strictly descending mtimes, and every group after the current
      one non-empty. */
  predicate OpenGroups(gs: seq<Group>)
  {
    && (forall i :: 1 <= i < |gs| ==> gs[i].1 != {})
    && (forall i, j :: 0 <= i < j < |gs| ==> gs[i].0 > gs[j].0)
  }

  /** `a`'s mtime is none of the groups' mtimes. */
  predicate OffGroups(gs: seq<Group>, a: Attr)
  {
    forall j :: 0 <= j < |gs| ==> a.mtime != gs[j].0
  }

  /** After the merge from this state: every entry written is in `rep`, or is one of the
      entries still to come with an mtime no group in `gs` has. */
  predicate WritesOff(items: seq<Attr>, gs: seq<Group>, rep: seq<Attr>, r: Diff)
  {
    r.Done? ==> forall a :: a in r.replace ==> a in rep || (a in items && OffGroups(gs, a))
  }

  lemma {:induction false} ScanWritesOff(items: seq<Attr>, count: int, gs: seq<Group>,
                                         seen: set<int>, del: set<int>, rep: seq<Attr>)
    requires gs != [] && OpenGroups(gs) && NewestFirst(items)
    ensures WritesOff(items, gs, rep, Scan(AsWritten, items, count, gs, seen, del, rep))
    decreases |items|, 1, 0
  {
    if items != [] && items[0].id !in seen {
      PopWritesOff(items, count, gs, seen + {items[0].id}, del, rep);
    }
  }

  lemma {:induction false} PopWritesOff(items: seq<Attr>, count: int, gs: seq<Group>,
                                        seen: set<int>, del: set<int>, rep: seq<Attr>)
    requires gs != [] && items != [] && OpenGroups(gs) && NewestFirst(items)
    ensures WritesOff(items, gs, rep, Pop(AsWritten, items, count, gs, seen, del, rep))
    decreases |items|, 0, |gs|
  {
    var a := items[0];
    var (hm, hids) := gs[0];
    var r := Pop(AsWritten, items, count, gs, seen, del, rep);
    if hm > a.mtime {
      if Total(gs[1..]) == 0 {
        if |gs| > 1 {
          TotalTail(gs, 1);
        }
      } else {
        assert OpenGroups(gs[1..]) by {
          forall i | 1 <= i < |gs[1..]|
            ensures gs[1..][i].1 != {}
          {
            assert gs[1..][i] == gs[i + 1];
          }
          forall i, j | 0 <= i < j < |gs[1..]|
            ensures gs[1..][i].0 > gs[1..][j].0
          {
            assert gs[1..][i] == gs[i + 1] && gs[1..][j] == gs[j + 1];
          }
        }
        PopWritesOff(items, count, gs[1..], seen, del + (hids - seen), rep);
      }
      forall b | r.Done? && b in r.replace && b !in rep
        ensures b in items && OffGroups(gs, b)
      {
        assert b in items;
        var i :| 0 <= i < |items| && items[i] == b;
        forall j | 0 <= j < |gs|
          ensures b.mtime != gs[j].0
        {
          if j > 0 {
            assert OffGroups(gs[1..], b);
            assert gs[1..][j - 1] == gs[j];
          }
        }
      }
    } else if hm == a.mtime && a.id in hids {
      if count - |seen| != Total(gs) - 1 {
        var gs' := [(hm, hids - {a.id})] + gs[1..];
        assert forall j :: 1 <= j < |gs'| ==> gs'[j] == gs[j];
        ScanWritesOff(items[1..], count, gs', seen, del, rep);
        forall b | r.Done? && b in r.replace && b !in rep
          ensures b in items && OffGroups(gs, b)
        {
          assert OffGroups(gs', b);
          forall j | 0 <= j < |gs|
            ensures b.mtime != gs[j].0
          {
            assert gs'[j].0 == gs[j].0;
          }
        }
      }
    } else if hm == a.mtime {
      ScanWritesOff(items[1..], count, gs, seen, del, rep);
    } else {
      ScanWritesOff(items[1..], count, gs, seen, del, rep + [a]);
    }
  }

  /** As written, on saved groups as `select_mtime_groups` gives them and a listing newest
      first: an entry is written only when its mtime is none of the saved groups' mtimes.
      An entry at a saved mtime whose id is missing from that group is therefore never
      written (compare `EqualMtimeNewcomerIsLost`). */
  lemma DiffDirWritesOffGroups(groups: seq<Group>, count: int, items: seq<Attr>)
    requires SavedGroups(groups) && NewestFirst(items)
    ensures var r := DiffDirSpec(AsWritten, groups, count, items);
            r.Done? ==> forall a :: a in r.replace ==> a in items && OffGroups(groups, a)
  {
    if Total(groups) != 0 {
      ScanWritesOff(items, count, groups, {}, {}, []);
    }
  }

  // ---------------------------------------------------------------------------
  // Intended mode: the diff brings the saved children in line with the listing

  /** After the merge from this state: unseen saved ids absent from the rest of the listing
      are deleted; deletions come from `del` or from unseen ids of `gs`; every entry still to
      come is written or has a saved row with its mtime that is not deleted; and the entries
      already written stay, with only listing entries added. */
  predicate Syncs(items: seq<Attr>, gs: seq<Group>, seen: set<int>, del: set<int>, rep: seq<Attr>, r: Diff)
    requires r.Done?
  {
    && del <= r.delete
    && (forall x :: x in Ids(gs) && x !in seen && x !in IdSeq(items) ==> x in r.delete)
    && (forall x :: x in r.delete ==> x in del || (x in Ids(gs) && x !in seen))
    && (forall a :: a in items ==> a in r.replace || (a.id !in r.delete && Matched(gs, a)))
    && (forall a :: a in r.replace ==> a in rep || a in items)
    && (forall a :: a in rep ==> a in r.replace)
  }

  /** The entries still to come have distinct ids, none of them seen yet. */
  predicate Fresh(items: seq<Attr>, seen: set<int>)
  {
    DistinctIds(items) && forall i :: 0 <= i < |items| ==> items[i].id !in seen
  }

  lemma {:induction false} ScanSyncs(items: seq<Attr>, count: int, gs: seq<Group>,
                                     seen: set<int>, del: set<int>, rep: seq<Attr>)
    requires gs != [] && PairwiseDisjoint(gs) && Fresh(items, seen) && del !! Ids(gs)
    ensures var r := Scan(Intended, items, count, gs, seen, del, rep);
            r.Done? && (r.early || Syncs(items, gs, seen, del, rep, r))
    decreases |items|, 1, 0
  {
    if items != [] {
      var a := items[0];
      assert a.id !in seen;
      PopSyncs(items, count, gs, seen + {a.id}, del, rep);
      var r := Scan(Intended, items, count, gs, seen, del, rep);
      if !r.early {
        forall x | x in Ids(gs) && x !in seen && x !in IdSeq(items)
          ensures x in r.delete
        {
          assert x != a.id;
        }
      }
    }
  }

  lemma {:induction false} PopSyncs(items: seq<Attr>, count: int, gs: seq<Group>,
                                    seen: set<int>, del: set<int>, rep: seq<Attr>)
    requires gs != [] && items != [] && PairwiseDisjoint(gs) && del !! Ids(gs)
    requires items[0].id in seen && Fresh(items[1..], seen) && items[0].id !in IdSeq(items[1..])
    ensures var r := Pop(Intended, items, count, gs, seen, del, rep);
            r.Done? && (r.early || Syncs(items, gs, seen, del, rep, r))
    decreases |items|, 0, |gs|
  {
    var a := items[0];
    var (hm, hids) := gs[0];
    var r := Pop(Intended, items, count, gs, seen, del, rep);
    DisjointTail(gs);
    if hm > a.mtime {
      var del' := del + (hids - seen);
      if Total(gs[1..]) == 0 {
        TotalZero(gs[1..]);
      } else {
        PopSyncs(items, count, gs[1..], seen, del', rep);
        ClosedGroup(items, gs, seen, del, rep, r);
      }
    } else if hm == a.mtime && a.id in hids {
      if count - |seen| != Total(gs) - 1 {
        var gs' := [(hm, hids - {a.id})] + gs[1..];
        ReplaceHead(gs, a.id);
        assert Fresh(items[1..], seen);
        ScanSyncs(items[1..], count, gs', seen, del, rep);
        MatchedEntry(items, gs, gs', seen, del, rep, r);
      }
    } else {
      ScanSyncs(items[1..], count, gs, seen, del, rep + [a]);
      WrittenEntry(items, gs, seen, del, rep, r);
    }
  }

  /** The step that closes the current group. */
  lemma ClosedGroup(items: seq<Attr>, gs: seq<Group>, seen: set<int>, del: set<int>, rep: seq<Attr>, r: Diff)
    requires |gs| > 1 && items != [] && r.Done?
    requires !r.early ==> Syncs(items, gs[1..], seen, del + (gs[0].1 - seen), rep, r)
    ensures !r.early ==> Syncs(items, gs, seen, del, rep, r)
  {
    if !r.early {
      forall a | a in items && Matched(gs[1..], a)
        ensures Matched(gs, a)
      {
      }
    }
  }

  /** The step that matches `items[0]` in the current group. */
  lemma MatchedEntry(items: seq<Attr>, gs: seq<Group>, gs': seq<Group>, seen: set<int>, del: set<int>,
                     rep: seq<Attr>, r: Diff)
    requires gs != [] && items != [] && r.Done? && del !! Ids(gs)
    requires items[0].id in gs[0].1 && gs[0].0 == items[0].mtime && items[0].id in seen
    requires gs' == [(gs[0].0, gs[0].1 - {items[0].id})] + gs[1..]
    requires Ids(gs') <= Ids(gs) && Ids(gs) - {items[0].id} <= Ids(gs')
    requires forall a :: Matched(gs', a) ==> Matched(gs, a)
    requires !r.early ==> Syncs(items[1..], gs', seen, del, rep, r)
    ensures !r.early ==> Syncs(items, gs, seen, del, rep, r)
  {
    if !r.early {
      var a := items[0];
      assert a.id !in r.delete;
      forall x | x in Ids(gs) && x !in seen && x !in IdSeq(items)
        ensures x in r.delete
      {
        assert x != a.id;
        assert x !in IdSeq(items[1..]);
      }
      forall b | b in items
        ensures b in r.replace || (b.id !in r.delete && Matched(gs, b))
      {
        if b != a { assert b in items[1..]; }
      }
      forall b | b in r.replace
        ensures b in rep || b in items
      {
        if b !in rep { assert b in items[1..]; }
      }
    }
  }

  /** The step that writes `items[0]`. */
  lemma WrittenEntry(items: seq<Attr>, gs: seq<Group>, seen: set<int>, del: set<int>, rep: seq<Attr>, r: Diff)
    requires gs != [] && items != [] && r.Done?
    requires !r.early ==> Syncs(items[1..], gs, seen, del, rep + [items[0]], r)
    ensures !r.early ==> Syncs(items, gs, seen, del, rep, r)
  {
    if !r.early {
      var a := items[0];
      forall x | x in Ids(gs) && x !in seen && x !in IdSeq(items)
        ensures x in r.delete
      {
        assert x !in IdSeq(items[1..]);
      }
      forall b | b in items
        ensures b in r.replace || (b.id !in r.delete && Matched(gs, b))
      {
        if b != a { assert b in items[1..]; }
      }
      forall b | b in r.replace
        ensures b in rep || b in items
      {
        if b !in rep && b != a { assert b in items[1..]; }
      }
    }
  }

  /** With the two gaps closed, a merge that runs to its end (rather than trusting the
      count) leaves the saved children exactly as the listing has them: a saved id missing
      from the listing is deleted, only saved ids are deleted, every listed entry is written
      or already saved with its mtime and kept, and only listed entries are written. */
  lemma IntendedDiffSyncs(groups: seq<Group>, count: int, items: seq<Attr>)
    requires PairwiseDisjoint(groups) && DistinctIds(items)
    ensures var r := DiffDirSpec(Intended, groups, count, items);
            && r.Done?
            && (!r.early ==>
                  && (forall x :: x in Ids(groups) && x !in IdSeq(items) ==> x in r.delete)
                  && (forall x :: x in r.delete ==> x in Ids(groups))
                  && (forall a :: a in items ==> a in r.replace || (a.id !in r.delete && Matched(groups, a)))
                  && (forall a :: a in r.replace ==> a in items))
  {
    if Total(groups) == 0 {
      TotalZero(groups);
    } else {
      ScanSyncs(items, count, groups, {}, {}, []);
    }
  }

  // ---------------------------------------------------------------------------
  // As written: the two gaps

  function Row(id: int, mtime: int): Attr
  {
    Attr(id, 0, "", "", 0, "", false, false, 0, mtime)
  }

  /** A new entry with the mtime of a saved group it is not in is neither written nor
      recorded, and the saved id it displaced is not deleted: saved `{5: [1]}`, listing
      `[id 2 at mtime 5]`. With the gaps closed, 2 is written and 1 deleted. */
  lemma EqualMtimeNewcomerIsLost()
    ensures DiffDirSpec(AsWritten, [(5, {1})], 1, [Row(2, 5)]) == Done({}, [], false)
    ensures DiffDirSpec(Intended, [(5, {1})], 1, [Row(2, 5)]) == Done({1}, [Row(2, 5)], false)
  {
    var items := [Row(2, 5)];
    assert items[1..] == [];
    assert Ids([(5, {1})][1..]) == {};
    assert Ids([(5, {1})]) == {1};
  }

  /** Unmatched ids left in the current group when the listing ends are not deleted: saved
      `{5: [1, 3]}`, listing `[id 1 at mtime 5]`. With the gaps closed, 3 is deleted. */
  lemma CurrentGroupLeftoversKept()
    ensures DiffDirSpec(AsWritten, [(5, {1, 3})], 1, [Row(1, 5)]) == Done({}, [], false)
    ensures DiffDirSpec(Intended, [(5, {1, 3})], 1, [Row(1, 5)]) == Done({3}, [], false)
  {
    var items := [Row(1, 5)];
    assert items[1..] == [];
    var gs' := [(5, {1, 3} - {1})];
    assert gs'[1..] == [];
    assert Ids(gs') == {3};
    assert Total([(5, {1, 3})]) == 2;
    assert |{1}| == 1;
  }
}
