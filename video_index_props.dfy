/** What `load_videos` and `batch_load_videos` promise, stated over the functional model of
    module VideoIndex. */
module VideoIndexProps {
  import opened Common
  import opened PyStr
  import opened VideoIndex

  /** The first request: limit 10000 on a cold start (mark "0"), 32 otherwise; each later
      request has limit 10000 and starts right after the entries the previous request
      returned, the first later one right after the first page's entries. */
  lemma SyncRequests(remote: Remote, cid: string, last: string)
    ensures var r := SyncRun(remote, cid, last);
            && |r.requests| >= 1
            && r.requests[0] == (0, if last == "0" then 10000 else 32)
            && (forall i :: 1 <= i < |r.requests| ==> r.requests[i].1 == 10000)
            && (forall i :: 0 <= i < |r.requests| - 1 ==>
                  r.requests[i] in remote && r.requests[i + 1].0 == r.requests[i].0 + |remote[r.requests[i]].data|)
  {
    var first := (0, FirstPageSize(last));
    if first in remote {
      var resp := remote[first];
      if !FirstRejected(resp, cid) && resp.data != [] && !StrLe(resp.data[0].te, last) {
        SyncRunWalks(remote, cid, last);
        WalkStops(remote, cid, last, resp, 0);
        WalkOffsets(remote, cid, last, resp, 0);
        var t := Walk(remote, cid, last, resp, 0);
        var r := SyncRun(remote, cid, last);
        assert r.requests == [first] + t.requests;
        assert forall i :: 1 <= i < |r.requests| ==> r.requests[i] == t.requests[i - 1];
      }
    }
  }

  /** A first response that failed, names another directory (for a directory other than the
      root) or has count 0: the call returns 0 and neither dictionary changes. */
  lemma RejectedFirstPageChangesNothing(remote: Remote, cid: string, s: Index)
    requires (0, FirstPageSize(MarkOf(s.marks, cid))) in remote
    requires var resp := remote[(0, FirstPageSize(MarkOf(s.marks, cid)))];
             FirstRejected(resp, cid) && !PathRaises(resp, cid)
    ensures Load(remote, cid, s) == Loaded(Synced(0), s)
  {
    assert Pairs([]) == [];
  }

  /** A first response with the state set and an empty `path`, for a directory other than
      the root: `resp["path"][-1]` raises `IndexError`, and neither dictionary changes. */
  lemma EmptyPathRaises(remote: Remote, cid: string, s: Index)
    requires (0, FirstPageSize(MarkOf(s.marks, cid))) in remote
    requires PathRaises(remote[(0, FirstPageSize(MarkOf(s.marks, cid)))], cid)
    ensures Load(remote, cid, s) == Loaded(Failed, s)
  {
    assert Pairs([]) == [];
  }

  /** The newest entry is not above the stored mark: the call returns 0 and nothing changes. */
  lemma UpToDateChangesNothing(remote: Remote, cid: string, s: Index)
    requires (0, FirstPageSize(MarkOf(s.marks, cid))) in remote
    requires var resp := remote[(0, FirstPageSize(MarkOf(s.marks, cid)))];
             !FirstRejected(resp, cid) && resp.data != [] && StrLe(resp.data[0].te, MarkOf(s.marks, cid))
    ensures Load(remote, cid, s) == Loaded(Synced(0), s)
  {
    assert Pairs([]) == [];
  }

  /** The mark is written exactly on the stops that return normally after the first page,
      and always with the newest marker of the first page. */
  lemma MarkIsFirstPageNewest(remote: Remote, cid: string, last: string)
    ensures var r := SyncRun(remote, cid, last);
            && (r.mark.Some? <==> SetsMark(r.stop))
            && (r.mark.Some? ==> var first := (0, FirstPageSize(last));
                                 first in remote && remote[first].data != [] && r.mark.value == remote[first].data[0].te
                                 && StrLt(last, r.mark.value))
  {
    var first := (0, FirstPageSize(last));
    if first in remote {
      var resp := remote[first];
      if !FirstRejected(resp, cid) && resp.data != [] && !StrLe(resp.data[0].te, last) {
        SyncRunWalks(remote, cid, last);
        WalkStops(remote, cid, last, resp, 0);
        NotStrLe(resp.data[0].te, last);
      }
    }
  }

  /** Watermark monotonicity: the mark of the synced directory never goes down, rises
      strictly whenever it is written, and no other directory's mark changes. */
  lemma MarkNeverDecreases(remote: Remote, cid: string, s: Index)
    ensures var a := Load(remote, cid, s).after;
            && StrLe(MarkOf(s.marks, cid), MarkOf(a.marks, cid))
            && (MarkOf(a.marks, cid) != MarkOf(s.marks, cid) ==> StrLt(MarkOf(s.marks, cid), MarkOf(a.marks, cid)))
            && (forall c :: c != cid ==> MarkOf(a.marks, c) == MarkOf(s.marks, c))
  {
    var r := SyncRun(remote, cid, MarkOf(s.marks, cid));
    MarkIsFirstPageNewest(remote, cid, MarkOf(s.marks, cid));
    if r.mark.None? {
      StrLeRefl(MarkOf(s.marks, cid));
    }
  }

  /** The entries each accepted page holds, in listing order, when no entry stops the loop:
      the first page's and those of every later page the loop would accept. */
  function Served(remote: Remote, cid: string, resp: Response, offset: nat): seq<Entry>
    requires resp.data != [] || offset >= resp.count
    decreases Pending(remote, offset)
  {
    var next := offset + |resp.data|;
    if next >= resp.count || (next, Bulk) !in remote then resp.data
    else
      var page := remote[(next, Bulk)];
      if PageRejected(page, cid, next) || (page.data == [] && next < page.count) then resp.data
      else
        PendingShrinks(remote, offset, next);
        resp.data + Served(remote, cid, page, next)
  }

  lemma {:induction false} NewerCountAppend(a: seq<Entry>, b: seq<Entry>, last: string)
    ensures NewerCount(a + b, last)
            == if NewerCount(a, last) < |a| then NewerCount(a, last) else |a| + NewerCount(b, last)
    decreases |a|
  {
    if a == [] {
      assert a + b == b;
    } else {
      assert (a + b)[0] == a[0];
      assert (a + b)[1..] == a[1..] + b;
      if !StrLe(a[0].te, last) {
        NewerCountAppend(a[1..], b, last);
      }
    }
  }

  /** Boundary exactness for the loop from `resp` on: it writes exactly the prefix of the
      served listing that precedes its first entry at or below the mark, and it stops at an
      entry (rather than for a page) exactly when such an entry exists. */
  predicate WritesNewerPrefix(remote: Remote, cid: string, last: string, resp: Response, offset: nat)
    requires resp.data != [] || offset >= resp.count
  {
    var t := Walk(remote, cid, last, resp, offset);
    var listing := Served(remote, cid, resp, offset);
    var k := NewerCount(listing, last);
    && t.written == listing[..k]
    && (t.stop == Boundary <==> k < |listing|)
  }

  lemma {:induction false} WalkWritesNewerPrefix(remote: Remote, cid: string, last: string, resp: Response, offset: nat)
    requires resp.data != [] || offset >= resp.count
    ensures WritesNewerPrefix(remote, cid, last, resp, offset)
    decreases Pending(remote, offset)
  {
    var next := offset + |resp.data|;
    if NewerCount(resp.data, last) < |resp.data| {
      PrefixAtBoundary(remote, cid, last, resp, offset);
    } else if next < resp.count && (next, Bulk) in remote
              && !PageRejected(remote[(next, Bulk)], cid, next)
              && !(remote[(next, Bulk)].data == [] && next < remote[(next, Bulk)].count) {
      PendingShrinks(remote, offset, next);
      WalkWritesNewerPrefix(remote, cid, last, remote[(next, Bulk)], next);
      PrefixAcrossPage(remote, cid, last, resp, offset, next, remote[(next, Bulk)]);
    } else {
      PrefixAtLastPage(remote, cid, last, resp, offset, next);
    }
  }

  lemma PrefixAtBoundary(remote: Remote, cid: string, last: string, resp: Response, offset: nat)
    requires resp.data != [] || offset >= resp.count
    requires NewerCount(resp.data, last) < |resp.data|
    ensures WritesNewerPrefix(remote, cid, last, resp, offset)
  {
    var listing := Served(remote, cid, resp, offset);
    var k0 := NewerCount(resp.data, last);
    WalkBoundary(remote, cid, last, resp, offset);
    var rest := listing[|resp.data|..];
    assert listing == resp.data + rest;
    NewerCountAppend(resp.data, rest, last);
    assert listing[..k0] == resp.data[..k0];
  }

  lemma PrefixAtLastPage(remote: Remote, cid: string, last: string, resp: Response, offset: nat, next: nat)
    requires resp.data != [] || offset >= resp.count
    requires NewerCount(resp.data, last) == |resp.data| && next == offset + |resp.data|
    requires !(next < resp.count && (next, Bulk) in remote
               && !PageRejected(remote[(next, Bulk)], cid, next)
               && !(remote[(next, Bulk)].data == [] && next < remote[(next, Bulk)].count))
    ensures WritesNewerPrefix(remote, cid, last, resp, offset)
  {
    WalkEnd(remote, cid, last, resp, offset, next);
    var listing := Served(remote, cid, resp, offset);
    assert listing == resp.data;
    assert listing[..|resp.data|] == resp.data;
  }

  lemma PrefixAcrossPage(remote: Remote, cid: string, last: string, resp: Response, offset: nat, next: nat, page: Response)
    requires resp.data != [] || offset >= resp.count
    requires NewerCount(resp.data, last) == |resp.data|
    requires next == offset + |resp.data| && next < resp.count
    requires (next, Bulk) in remote && remote[(next, Bulk)] == page
    requires !PageRejected(page, cid, next) && !(page.data == [] && next < page.count)
    requires WritesNewerPrefix(remote, cid, last, page, next)
    ensures WritesNewerPrefix(remote, cid, last, resp, offset)
  {
    WalkStep(remote, cid, last, resp, offset, next, page);
    ServedStep(remote, cid, resp, offset, next, page);
    NewerPrefixAppend(resp.data, Served(remote, cid, page, next), last);
  }

  lemma ServedStep(remote: Remote, cid: string, resp: Response, offset: nat, next: nat, page: Response)
    requires resp.data != [] || offset >= resp.count
    requires next == offset + |resp.data| && next < resp.count
    requires (next, Bulk) in remote && remote[(next, Bulk)] == page
    requires !PageRejected(page, cid, next) && !(page.data == [] && next < page.count)
    ensures Served(remote, cid, resp, offset) == resp.data + Served(remote, cid, page, next)
  {
  }

  /** Entries all newer than the mark, followed by more: the newer prefix runs on into the
      newer prefix of the rest. */
  lemma NewerPrefixAppend(a: seq<Entry>, more: seq<Entry>, last: string)
    requires NewerCount(a, last) == |a|
    ensures var k := NewerCount(more, last);
            && (a + more)[..NewerCount(a + more, last)] == a + more[..k]
            && (NewerCount(a + more, last) < |a + more| <==> k < |more|)
  {
    NewerCountAppend(a, more, last);
    var k := NewerCount(more, last);
    assert (a + more)[..|a| + k] == a + more[..k];
  }

  /** The same for a whole call: every written entry is newer than the mark, the count the
      call returns is the number of `NAME_TO_PICKCODE` writes, and the writes are exactly the
      newer prefix of the served listing. */
  lemma SyncWritesNewerPrefix(remote: Remote, cid: string, s: Index)
    requires var first := (0, FirstPageSize(MarkOf(s.marks, cid)));
             first in remote && !FirstRejected(remote[first], cid) && remote[first].data != []
    ensures var last := MarkOf(s.marks, cid);
            var first := remote[(0, FirstPageSize(last))];
            var r := SyncRun(remote, cid, last);
            var listing := Served(remote, cid, first, 0);
            && r.written == listing[..NewerCount(listing, last)]
            && (forall e :: e in r.written ==> StrLt(last, e.te))
            && (Load(remote, cid, s).outcome.Synced? ==> Load(remote, cid, s).outcome.count == |r.written|)
            && Load(remote, cid, s).after.names == AssignAll(s.names, Pairs(r.written))
  {
    var last := MarkOf(s.marks, cid);
    var first := remote[(0, FirstPageSize(last))];
    var r := SyncRun(remote, cid, last);
    var listing := Served(remote, cid, first, 0);
    if StrLe(first.data[0].te, last) {
      assert r.written == [];
      assert listing[0] == first.data[0];
    } else {
      SyncRunWalks(remote, cid, last);
      WalkWritesNewerPrefix(remote, cid, last, first, 0);
    }
    forall e | e in r.written
      ensures StrLt(last, e.te)
    {
      var j :| 0 <= j < |r.written| && r.written[j] == e;
      assert listing[j] == e;
      NotStrLe(e.te, last);
    }
  }

  /** The listing of the example below: markers 50, 40, 30, 20, 10. */
  function ExampleData(): seq<Entry>
  {
    [Entry("a", "pa", "50"), Entry("b", "pb", "40"), Entry("c", "pc", "30"),
     Entry("d", "pd", "20"), Entry("e", "pe", "10")]
  }

  /** A directory "7" that answers the first request (limit 32) with the whole listing. */
  function ExampleRemote(): Remote
  {
    map[(0, Small) := Response(true, Some("7"), 5, 0, ExampleData())]
  }

  lemma ExampleNewer()
    ensures NewerCount(ExampleData(), "30") == 2
  {
    var data := ExampleData();
    assert !StrLe(data[0].te, "30") && !StrLe(data[1].te, "30") && StrLe(data[2].te, "30");
    assert NewerCount(data[2..], "30") == 0;
    assert data[1..][1..] == data[2..];
  }

  /** Under the mark "30" the sync stops at the boundary after the first request, having
      written the two newer entries, and takes "50" as the new mark. */
  lemma ExampleRun()
    ensures SyncRun(ExampleRemote(), "7", "30")
            == Run(Boundary, [(0, Small)], [Entry("a", "pa", "50"), Entry("b", "pb", "40")], Some("50"))
  {
    var data := ExampleData();
    var remote := ExampleRemote();
    ExampleNewer();
    assert !StrLe(data[0].te, "30");
    SyncRunWalks(remote, "7", "30");
    WalkBoundary(remote, "7", "30", remote[(0, Small)], 0);
    assert data[..2] == [Entry("a", "pa", "50"), Entry("b", "pb", "40")];
  }

  /** Markers [50, 40, 30, 20, 10] under the mark "30": two entries are indexed, the call
      returns 2 and the mark becomes "50". */
  lemma BoundaryExample()
    ensures Load(ExampleRemote(), "7", Index(map["7" := "30"], map[]))
            == Loaded(Synced(2), Index(map["7" := "50"], map["a" := "pa", "b" := "pb"]))
  {
    var written := [Entry("a", "pa", "50"), Entry("b", "pb", "40")];
    var s := Index(map["7" := "30"], map[]);
    assert MarkOf(s.marks, "7") == "30";
    ExampleRun();
    LoadOf(ExampleRemote(), "7", s, Run(Boundary, [(0, Small)], written, Some("50")));
    assert Pairs(written) == [("a", "pa"), ("b", "pb")];
    assert AssignAll(map[], [("a", "pa"), ("b", "pb")]) == map["a" := "pa", "b" := "pb"];
    assert s.marks["7" := "50"] == map["7" := "50"];
  }

  lemma LoadOf(remote: Remote, cid: string, s: Index, r: Run)
    requires SyncRun(remote, cid, MarkOf(s.marks, cid)) == r
    ensures Load(remote, cid, s)
            == Loaded(OutcomeOf(r.stop, |r.written|),
                      Index(if r.mark.Some? then s.marks[cid := r.mark.value] else s.marks,
                            AssignAll(s.names, Pairs(r.written))))
  {
  }

  /** Two responses for the head of the listing, with limits 10000 and 32, that agree on
      everything the first-page checks and the mark look at. */
  predicate HeadStable(remote: Remote)
  {
    && ((0, Bulk) in remote <==> (0, Small) in remote)
    && ((0, Bulk) in remote ==>
          var a := remote[(0, Bulk)];
          var b := remote[(0, Small)];
          && a.state == b.state && a.pathCid == b.pathCid && a.count == b.count
          && (a.data == [] <==> b.data == [])
          && (a.data != [] ==> a.data[0].te == b.data[0].te))
  }

  /** A second call on an unchanged listing after a call that returned normally is a no-op:
      it returns 0 and changes neither dictionary. */
  lemma SecondSyncIsNoOp(remote: Remote, cid: string, s: Index)
    requires HeadStable(remote)
    requires Load(remote, cid, s).outcome.Synced?
    ensures var a := Load(remote, cid, s).after;
            Load(remote, cid, a) == Loaded(Synced(0), a)
  {
    var last := MarkOf(s.marks, cid);
    var r := SyncRun(remote, cid, last);
    var a := Load(remote, cid, s).after;
    MarkIsFirstPageNewest(remote, cid, last);
    var first := (0, FirstPageSize(last));
    if first in remote && !FirstRejected(remote[first], cid) && remote[first].data != []
       && !StrLe(remote[first].data[0].te, last) {
      SyncRunWalks(remote, cid, last);
      WalkStops(remote, cid, last, remote[first], 0);
    }
    if r.mark.Some? {
      var first := remote[(0, FirstPageSize(last))];
      var mark := r.mark.value;
      assert MarkOf(a.marks, cid) == mark;
      var again := remote[(0, FirstPageSize(mark))];
      assert again.data[0].te == mark;
      StrLeRefl(mark);
      UpToDateChangesNothing(remote, cid, a);
    } else {
      assert r.stop == Rejected || r.stop == UpToDate;
      assert r.written == [];
      assert Pairs([]) == [];
      assert a == s;
    }
  }

  /** A name the call wrote resolves, by the `index` route, to the pickcode of its last
      write; a name it did not write resolves as before. */
  lemma SyncedNamesResolve(remote: Remote, cid: string, s: Index, name: string)
    ensures var r := SyncRun(remote, cid, MarkOf(s.marks, cid));
            var names := Load(remote, cid, s).after.names;
            && (LastFor(Pairs(r.written), name).Some? ==>
                  Lookup(names, name, "") == Resolve(LastFor(Pairs(r.written), name).value))
            && (LastFor(Pairs(r.written), name).None? ==> Lookup(names, name, "") == Lookup(s.names, name, ""))
  {
    var r := SyncRun(remote, cid, MarkOf(s.marks, cid));
    AssignAllLastWins(s.names, Pairs(r.written), name);
  }

  /** Marks never decrease over a whole sweep either. */
  lemma {:induction false} SweepMarksNeverDecrease(server: string -> Remote, cids: seq<string>, s: Index, c: string)
    ensures StrLe(MarkOf(s.marks, c), MarkOf(SweepSpec(server, cids, s).1.marks, c))
    decreases |cids|
  {
    if cids == [] {
      StrLeRefl(MarkOf(s.marks, c));
    } else {
      var l := Load(server(cids[0]), cids[0], s);
      MarkNeverDecreases(server(cids[0]), cids[0], s);
      if c != cids[0] {
        assert MarkOf(l.after.marks, c) == MarkOf(s.marks, c);
        StrLeRefl(MarkOf(s.marks, c));
      }
      if !l.outcome.Hangs? {
        SweepMarksNeverDecrease(server, cids[1..], l.after, c);
        StrLeTrans(MarkOf(s.marks, c), MarkOf(l.after.marks, c), MarkOf(SweepSpec(server, cids[1..], l.after).1.marks, c));
      }
    }
  }

  /** A failing directory does not stop the sweep: every directory is tried, in order, each
      on the state the previous ones left, unless one of them never returns. */
  lemma {:induction false} SweepTriesEveryDirectory(server: string -> Remote, cids: seq<string>, s: Index, i: nat)
    requires i < |SweepSpec(server, cids, s).0|
    ensures i < |cids|
    ensures SweepSpec(server, cids, s).0[i]
            == Load(server(cids[i]), cids[i], SweepSpec(server, cids[..i], s).1).outcome
    ensures i < |SweepSpec(server, cids, s).0| - 1 ==> !SweepSpec(server, cids, s).0[i].Hangs?
    decreases |cids|
  {
    SweepStep(server, cids, s);
    var l := Load(server(cids[0]), cids[0], s);
    if i > 0 {
      assert !l.outcome.Hangs?;
      var rest := SweepSpec(server, cids[1..], l.after);
      assert SweepSpec(server, cids, s).0[i] == rest.0[i - 1];
      SweepTriesEveryDirectory(server, cids[1..], l.after, i - 1);
      assert cids[1..][i - 1] == cids[i];
      assert cids[..i][0] == cids[0];
      assert cids[..i][1..] == cids[1..i] == cids[1..][..i - 1];
      SweepStep(server, cids[..i], s);
      assert SweepSpec(server, cids[..i], s).1 == SweepSpec(server, cids[1..i], l.after).1;
    } else {
      assert cids[..0] == [];
    }
  }
}
