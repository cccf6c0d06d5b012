/** What `iterdir` guarantees about the requests it sends and the ways it fails. */
module DirListingProps {
  import opened Common
  import opened Normalize
  import opened DirListing

  /** What `WalkFaults` states of the loop's outcome `t`. */
  predicate FaultsFrom(remote: Remote, id: int, ps: nat, count: int, t: Tail)
  {
    && (forall i :: 0 <= i < |t.requests| ==> t.requests[i].1 == ps)
    && t.end != Raised(NotADirectory)
    && (t.end.Raised? && t.end.fault != Malformed ==>
          |t.requests| > 0 && Fetch(remote, id, count, t.requests[|t.requests| - 1]) == Failed(t.end.fault))
    && (t.end == Hangs ==>
          |t.requests| > 0 && t.requests[|t.requests| - 1] in remote
          && remote[t.requests[|t.requests| - 1]].data == [])
  }

  /** Every request of the paging loop asks for a full page, and every exception other
      than a malformed entry comes from the last request it sent: the loop never reports
      a first-page `NotADirectoryError`, and it hangs only on a request answered empty. */
  lemma {:induction false} WalkFaults(remote: Remote, id: int, ps: nat, count: int, page: Page, offset: nat)
    ensures var t := Walk(remote, id, ps, count, page, offset);
            && (forall i :: 0 <= i < |t.requests| ==> t.requests[i].1 == ps)
            && t.end != Raised(NotADirectory)
            && (t.end.Raised? && t.end.fault != Malformed ==>
                  |t.requests| > 0 && Fetch(remote, id, count, t.requests[|t.requests| - 1]) == Failed(t.end.fault))
            && (t.end == Hangs ==>
                  |t.requests| > 0 && t.requests[|t.requests| - 1] in remote
                  && remote[t.requests[|t.requests| - 1]].data == [])
    decreases Pending(remote, ps, offset), if page.data == [] then 1 else 0
  {
    WalkFaultsFrom(remote, id, ps, count, page, offset);
  }

  lemma {:induction false} WalkFaultsFrom(remote: Remote, id: int, ps: nat, count: int, page: Page, offset: nat)
    ensures FaultsFrom(remote, id, ps, count, Walk(remote, id, ps, count, page, offset))
    decreases Pending(remote, ps, offset), if page.data == [] then 1 else 0
  {
    var next := offset + |page.data|;
    var q := (next, ps);
    if NormalizeAll(page.data).1 && next < count && Fetch(remote, id, count, q).Got?
       && Fetch(remote, id, count, q).page.data != [] {
      var p := Fetch(remote, id, count, q).page;
      PendingShrinks(remote, ps, offset, next);
      WalkFaultsFrom(remote, id, ps, count, p, next);
      WalkStep(remote, id, ps, count, page, offset, p);
      FaultsCons(remote, id, ps, count, q, Walk(remote, id, ps, count, p, next), NormalizeAll(page.data).0);
    } else {
      WalkEnd(remote, id, ps, count, page, offset);
    }
  }

  lemma FaultsCons(remote: Remote, id: int, ps: nat, count: int, q: Request, w: Tail, rows: seq<Attr>)
    requires q.1 == ps && FaultsFrom(remote, id, ps, count, w)
    ensures FaultsFrom(remote, id, ps, count, Tail(w.end, [q] + w.requests, w.path, rows + w.items))
  {
    var t := Tail(w.end, [q] + w.requests, w.path, rows + w.items);
    if |w.requests| > 0 {
      assert t.requests[|t.requests| - 1] == w.requests[|w.requests| - 1];
    }
  }

  /** What `WalkOffsets` states of the requests `t` sent after a page ending at `next`. */
  predicate OffsetsFrom(remote: Remote, count: int, next: nat, t: Tail)
  {
    && (|t.requests| > 0 ==> t.requests[0].0 == next)
    && (forall i :: 0 <= i < |t.requests| - 1 ==>
          && t.requests[i] in remote && remote[t.requests[i]].count == count
          && t.requests[i + 1].0 == t.requests[i].0 + |remote[t.requests[i]].data|)
  }

  /** The offsets of the paging loop: the first request starts right after the entries of
      `page`, each next one right after the entries the previous request returned, and every
      response but possibly the last reports the count of the first. */
  lemma {:induction false} WalkOffsets(remote: Remote, id: int, ps: nat, count: int, page: Page, offset: nat)
    ensures var t := Walk(remote, id, ps, count, page, offset);
            && (|t.requests| > 0 ==> t.requests[0].0 == offset + |page.data|)
            && (forall i :: 0 <= i < |t.requests| - 1 ==>
                  && t.requests[i] in remote && remote[t.requests[i]].count == count
                  && t.requests[i + 1].0 == t.requests[i].0 + |remote[t.requests[i]].data|)
    decreases Pending(remote, ps, offset), if page.data == [] then 1 else 0
  {
    WalkOffsetsFrom(remote, id, ps, count, page, offset);
  }

  lemma {:induction false} WalkOffsetsFrom(remote: Remote, id: int, ps: nat, count: int, page: Page, offset: nat)
    ensures OffsetsFrom(remote, count, offset + |page.data|, Walk(remote, id, ps, count, page, offset))
    decreases Pending(remote, ps, offset), if page.data == [] then 1 else 0
  {
    var next := offset + |page.data|;
    var q := (next, ps);
    if NormalizeAll(page.data).1 && next < count && Fetch(remote, id, count, q).Got?
       && Fetch(remote, id, count, q).page.data != [] {
      var p := Fetch(remote, id, count, q).page;
      PendingShrinks(remote, ps, offset, next);
      WalkOffsetsFrom(remote, id, ps, count, p, next);
      WalkStep(remote, id, ps, count, page, offset, p);
      OffsetsCons(remote, count, q, p, Walk(remote, id, ps, count, p, next), NormalizeAll(page.data).0);
    } else {
      WalkEnd(remote, id, ps, count, page, offset);
    }
  }

  lemma OffsetsCons(remote: Remote, count: int, q: Request, p: Page, w: Tail, rows: seq<Attr>)
    requires q in remote && remote[q] == p && p.count == count
    requires OffsetsFrom(remote, count, q.0 + |p.data|, w)
    ensures OffsetsFrom(remote, count, q.0, Tail(w.end, [q] + w.requests, w.path, rows + w.items))
  {
    var t := Tail(w.end, [q] + w.requests, w.path, rows + w.items);
    forall i | 0 <= i < |t.requests| - 1
      ensures && t.requests[i] in remote && remote[t.requests[i]].count == count
              && t.requests[i + 1].0 == t.requests[i].0 + |remote[t.requests[i]].data|
    {
      if i > 0 {
        assert t.requests[i] == w.requests[i - 1] && t.requests[i + 1] == w.requests[i];
      }
    }
  }

  /** A listing that completes has yielded at least `count` entries past `offset`. */
  lemma {:induction false} WalkCompleteCovers(remote: Remote, id: int, ps: nat, count: int, page: Page, offset: nat)
    ensures var t := Walk(remote, id, ps, count, page, offset);
            t.end == Complete ==> offset + |t.items| >= count
    decreases Pending(remote, ps, offset), if page.data == [] then 1 else 0
  {
    var next := offset + |page.data|;
    var q := (next, ps);
    WalkEnd(remote, id, ps, count, page, offset);
    if NormalizeAll(page.data).1 && next < count && Fetch(remote, id, count, q).Got?
       && Fetch(remote, id, count, q).page.data != [] {
      var p := Fetch(remote, id, count, q).page;
      PendingShrinks(remote, ps, offset, next);
      WalkCompleteCovers(remote, id, ps, count, p, next);
      WalkStep(remote, id, ps, count, page, offset, p);
    }
  }

  /** The first request asks for `min(16, page_size)` entries at offset 0, with a page size
      of 0 or less read as 1024; every later one asks for a full page, the first of them at
      the offset right after the first response's entries. */
  lemma IterDirRequests(remote: Remote, id: int, pageSize: int)
    ensures var l := IterDirSpec(remote, id, pageSize);
            var ps := EffectivePageSize(pageSize);
            && |l.requests| > 0
            && l.requests[0] == (0, if ps < 16 then ps else 16)
            && (forall i :: 1 <= i < |l.requests| ==> l.requests[i].1 == ps)
            && (|l.requests| > 1 ==> (0, Min(FirstLimit, ps)) in remote
                                     && l.requests[1].0 == |remote[(0, Min(FirstLimit, ps))].data|)
  {
    var ps := EffectivePageSize(pageSize);
    var f := Fetch(remote, id, -1, (0, Min(FirstLimit, ps)));
    if f.Got? {
      WalkFaults(remote, id, ps, f.page.count, f.page, 0);
      WalkOffsets(remote, id, ps, f.page.count, f.page, 0);
      var l := IterDirSpec(remote, id, pageSize);
      var t := Walk(remote, id, ps, f.page.count, f.page, 0);
      assert l.requests == [(0, Min(FirstLimit, ps))] + t.requests;
      forall i | 1 <= i < |l.requests|
        ensures l.requests[i].1 == ps
      {
        assert l.requests[i] == t.requests[i - 1];
      }
    }
  }

  /** `NotADirectoryError` comes exactly from a first response that passes `check_response`
      but whose path ends in another directory. */
  lemma NotADirectoryOnFirstPage(remote: Remote, id: int, pageSize: int)
    ensures var l := IterDirSpec(remote, id, pageSize);
            var q0 := (0, Min(FirstLimit, EffectivePageSize(pageSize)));
            l.end == Raised(NotADirectory)
            <==> (q0 in remote && remote[q0].state && remote[q0].path != []
                  && remote[q0].path[|remote[q0].path| - 1].cid != id)
  {
    var ps := EffectivePageSize(pageSize);
    var f := Fetch(remote, id, -1, (0, Min(FirstLimit, ps)));
    if f.Got? {
      WalkFaults(remote, id, ps, f.page.count, f.page, 0);
    }
  }

  /** `FileNotFoundError` and `OSBusyError` come from a later response: its path ends in
      another directory, or it reports a count other than the first response's. */
  lemma LaterPageFaults(remote: Remote, id: int, pageSize: int)
    ensures var l := IterDirSpec(remote, id, pageSize);
            var last := l.requests[|l.requests| - 1];
            && (l.end == Raised(NotFound) ==>
                  |l.requests| > 1 && last in remote && remote[last].path != []
                  && remote[last].path[|remote[last].path| - 1].cid != id)
            && (l.end == Raised(Busy) ==>
                  |l.requests| > 1 && last in remote && remote[last].count != l.count)
  {
    var ps := EffectivePageSize(pageSize);
    var f := Fetch(remote, id, -1, (0, Min(FirstLimit, ps)));
    if f.Got? {
      WalkFaults(remote, id, ps, f.page.count, f.page, 0);
      var l := IterDirSpec(remote, id, pageSize);
      var t := Walk(remote, id, ps, f.page.count, f.page, 0);
      assert l.requests == [(0, Min(FirstLimit, ps))] + t.requests;
      if |t.requests| > 0 {
        assert l.requests[|l.requests| - 1] == t.requests[|t.requests| - 1];
      }
    }
  }

  /** What `WalkStopsAtFailure` states of the loop's outcome `t`. */
  predicate StopsAtFailure(remote: Remote, id: int, count: int, t: Tail)
  {
    && (|t.requests| > 0 ==> count > 0)
    && (forall i :: 0 <= i < |t.requests| - 1 ==> Fetch(remote, id, count, t.requests[i]).Got?)
    && (|t.requests| > 0 && Fetch(remote, id, count, t.requests[|t.requests| - 1]).Failed? ==>
          t.end == Raised(Fetch(remote, id, count, t.requests[|t.requests| - 1]).fault))
  }

  /** The paging loop sends a request only below a positive count, every request but the
      last passes `get_files`, and a last request that fails it ends the listing with
      what it raises. */
  lemma {:induction false} WalkStopsAtFailure(remote: Remote, id: int, ps: nat, count: int, page: Page, offset: nat)
    ensures StopsAtFailure(remote, id, count, Walk(remote, id, ps, count, page, offset))
    decreases Pending(remote, ps, offset), if page.data == [] then 1 else 0
  {
    var next := offset + |page.data|;
    var q := (next, ps);
    if NormalizeAll(page.data).1 && next < count && Fetch(remote, id, count, q).Got?
       && Fetch(remote, id, count, q).page.data != [] {
      var p := Fetch(remote, id, count, q).page;
      PendingShrinks(remote, ps, offset, next);
      WalkStopsAtFailure(remote, id, ps, count, p, next);
      WalkStep(remote, id, ps, count, page, offset, p);
      StopsCons(remote, id, count, q, Walk(remote, id, ps, count, p, next), NormalizeAll(page.data).0);
    } else {
      WalkEnd(remote, id, ps, count, page, offset);
    }
  }

  lemma StopsCons(remote: Remote, id: int, count: int, q: Request, w: Tail, rows: seq<Attr>)
    requires count > 0 && Fetch(remote, id, count, q).Got? && StopsAtFailure(remote, id, count, w)
    ensures StopsAtFailure(remote, id, count, Tail(w.end, [q] + w.requests, w.path, rows + w.items))
  {
    var t := Tail(w.end, [q] + w.requests, w.path, rows + w.items);
    forall i | 0 <= i < |t.requests| - 1
      ensures Fetch(remote, id, count, t.requests[i]).Got?
    {
      if i > 0 { assert t.requests[i] == w.requests[i - 1]; }
    }
    if |w.requests| > 0 {
      assert t.requests[|t.requests| - 1] == w.requests[|w.requests| - 1];
    }
  }

  /** Conversely, a later response that passes `check_response` (state set, a non-empty
      path) but whose path ends in another directory is the last one sent and raises
      `FileNotFoundError`; one that names the directory but reports a count other than the
      first response's is the last one sent and raises `OSBusyError`. */
  lemma LaterPageMismatchRaises(remote: Remote, id: int, pageSize: int, i: nat)
    requires 1 <= i < |IterDirSpec(remote, id, pageSize).requests|
    requires var q := IterDirSpec(remote, id, pageSize).requests[i];
             q in remote && remote[q].state && remote[q].path != []
    ensures var l := IterDirSpec(remote, id, pageSize);
            var p := remote[l.requests[i]];
            && (p.path[|p.path| - 1].cid != id ==> i == |l.requests| - 1 && l.end == Raised(NotFound))
            && (p.path[|p.path| - 1].cid == id && p.count != l.count ==>
                  i == |l.requests| - 1 && l.end == Raised(Busy))
  {
    var ps := EffectivePageSize(pageSize);
    var f := Fetch(remote, id, -1, (0, Min(FirstLimit, ps)));
    var l := IterDirSpec(remote, id, pageSize);
    var t := Walk(remote, id, ps, f.page.count, f.page, 0);
    WalkStopsAtFailure(remote, id, ps, f.page.count, f.page, 0);
    assert l.requests == [(0, Min(FirstLimit, ps))] + t.requests;
    assert l.requests[i] == t.requests[i - 1];
    assert l.requests[|l.requests| - 1] == t.requests[|t.requests| - 1];
  }

  /** A completed listing yields at least as many rows as the first response's count. */
  lemma CompleteListingCovers(remote: Remote, id: int, pageSize: int)
    ensures var l := IterDirSpec(remote, id, pageSize);
            l.end == Complete ==> |l.items| >= l.count
  {
    var ps := EffectivePageSize(pageSize);
    var f := Fetch(remote, id, -1, (0, Min(FirstLimit, ps)));
    if f.Got? {
      WalkCompleteCovers(remote, id, ps, f.page.count, f.page, 0);
    }
  }
}
