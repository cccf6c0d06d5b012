/** The watermark-based name index of video-115-302.py: `load_videos` pages through one
    directory's listing, newest first, writes `name -> pickcode` into the name index and
    advances the directory's high-water mark; `batch_load_videos` runs it over every
    configured directory id; `index` resolves a name or an explicit pickcode.

    The remote listing is an oracle: a finite map from a request `(offset, limit)` to the
    response the server gives. A request whose key is missing stands for a call that
    raises (a transport failure); the exception leaves `load_videos`. */
module VideoIndex {
  import opened Common
  import opened PyStr

  /** Page size of a cold-start first request and of every later request. */
  const Bulk: nat := 10000
  /** Page size of a warm first request. */
  const Small: nat := 32
  /** The mark a directory has before its first successful sync; also the root's id. */
  const Unset: string := "0"

  /** One listing entry: `info["n"]`, `info["pc"]`, `info["te"]`. */
  datatype Entry = Entry(name: string, pickcode: string, te: string)

  /** One response: `state`, the id of the last element of `path` (`None` when `path` is
      empty), `count`, the echoed `offset` and `data`. */
  datatype Response = Response(state: bool, pathCid: Option<string>, count: int, offset: int, data: seq<Entry>)

  type Request = (nat, nat)
  type Remote = map<Request, Response>

  /** Why a sync stopped. Rejected: the first response failed validation; UpToDate: the
      newest marker is not above the mark; Boundary: an entry at or below the mark;
      Exhausted: the offset reached the count; Drifted: a later response failed, names
      another directory or echoes another offset; Raised: a call raised, a response checked
      against a directory other than the root had an empty `path`, or the first page was
      empty while its count was not zero; Spins: a later page came back empty below the
      count, so the same request is repeated forever. */
  datatype Stop = Rejected | UpToDate | Boundary | Exhausted | Drifted | Raised | Spins

  /** The part of a sync after the first page: the later requests and the entries written. */
  datatype Trip = Trip(stop: Stop, requests: seq<Request>, written: seq<Entry>)

  /** A whole sync: every request issued, the entries written in order, and the new mark
      when the sync writes one. */
  datatype Run = Run(stop: Stop, requests: seq<Request>, written: seq<Entry>, mark: Option<string>)

  /** What `load_videos` gives its caller: a count, an exception, or no answer at all. */
  datatype SyncOutcome = Synced(count: nat) | Failed | Hangs

  /** `MAX_MTIME_MAP` and `NAME_TO_PICKCODE` as values. */
  datatype Index = Index(marks: map<string, string>, names: map<string, string>)

  datatype Loaded = Loaded(outcome: SyncOutcome, after: Index)

  /** `MAX_MTIME_MAP.get(cid, "0")`. */
  function MarkOf(marks: map<string, string>, cid: string): string
  {
    if cid in marks then marks[cid] else Unset
  }

  function FirstPageSize(last: string): nat
  {
    if last == Unset then Bulk else Small
  }

  /** `resp["path"][-1]` raises `IndexError`: it is evaluated (the state is set and the
      directory is not the root) on an empty path. */
  predicate PathRaises(resp: Response, cid: string)
  {
    resp.state && cid != Unset && resp.pathCid.None?
  }

  /** The checks of lines 89-91 on the first response. */
  predicate FirstRejected(resp: Response, cid: string)
  {
    !resp.state || (cid != Unset && resp.pathCid != Some(cid)) || resp.count == 0
  }

  /** The checks of lines 110-112 on a later response fetched at `offset`. */
  predicate PageRejected(resp: Response, cid: string, offset: nat)
  {
    !resp.state || (cid != Unset && resp.pathCid != Some(cid)) || offset != resp.offset
  }

  predicate SetsMark(stop: Stop)
  {
    stop == Boundary || stop == Exhausted || stop == Drifted
  }

  /** The number of leading entries whose marker is above `last`. */
  function NewerCount(data: seq<Entry>, last: string): (k: nat)
    ensures k <= |data|
    ensures forall j :: 0 <= j < k ==> !StrLe(data[j].te, last)
    ensures k < |data| ==> StrLe(data[k].te, last)
    decreases |data|
  {
    if data == [] || StrLe(data[0].te, last) then 0 else 1 + NewerCount(data[1..], last)
  }

  /** Bulk requests the remote can still answer beyond `offset`: the walk's measure. */
  function Pending(remote: Remote, offset: nat): nat
  {
    |set q | q in remote.Keys && q.1 == Bulk && q.0 > offset|
  }

  lemma PendingShrinks(remote: Remote, offset: nat, next: nat)
    requires offset < next && (next, Bulk) in remote
    ensures Pending(remote, next) < Pending(remote, offset)
  {
    var a := set q | q in remote.Keys && q.1 == Bulk && q.0 > next;
    var b := set q | q in remote.Keys && q.1 == Bulk && q.0 > offset;
    assert a <= b;
    assert (next, Bulk) in b - a;
    assert b == a + (b - a);
    assert |b - a| >= 1;
  }

  /** An offset that no request the remote answers goes past. */
  ghost function OffsetBound(keys: set<Request>): (b: nat)
    ensures forall q :: q in keys ==> q.0 <= b
    decreases keys
  {
    if keys == {} then 0
    else
      var q := Pick(keys);
      var rest := OffsetBound(keys - {q});
      if q.0 > rest then q.0 else rest
  }

  ghost function Pick(keys: set<Request>): (q: Request)
    requires keys != {}
    ensures q in keys
  {
    var q :| q in keys; q
  }

  /** The loop of lines 98-113 from a response `resp` whose entries start at `offset`. */
  function Walk(remote: Remote, cid: string, last: string, resp: Response, offset: nat): (t: Trip)
    requires resp.data != [] || offset >= resp.count
    decreases Pending(remote, offset)
  {
    var k := NewerCount(resp.data, last);
    if k < |resp.data| then Trip(Boundary, [], resp.data[..k])
    else
      var next := offset + |resp.data|;
      if next >= resp.count then Trip(Exhausted, [], resp.data)
      else if (next, Bulk) !in remote then Trip(Raised, [(next, Bulk)], resp.data)
      else
        var page := remote[(next, Bulk)];
        if PathRaises(page, cid) then Trip(Raised, [(next, Bulk)], resp.data)
        else if PageRejected(page, cid, next) then Trip(Drifted, [(next, Bulk)], resp.data)
        else if page.data == [] && next < page.count then Trip(Spins, [(next, Bulk)], resp.data)
        else
          PendingShrinks(remote, offset, next);
          var w := Walk(remote, cid, last, page, next);
          Trip(w.stop, [(next, Bulk)] + w.requests, resp.data + w.written)
  }

  /** Where the paging loop can stop: never for a reason only the first page gives, and
      after a failed, drifted or spinning request only once that request was issued. Every
      request it issues has limit 10000. */
  lemma {:induction false} WalkStops(remote: Remote, cid: string, last: string, resp: Response, offset: nat)
    requires resp.data != [] || offset >= resp.count
    ensures var t := Walk(remote, cid, last, resp, offset);
            && (forall i :: 0 <= i < |t.requests| ==> t.requests[i].1 == Bulk)
            && (t.stop == Drifted || t.stop == Raised || t.stop == Spins ==> |t.requests| > 0)
            && t.stop != Rejected && t.stop != UpToDate
    decreases Pending(remote, offset)
  {
    var next := offset + |resp.data|;
    if NewerCount(resp.data, last) == |resp.data| && next < resp.count && (next, Bulk) in remote {
      var page := remote[(next, Bulk)];
      if !PageRejected(page, cid, next) && !(page.data == [] && next < page.count) {
        PendingShrinks(remote, offset, next);
        WalkStops(remote, cid, last, page, next);
        WalkStep(remote, cid, last, resp, offset, next, page);
      }
    }
  }

  /** The offsets the paging loop requests: the first right after the entries of `resp`,
      each next one right after the entries the previous request returned. */
  lemma {:induction false} WalkOffsets(remote: Remote, cid: string, last: string, resp: Response, offset: nat)
    requires resp.data != [] || offset >= resp.count
    ensures var t := Walk(remote, cid, last, resp, offset);
            && (|t.requests| > 0 ==> t.requests[0].0 == offset + |resp.data|)
            && (forall i :: 0 <= i < |t.requests| - 1 ==>
                  t.requests[i] in remote && t.requests[i + 1].0 == t.requests[i].0 + |remote[t.requests[i]].data|)
    decreases Pending(remote, offset)
  {
    var next := offset + |resp.data|;
    if NewerCount(resp.data, last) == |resp.data| && next < resp.count && (next, Bulk) in remote {
      var page := remote[(next, Bulk)];
      if !PageRejected(page, cid, next) && !(page.data == [] && next < page.count) {
        PendingShrinks(remote, offset, next);
        WalkOffsets(remote, cid, last, page, next);
        WalkStep(remote, cid, last, resp, offset, next, page);
        var w := Walk(remote, cid, last, page, next);
        var t := Walk(remote, cid, last, resp, offset);
        assert t.requests == [(next, Bulk)] + w.requests;
        forall i | 0 <= i < |t.requests| - 1
          ensures t.requests[i] in remote && t.requests[i + 1].0 == t.requests[i].0 + |remote[t.requests[i]].data|
        {
          if i > 0 {
            assert t.requests[i] == w.requests[i - 1] && t.requests[i + 1] == w.requests[i];
          }
        }
      } else {
        WalkEnd(remote, cid, last, resp, offset, next);
      }
    } else if NewerCount(resp.data, last) == |resp.data| {
      WalkEnd(remote, cid, last, resp, offset, next);
    }
  }

  /** `load_videos` on a directory whose stored mark is `last`. */
  function SyncRun(remote: Remote, cid: string, last: string): (r: Run)
  {
    var first := (0, FirstPageSize(last));
    if first !in remote then Run(Raised, [first], [], None)
    else
      var resp := remote[first];
      if PathRaises(resp, cid) then Run(Raised, [first], [], None)
      else if FirstRejected(resp, cid) then Run(Rejected, [first], [], None)
      else if resp.data == [] then Run(Raised, [first], [], None)
      else if StrLe(resp.data[0].te, last) then Run(UpToDate, [first], [], None)
      else
        var t := Walk(remote, cid, last, resp, 0);
        Run(t.stop, [first] + t.requests, t.written, if SetsMark(t.stop) then Some(resp.data[0].te) else None)
  }

  function Pairs(es: seq<Entry>): (ps: seq<(string, string)>)
    ensures |ps| == |es|
    ensures forall i :: 0 <= i < |es| ==> ps[i] == (es[i].name, es[i].pickcode)
  {
    seq(|es|, i requires 0 <= i < |es| => (es[i].name, es[i].pickcode))
  }

  /** How one turn of the paging loop ends: with the page to continue from, or stopped. */
  datatype Turn = Next(page: Response, at: nat) | Stopped(stop: Stop)

  /** What the caller sees of a sync that stopped for `stop` after `n` writes. */
  function OutcomeOf(stop: Stop, n: nat): SyncOutcome
  {
    match stop
    case Raised => Failed
    case Spins => Hangs
    case _ => Synced(n)
  }

  /** The effect of one `load_videos(client, cid)` call on both dictionaries. */
  function Load(remote: Remote, cid: string, s: Index): Loaded
  {
    var r := SyncRun(remote, cid, MarkOf(s.marks, cid));
    Loaded(OutcomeOf(r.stop, |r.written|),
           Index(if r.mark.Some? then s.marks[cid := r.mark.value] else s.marks,
                 AssignAll(s.names, Pairs(r.written))))
  }

  /** One pass of the `for cid in cids` loop of `batch_load_videos`. An exception from one
      directory is logged and the next directory is tried; a directory whose sync never
      returns holds the sweep there. */
  function SweepSpec(server: string -> Remote, cids: seq<string>, s: Index): (r: (seq<SyncOutcome>, Index))
    ensures |r.0| <= |cids|
    ensures forall i :: 0 <= i < |r.0| - 1 ==> !r.0[i].Hangs?
    ensures |r.0| < |cids| ==> |r.0| > 0 && r.0[|r.0| - 1].Hangs?
    ensures (forall i :: 0 <= i < |r.0| ==> !r.0[i].Hangs?) ==> |r.0| == |cids|
    decreases |cids|
  {
    if cids == [] then ([], s)
    else
      var l := Load(server(cids[0]), cids[0], s);
      if l.outcome.Hangs? then ([l.outcome], l.after)
      else
        var rest := SweepSpec(server, cids[1..], l.after);
        ([l.outcome] + rest.0, rest.1)
  }

  /** The decision of the `index` route before a link is requested. */
  datatype Resolution = NotFound | Resolve(pickcode: string)

  /** A non-empty explicit pickcode is used as it is; otherwise the name is looked up, and a
      name missing from the index is answered with 404. */
  function Lookup(names: map<string, string>, name: string, pickcode: string): (r: Resolution)
    ensures pickcode != "" ==> r == Resolve(pickcode)
    ensures pickcode == "" ==> (r.NotFound? <==> name !in names)
    ensures pickcode == "" && name in names ==> r == Resolve(names[name])
  {
    if pickcode != "" then Resolve(pickcode)
    else if name in names then Resolve(names[name])
    else NotFound
  }

  /** `t` preceded by requests already issued and entries already written. */
  function Cat(reqs: seq<Request>, done: seq<Entry>, t: Trip): Trip
  {
    Trip(t.stop, reqs + t.requests, done + t.written)
  }

  lemma CatStep(reqs: seq<Request>, done: seq<Entry>, page: seq<Entry>, q: Request, w: Trip)
    ensures Cat(reqs, done, Trip(w.stop, [q] + w.requests, page + w.written)) == Cat(reqs + [q], done + page, w)
  {
    assert reqs + ([q] + w.requests) == (reqs + [q]) + w.requests;
    assert done + (page + w.written) == (done + page) + w.written;
  }

  lemma NamesExtend(m: map<string, string>, done: seq<Entry>, page: seq<Entry>)
    ensures AssignAll(AssignAll(m, Pairs(done)), Pairs(page)) == AssignAll(m, Pairs(done + page))
  {
    AssignAllAppend(m, Pairs(done), Pairs(page));
    assert Pairs(done + page) == Pairs(done) + Pairs(page);
  }

  lemma WalkBoundary(remote: Remote, cid: string, last: string, resp: Response, offset: nat)
    requires resp.data != [] || offset >= resp.count
    requires NewerCount(resp.data, last) < |resp.data|
    ensures Walk(remote, cid, last, resp, offset) == Trip(Boundary, [], resp.data[..NewerCount(resp.data, last)])
  {
  }

  lemma WalkStep(remote: Remote, cid: string, last: string, resp: Response, offset: nat, next: nat, page: Response)
    requires resp.data != [] || offset >= resp.count
    requires NewerCount(resp.data, last) == |resp.data|
    requires next == offset + |resp.data| && next < resp.count
    requires (next, Bulk) in remote && remote[(next, Bulk)] == page
    requires !PageRejected(page, cid, next) && !(page.data == [] && next < page.count)
    ensures var w := Walk(remote, cid, last, page, next);
            Walk(remote, cid, last, resp, offset) == Trip(w.stop, [(next, Bulk)] + w.requests, resp.data + w.written)
  {
    assert !(NewerCount(resp.data, last) < |resp.data|);
  }

  /** The ways a walk stops after a page whose entries are all newer than the mark. */
  lemma WalkEnd(remote: Remote, cid: string, last: string, resp: Response, offset: nat, next: nat)
    requires resp.data != [] || offset >= resp.count
    requires NewerCount(resp.data, last) == |resp.data|
    requires next == offset + |resp.data|
    ensures var t := Walk(remote, cid, last, resp, offset);
            && (next >= resp.count ==> t == Trip(Exhausted, [], resp.data))
            && (next < resp.count && (next, Bulk) !in remote ==> t == Trip(Raised, [(next, Bulk)], resp.data))
            && (next < resp.count && (next, Bulk) in remote && PathRaises(remote[(next, Bulk)], cid) ==>
                  t == Trip(Raised, [(next, Bulk)], resp.data))
            && (next < resp.count && (next, Bulk) in remote && !PathRaises(remote[(next, Bulk)], cid)
                && PageRejected(remote[(next, Bulk)], cid, next) ==>
                  t == Trip(Drifted, [(next, Bulk)], resp.data))
            && (next < resp.count && (next, Bulk) in remote && !PageRejected(remote[(next, Bulk)], cid, next) &&
                remote[(next, Bulk)].data == [] && next < remote[(next, Bulk)].count ==>
                  t == Trip(Spins, [(next, Bulk)], resp.data))
  {
    assert !(NewerCount(resp.data, last) < |resp.data|);
  }

  /** `load_videos` once the first page has passed its checks and is newer than the mark. */
  lemma SyncRunWalks(remote: Remote, cid: string, last: string)
    requires (0, FirstPageSize(last)) in remote
    requires var resp := remote[(0, FirstPageSize(last))];
             !FirstRejected(resp, cid) && resp.data != [] && !StrLe(resp.data[0].te, last)
    ensures var resp := remote[(0, FirstPageSize(last))];
            var t := Walk(remote, cid, last, resp, 0);
            SyncRun(remote, cid, last)
            == Run(t.stop, [(0, FirstPageSize(last))] + t.requests, t.written,
                   if SetsMark(t.stop) then Some(resp.data[0].te) else None)
  {
  }

  /** The rest of a sweep after the outcomes already collected. */
  function Prefixed(done: seq<SyncOutcome>, rest: (seq<SyncOutcome>, Index)): (seq<SyncOutcome>, Index)
  {
    (done + rest.0, rest.1)
  }

  lemma PrefixedStep(done: seq<SyncOutcome>, o: SyncOutcome, rest: (seq<SyncOutcome>, Index))
    ensures Prefixed(done, ([o] + rest.0, rest.1)) == Prefixed(done + [o], rest)
  {
    assert done + ([o] + rest.0) == (done + [o]) + rest.0;
  }

  lemma SweepStep(server: string -> Remote, cids: seq<string>, s: Index)
    requires cids != []
    ensures var l := Load(server(cids[0]), cids[0], s);
            SweepSpec(server, cids, s)
            == if l.outcome.Hangs? then ([l.outcome], l.after)
               else ([l.outcome] + SweepSpec(server, cids[1..], l.after).0, SweepSpec(server, cids[1..], l.after).1)
  {
  }

  /** The process-wide dictionaries and the operations that update them in place. */
  class Indexer {
    var maxMtimeMap: map<string, string>
    var nameToPickcode: map<string, string>

    function Snapshot(): Index
      reads this
    {
      Index(maxMtimeMap, nameToPickcode)
    }

    /** An empty mark map and a name index that may start from a stored one. */
    constructor (stored: map<string, string>)
      ensures maxMtimeMap == map[] && nameToPickcode == stored
    {
      maxMtimeMap := map[];
      nameToPickcode := stored;
    }

    /** The `for info in resp["data"]` loop: writes the entries above the mark, in order,
        and stops at the first one at or below it. */
    method IndexPage(data: seq<Entry>, last: string) returns (written: nat)
      modifies this`nameToPickcode
      ensures written == NewerCount(data, last)
      ensures nameToPickcode == AssignAll(old(nameToPickcode), Pairs(data[..written]))
    {
      written := 0;
      while written < |data|
        invariant written <= NewerCount(data, last)
        invariant nameToPickcode == AssignAll(old(nameToPickcode), Pairs(data[..written]))
      {
        var info := data[written];
        if StrLe(info.te, last) {
          return;
        }
        AssignAllSnoc(old(nameToPickcode), Pairs(data[..written]), (info.name, info.pickcode));
        assert Pairs(data[..written + 1]) == Pairs(data[..written]) + [(info.name, info.pickcode)];
        nameToPickcode := nameToPickcode[info.name := info.pickcode];
        written := written + 1;
      }
    }

    method LoadVideos(remote: Remote, cid: string) returns (outcome: SyncOutcome)
      modifies this
      ensures var r := SyncRun(remote, cid, MarkOf(old(maxMtimeMap), cid));
              && outcome == OutcomeOf(r.stop, |r.written|)
              && maxMtimeMap == (if r.mark.Some? then old(maxMtimeMap)[cid := r.mark.value] else old(maxMtimeMap))
              && nameToPickcode == AssignAll(old(nameToPickcode), Pairs(r.written))
    {
      var last := if cid in maxMtimeMap then maxMtimeMap[cid] else Unset;
      var pageSize := if last == Unset then Bulk else Small;
      if (0, pageSize) !in remote {
        return Failed;
      }
      var resp := remote[(0, pageSize)];
      if resp.state && cid != Unset && resp.pathCid.None? {
        // `resp["path"][-1]` raises IndexError
        return Failed;
      }
      if !resp.state || (cid != Unset && resp.pathCid != Some(cid)) || resp.count == 0 {
        return Synced(0);
      }
      if |resp.data| == 0 {
        // `resp["data"][0]` raises IndexError
        return Failed;
      }
      var thisMax := resp.data[0].te;
      if StrLe(thisMax, last) {
        return Synced(0);
      }
      SyncRunWalks(remote, cid, last);
      outcome := FollowPages(remote, cid, last, thisMax, resp);
    }

    /** `load_videos` after the first page has passed its checks: the paging loop, then the
        mark on every stop that returns normally. */
    method FollowPages(remote: Remote, cid: string, last: string, thisMax: string, first: Response)
        returns (outcome: SyncOutcome)
      requires first.data != []
      modifies this
      ensures var t := Walk(remote, cid, last, first, 0);
              && outcome == OutcomeOf(t.stop, |t.written|)
              && nameToPickcode == AssignAll(old(nameToPickcode), Pairs(t.written))
              && maxMtimeMap == if SetsMark(t.stop) then old(maxMtimeMap)[cid := thisMax] else old(maxMtimeMap)
    {
      var stop, count := PageLoop(remote, cid, last, first);
      WalkStops(remote, cid, last, first, 0);
      if stop == Raised {
        return Failed;
      } else if stop == Spins {
        // the same request would be sent again and again
        return Hangs;
      }
      maxMtimeMap := maxMtimeMap[cid := thisMax];
      return Synced(count);
    }

    /** The `while True` loop of `load_videos`: writes the newer entries page by page and
        reports why and after how many writes it stopped. */
    method PageLoop(remote: Remote, cid: string, last: string, first: Response) returns (stop: Stop, count: nat)
      requires first.data != []
      modifies this`nameToPickcode
      ensures var t := Walk(remote, cid, last, first, 0);
              && stop == t.stop && count == |t.written|
              && nameToPickcode == AssignAll(old(nameToPickcode), Pairs(t.written))
    {
      ghost var m0 := nameToPickcode;
      ghost var whole := Walk(remote, cid, last, first, 0);
      ghost var reqs: seq<Request> := [];
      ghost var done: seq<Entry> := [];
      var resp := first;
      count := 0;
      var offset: nat := 0;
      ghost var bound := OffsetBound(remote.Keys);
      while true
        invariant resp.data != [] || offset >= resp.count
        invariant whole == Cat(reqs, done, Walk(remote, cid, last, resp, offset))
        invariant nameToPickcode == AssignAll(m0, Pairs(done))
        invariant count == |done|
        invariant offset <= bound
        decreases bound - offset
      {
        var n, turn := TakePage(remote, cid, last, resp, offset, m0, done, reqs, whole);
        count := count + n;
        if turn.Stopped? {
          done := done + resp.data[..n];
          stop := turn.stop;
          break;
        }
        assert resp.data[..n] == resp.data;
        done := done + resp.data;
        reqs := reqs + [(turn.at, Bulk)];
        resp, offset := turn.page, turn.at;
      }
      assert whole.stop == stop && whole.written == done;
    }

    /** One turn of that loop: the entries of `resp` above the mark are written; then either
        the walk stops, or the next page is requested and passes its checks. */
    method TakePage(remote: Remote, cid: string, last: string, resp: Response, offset: nat,
                    ghost m0: map<string, string>, ghost done: seq<Entry>, ghost reqs: seq<Request>, ghost whole: Trip)
        returns (n: nat, turn: Turn)
      requires resp.data != [] || offset >= resp.count
      requires nameToPickcode == AssignAll(m0, Pairs(done))
      requires whole == Cat(reqs, done, Walk(remote, cid, last, resp, offset))
      modifies this`nameToPickcode
      ensures n <= |resp.data|
      ensures nameToPickcode == AssignAll(m0, Pairs(done + resp.data[..n]))
      ensures turn.Stopped? ==> whole.stop == turn.stop && whole.written == done + resp.data[..n]
                                && turn.stop != Rejected && turn.stop != UpToDate
      ensures turn.Next? ==> && n == |resp.data| && turn.at == offset + |resp.data|
                             && (turn.at, Bulk) in remote && remote[(turn.at, Bulk)] == turn.page
                             && (turn.page.data != [] || turn.at >= turn.page.count)
                             && whole == Cat(reqs + [(turn.at, Bulk)], done + resp.data, Walk(remote, cid, last, turn.page, turn.at))
    {
      n := IndexPage(resp.data, last);
      NamesExtend(m0, done, resp.data[..n]);
      if n < |resp.data| {
        WalkBoundary(remote, cid, last, resp, offset);
        return n, Stopped(Boundary);
      }
      assert resp.data[..n] == resp.data;
      var next := offset + |resp.data|;
      WalkEnd(remote, cid, last, resp, offset, next);
      if next >= resp.count {
        return n, Stopped(Exhausted);
      }
      if (next, Bulk) !in remote {
        return n, Stopped(Raised);
      }
      var page := remote[(next, Bulk)];
      if page.state && cid != Unset && page.pathCid.None? {
        return n, Stopped(Raised);
      }
      if !page.state || (cid != Unset && page.pathCid != Some(cid)) || next != page.offset {
        return n, Stopped(Drifted);
      }
      if page.data == [] && next < page.count {
        return n, Stopped(Spins);
      }
      WalkStep(remote, cid, last, resp, offset, next, page);
      CatStep(reqs, done, resp.data, (next, Bulk), Walk(remote, cid, last, page, next));
      return n, Next(page, next);
    }

    method Sweep(server: string -> Remote, cids: seq<string>) returns (outcomes: seq<SyncOutcome>)
      modifies this
      ensures (outcomes, Snapshot()) == SweepSpec(server, cids, old(Snapshot()))
    {
      ghost var whole := SweepSpec(server, cids, Snapshot());
      outcomes := [];
      var i := 0;
      assert cids[0..] == cids;
      assert [] + whole.0 == whole.0;
      assert Prefixed([], whole) == whole;
      while i < |cids|
        invariant 0 <= i <= |cids|
        invariant whole == Prefixed(outcomes, SweepSpec(server, cids[i..], Snapshot()))
      {
        var cid := cids[i];
        ghost var before := Snapshot();
        SweepStep(server, cids[i..], before);
        var outcome := LoadVideos(server(cid), cid);
        assert Loaded(outcome, Snapshot()) == Load(server(cid), cid, before);
        if outcome.Hangs? {
          outcomes := outcomes + [outcome];
          assert outcomes == outcomes + [];
          return;
        }
        PrefixedStep(outcomes, outcome, SweepSpec(server, cids[i + 1..], Snapshot()));
        outcomes := outcomes + [outcome];
        i := i + 1;
      }
      assert cids[i..] == [];
      assert outcomes + [] == outcomes;
    }

    method Route(name: string, pickcode: string) returns (r: Resolution)
      ensures r == Lookup(nameToPickcode, name, pickcode)
    {
      if pickcode == "" {
        if name !in nameToPickcode {
          return NotFound;
        }
        return Resolve(nameToPickcode[name]);
      }
      return Resolve(pickcode);
    }
  }
}
