/** `iterdir` of updatedb.py: the listing of one directory, newest first, fetched page by
    page. The first request asks for at most 16 entries, every later one for a full page;
    every response must name the directory as the last element of its path and report the
    count the first response reported.

    The remote is an oracle: a finite map from a request `(offset, limit)` to the response.
    A request whose key is missing stands for a call that raises. */
module DirListing {
  import opened Common
  import opened Normalize

  const DefaultPageSize: nat := 1024
  const FirstLimit: nat := 16

  /** One element of a response's `path`: `cid`, `pid` and `name`. */
  datatype PathItem = PathItem(cid: int, pid: int, name: string)

  /** One response: whether it passes `check_response`, `path`, `count` and `data`. */
  datatype Page = Page(state: bool, path: seq<PathItem>, count: int, data: seq<RawInfo>)

  type Request = (nat, nat)
  type Remote = map<Request, Page>

  /** One element of the ancestor list handed to the caller. */
  datatype Ancestor = Ancestor(id: int, parentId: int, name: string)

  /** Why a listing raises. Refused: the call raised or `check_response` rejected the
      response; Malformed: an empty `path` or an entry without a required key;
      NotADirectory / NotFound: the path names another directory, on the first page /
      on a later one; Busy: a later page reports another count. */
  datatype Fault = Refused | Malformed | NotADirectory | NotFound | Busy

  /** How the listing ends: every entry yielded, an exception, or the same request sent
      again and again. */
  datatype End = Complete | Raised(fault: Fault) | Hangs

  /** `get_files` on the response to one request: the response, or what it raises. */
  datatype Fetched = Got(page: Page) | Failed(fault: Fault)

  /** The whole listing: how it ends, the count, every request, the ancestors of the last
      response and the entries yielded before the end. */
  datatype Listing = Listing(end: End, count: int, requests: seq<Request>, ancestors: seq<Ancestor>, items: seq<Attr>)

  /** The part of a listing from one response on. */
  datatype Tail = Tail(end: End, requests: seq<Request>, path: seq<PathItem>, items: seq<Attr>)

  /** `page_size` after `if page_size <= 0: page_size = 1024`. */
  function EffectivePageSize(pageSize: int): (ps: nat)
    ensures ps > 0
    ensures pageSize > 0 ==> ps == pageSize
    ensures pageSize <= 0 ==> ps == DefaultPageSize
  {
    if pageSize <= 0 then DefaultPageSize else pageSize
  }

  function Min(a: nat, b: nat): nat { if a < b then a else b }

  /** `get_files` with the count seen so far (`-1` before the first response). */
  function Fetch(remote: Remote, id: int, count: int, q: Request): (r: Fetched)
    ensures r.Got? ==> q in remote && r.page == remote[q] && r.page.path != []
    ensures r.Got? ==> r.page.path[|r.page.path| - 1].cid == id
    ensures r.Got? && count >= 0 ==> r.page.count == count
    ensures r == Failed(NotADirectory) ==> count < 0
    ensures r == Failed(NotFound) ==> count >= 0
    ensures r == Failed(Busy) ==> count >= 0 && q in remote && remote[q].count != count
  {
    if q !in remote || !remote[q].state then Failed(Refused)
    else
      var page := remote[q];
      if page.path == [] then Failed(Malformed)
      else if page.path[|page.path| - 1].cid != id then
        if count < 0 then Failed(NotADirectory) else Failed(NotFound)
      else if count >= 0 && count != page.count then Failed(Busy)
      else Got(page)
  }

  /** `ancestors` after a response with this path: the root, then one element per path
      element after the first. */
  function Ancestors(path: seq<PathItem>): (a: seq<Ancestor>)
    ensures |a| == if path == [] then 1 else |path|
    ensures a[0] == Ancestor(0, 0, "")
    ensures forall i :: 1 <= i < |a| ==> a[i] == Ancestor(path[i].cid, path[i].pid, path[i].name)
  {
    [Ancestor(0, 0, "")] + seq(if path == [] then 0 else |path| - 1,
                               i requires 0 <= i < |path| - 1 =>
                                 Ancestor(path[i + 1].cid, path[i + 1].pid, path[i + 1].name))
  }

  /** `map(normalize_attr, data)` consumed up to the first entry that raises: the rows
      before it, and whether every entry was converted. */
  function NormalizeAll(data: seq<RawInfo>): (r: (seq<Attr>, bool))
    ensures |r.0| <= |data|
    ensures forall i :: 0 <= i < |r.0| ==> NormalizeAttr(data[i]) == Some(r.0[i])
    ensures r.1 <==> |r.0| == |data|
    ensures !r.1 ==> NormalizeAttr(data[|r.0|]).None?
    decreases |data|
  {
    if data == [] then ([], true)
    else
      var a := NormalizeAttr(data[0]);
      if a.None? then ([], false)
      else
        var rest := NormalizeAll(data[1..]);
        ([a.value] + rest.0, rest.1)
  }

  /** Full-page requests the remote can still answer beyond `offset`. */
  function Pending(remote: Remote, ps: nat, offset: nat): nat
  {
    |set q | q in remote.Keys && q.1 == ps && q.0 > offset|
  }

  lemma PendingShrinks(remote: Remote, ps: nat, offset: nat, next: nat)
    requires offset <= next && (next, ps) in remote
    ensures Pending(remote, ps, next) <= Pending(remote, ps, offset)
    ensures offset < next ==> Pending(remote, ps, next) < Pending(remote, ps, offset)
  {
    var a := set q | q in remote.Keys && q.1 == ps && q.0 > next;
    var b := set q | q in remote.Keys && q.1 == ps && q.0 > offset;
    assert a <= b;
    assert b == a + (b - a);
    if offset < next {
      assert (next, ps) in b - a;
      assert |b - a| >= 1;
    }
  }

  /** The `while True` loop of `iter` from a response whose entries start at `offset`:
      yield its entries, stop once the offset reaches the count, otherwise fetch the next
      full page at the new offset. An empty response below the count leaves the offset
      where it is, so the loop sends the request that was answered empty again and again. */
  function Walk(remote: Remote, id: int, ps: nat, count: int, page: Page, offset: nat): (t: Tail)
    decreases Pending(remote, ps, offset), if page.data == [] then 1 else 0
  {
    var (items, whole) := NormalizeAll(page.data);
    if !whole then Tail(Raised(Malformed), [], page.path, items)
    else
      var next := offset + |page.data|;
      if next >= count then Tail(Complete, [], page.path, items)
      else
        var q := (next, ps);
        var f := Fetch(remote, id, count, q);
        if f.Failed? then Tail(Raised(f.fault), [q], page.path, items)
        else if f.page.data == [] then Tail(Hangs, [q], f.page.path, items)
        else
          PendingShrinks(remote, ps, offset, next);
          var w := Walk(remote, id, ps, count, f.page, next);
          Tail(w.end, [q] + w.requests, w.path, items + w.items)
  }

  /** `iterdir(client, id, page_size)` with its iterator run to the end. */
  function IterDirSpec(remote: Remote, id: int, pageSize: int): (l: Listing)
  {
    var ps := EffectivePageSize(pageSize);
    var q0 := (0, Min(FirstLimit, ps));
    var f := Fetch(remote, id, -1, q0);
    if f.Failed? then Listing(Raised(f.fault), -1, [q0], [], [])
    else
      var t := Walk(remote, id, ps, f.page.count, f.page, 0);
      Listing(t.end, f.page.count, [q0] + t.requests, Ancestors(t.path), t.items)
  }

  /** `t` preceded by requests already sent and entries already yielded. */
  function Cat(reqs: seq<Request>, done: seq<Attr>, t: Tail): Tail
  {
    Tail(t.end, reqs + t.requests, t.path, done + t.items)
  }

  /** One turn of the loop that fetches a next page with entries. */
  lemma WalkStep(remote: Remote, id: int, ps: nat, count: int, page: Page, offset: nat, next: Page)
    requires NormalizeAll(page.data).1 && offset + |page.data| < count
    requires Fetch(remote, id, count, (offset + |page.data|, ps)) == Got(next) && next.data != []
    ensures var w := Walk(remote, id, ps, count, next, offset + |page.data|);
            Walk(remote, id, ps, count, page, offset)
            == Tail(w.end, [(offset + |page.data|, ps)] + w.requests, w.path, NormalizeAll(page.data).0 + w.items)
  {
  }

  /** The turns of the loop that end the listing. */
  lemma WalkEnd(remote: Remote, id: int, ps: nat, count: int, page: Page, offset: nat)
    ensures var t := Walk(remote, id, ps, count, page, offset);
            var (items, whole) := NormalizeAll(page.data);
            var q := (offset + |page.data|, ps);
            && (!whole ==> t == Tail(Raised(Malformed), [], page.path, items))
            && (whole && offset + |page.data| >= count ==> t == Tail(Complete, [], page.path, items))
            && (whole && offset + |page.data| < count && Fetch(remote, id, count, q).Failed? ==>
                  t == Tail(Raised(Fetch(remote, id, count, q).fault), [q], page.path, items))
            && (whole && offset + |page.data| < count && Fetch(remote, id, count, q).Got?
                && Fetch(remote, id, count, q).page.data == [] ==>
                  t == Tail(Hangs, [q], Fetch(remote, id, count, q).page.path, items))
  {
  }

  lemma CatStep(reqs: seq<Request>, done: seq<Attr>, rows: seq<Attr>, q: Request, w: Tail)
    ensures Cat(reqs, done, Tail(w.end, [q] + w.requests, w.path, rows + w.items)) == Cat(reqs + [q], done + rows, w)
  {
    assert reqs + ([q] + w.requests) == (reqs + [q]) + w.requests;
    assert done + (rows + w.items) == (done + rows) + w.items;
  }

  /** `get_files`: validates the response to `q` against the directory id and the count
      seen so far, and takes over the count of the first good response. */
  method GetFiles(remote: Remote, id: int, count: int, q: Request)
      returns (resp: Option<Page>, fault: Fault, count': int)
    ensures var f := Fetch(remote, id, count, q);
            && (f.Got? <==> resp.Some?)
            && (f.Got? ==> resp.value == f.page && count' == (if count < 0 then f.page.count else count))
            && (f.Failed? ==> fault == f.fault && count' == count)
  {
    count' := count;
    fault := Refused;
    if q !in remote || !remote[q].state {
      return None, Refused, count';
    }
    var page := remote[q];
    if |page.path| == 0 {
      // `resp["path"][-1]` raises IndexError
      return None, Malformed, count';
    }
    if page.path[|page.path| - 1].cid != id {
      fault := if count < 0 then NotADirectory else NotFound;
      return None, fault, count';
    }
    if count < 0 {
      count' := page.count;
    } else if count != page.count {
      return None, Busy, count';
    }
    resp := Some(page);
  }

  /** `iterdir` with its iterator run to the end. A request below the count that is
      answered without entries would be sent forever; the method stops there with `Hangs`. */
  method IterDir(remote: Remote, id: int, pageSize: int)
      returns (end: End, count: int, ancestors: seq<Ancestor>, items: seq<Attr>)
    ensures var l := IterDirSpec(remote, id, pageSize);
            end == l.end && count == l.count && ancestors == l.ancestors && items == l.items
  {
    var ps := pageSize;
    if ps <= 0 {
      ps := DefaultPageSize;
    }
    var first, fault;
    first, fault, count := GetFiles(remote, id, -1, (0, Min(FirstLimit, ps)));
    if first.None? {
      return Raised(fault), count, [], [];
    }
    end, ancestors, items := PageLoop(remote, id, ps, count, first.value);
  }

  /** How one turn of the paging loop ends: with the next page, or with the listing's end
      and the path of the last good response. */
  datatype Turn = Next(page: Page, at: nat) | Stopped(end: End, path: seq<PathItem>)

  /** The `while True` loop of `iter`, from the first response on. */
  method PageLoop(remote: Remote, id: int, ps: nat, count: int, first: Page)
      returns (end: End, ancestors: seq<Ancestor>, items: seq<Attr>)
    ensures var t := Walk(remote, id, ps, count, first, 0);
            end == t.end && ancestors == Ancestors(t.path) && items == t.items
  {
    ghost var whole := Walk(remote, id, ps, count, first, 0);
    ghost var reqs: seq<Request> := [];
    var resp := first;
    ancestors := Ancestors(first.path);
    items := [];
    var offset: nat := 0;
    while true
      invariant ancestors == Ancestors(resp.path)
      invariant whole == Cat(reqs, items, Walk(remote, id, ps, count, resp, offset))
      decreases Pending(remote, ps, offset), if resp.data == [] then 1 else 0
    {
      var rows, turn := TakePage(remote, id, ps, count, resp, offset);
      if turn.Stopped? {
        items := items + rows;
        end, ancestors := turn.end, Ancestors(turn.path);
        break;
      }
      PendingShrinks(remote, ps, offset, turn.at);
      CatStep(reqs, items, rows, (turn.at, ps), Walk(remote, id, ps, count, turn.page, turn.at));
      items := items + rows;
      reqs := reqs + [(turn.at, ps)];
      resp, offset := turn.page, turn.at;
      // `ancestors[1:] = ...` from the new response's path
      ancestors := Ancestors(resp.path);
    }
    assert whole.end == end && whole.path == Walk(remote, id, ps, count, resp, offset).path;
  }

  /** One turn of that loop: the entries of `resp` are converted and yielded; then either
      the listing ends, or the next page is fetched and has entries. */
  method TakePage(remote: Remote, id: int, ps: nat, count: int, resp: Page, offset: nat)
      returns (rows: seq<Attr>, turn: Turn)
    ensures var t := Walk(remote, id, ps, count, resp, offset);
            && (turn.Stopped? ==> t == Tail(turn.end, t.requests, turn.path, rows))
            && (turn.Next? ==> && turn.at == offset + |resp.data| && (turn.at, ps) in remote
                               && turn.page == remote[(turn.at, ps)]
                               && (turn.page.data != [] && (offset < turn.at || resp.data == []))
                               && var w := Walk(remote, id, ps, count, turn.page, turn.at);
                                  t == Tail(w.end, [(turn.at, ps)] + w.requests, w.path, rows + w.items))
  {
    WalkEnd(remote, id, ps, count, resp, offset);
    var complete;
    rows, complete := NormalizeAll(resp.data).0, NormalizeAll(resp.data).1;
    if !complete {
      return rows, Stopped(Raised(Malformed), resp.path);
    }
    var next := offset + |resp.data|;
    if next >= count {
      return rows, Stopped(Complete, resp.path);
    }
    var page, fault, count' := GetFiles(remote, id, count, (next, ps));
    if page.None? {
      return rows, Stopped(Raised(fault), resp.path);
    }
    if page.value.data == [] {
      return rows, Stopped(Hangs, page.value.path);
    }
    WalkStep(remote, id, ps, count, resp, offset, page.value);
    return rows, Next(page.value, next);
  }
}
