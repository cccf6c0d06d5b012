/** The path and ancestor bookkeeping of `update_dir_ancestors` in updatedb.py. After a
    directory is listed, every directory on its ancestor chain (`items1`) and every
    subdirectory about to be written (`items2`) gets a row whose `path` is the `/`-joined
    escaped names below the root and whose `ancestors` is the chain down to itself. Saved rows
    whose name or parent changed are collected, and each such change rewrites the path and
    the ancestor head of every row below the old path.

    `escape` (posixpatht) is not part of this model: it is the parameter `esc`. */
module DirAncestors {
  import opened Common
  import opened Normalize
  import opened HeadReplace
  import opened DirListing

  /** A directory row as built here (`is_dir` is always 1). */
  datatype DirRow = DirRow(id: int, parentId: int, name: string, path: string, ancestors: seq<Ancestor>)

  /** The columns the `SELECT` at updatedb.py:317 reads of a saved row. */
  datatype SavedDir = SavedDir(id: int, parentId: int, name: string, path: string, ancestorsLength: int)

  /** One entry of `changed`: the parameters of the `UPDATE` that rebases a subtree. */
  datatype Change = Change(pathOld: string, pathOldStop: int, path: string, ancestorsOldStop: int, ancestors: seq<Ancestor>)

  /** The path of the directory an ancestor chain leads to: `"/" + escape(name)` for every
      member after the root, in order. */
  function PathOf(esc: string -> string, chain: seq<Ancestor>): string
    decreases |chain|
  {
    if |chain| <= 1 then ""
    else PathOf(esc, chain[..|chain| - 1]) + "/" + esc(chain[|chain| - 1].name)
  }

  /** The path segments `"/" + escape(name)` of a run of ancestors. */
  function Segments(esc: string -> string, tail: seq<Ancestor>): string
    decreases |tail|
  {
    if tail == [] then ""
    else Segments(esc, tail[..|tail| - 1]) + "/" + esc(tail[|tail| - 1].name)
  }

  /** A row agrees with its own ancestor chain: the chain ends with the row itself and the
      path is the chain's path. */
  ghost predicate WellFormed(esc: string -> string, r: DirRow)
  {
    && |r.ancestors| >= 2
    && r.ancestors[|r.ancestors| - 1] == Ancestor(r.id, r.parentId, r.name)
    && r.path == PathOf(esc, r.ancestors)
  }

  // ---------------------------------------------------------------------------
  // items1 and items2

  /** The row of `items1` for `ancestors[i - 1]`, written at loop index `i`. */
  function ChainRow(esc: string -> string, ancestors: seq<Ancestor>, i: nat): DirRow
    requires 2 <= i <= |ancestors|
  {
    var a := ancestors[i - 1];
    DirRow(a.id, a.parentId, a.name, PathOf(esc, ancestors[..i]), ancestors[..i])
  }

  /** The assignments the first loop makes, for `ancestors[1..n]`. */
  function ChainPairs(esc: string -> string, ancestors: seq<Ancestor>, n: nat): seq<(int, DirRow)>
    requires n <= |ancestors|
  {
    if n <= 1 then []
    else ChainPairs(esc, ancestors, n - 1) + [(ancestors[n - 1].id, ChainRow(esc, ancestors, n))]
  }

  function Items1Spec(esc: string -> string, ancestors: seq<Ancestor>): map<int, DirRow>
  {
    AssignAll(map[], ChainPairs(esc, ancestors, |ancestors|))
  }

  /** The row of `items2` for a subdirectory `a` of the directory `ancestors` leads to. */
  function SubdirRow(esc: string -> string, ancestors: seq<Ancestor>, a: Attr): DirRow
  {
    DirRow(a.id, a.parentId, a.name, PathOf(esc, ancestors) + "/" + esc(a.name),
           ancestors + [Ancestor(a.id, a.parentId, a.name)])
  }

  /** The assignments the second loop makes: one per directory of `toReplace`. */
  function SubdirPairs(esc: string -> string, ancestors: seq<Ancestor>, toReplace: seq<Attr>): seq<(int, DirRow)>
    decreases |toReplace|
  {
    if toReplace == [] then []
    else
      var a := toReplace[|toReplace| - 1];
      SubdirPairs(esc, ancestors, toReplace[..|toReplace| - 1])
        + (if a.isDir then [(a.id, SubdirRow(esc, ancestors, a))] else [])
  }

  function Items2Spec(esc: string -> string, ancestors: seq<Ancestor>, toReplace: seq<Attr>): map<int, DirRow>
  {
    AssignAll(map[], SubdirPairs(esc, ancestors, toReplace))
  }

  /** The first two loops of `update_dir_ancestors`. */
  method BuildItems(esc: string -> string, ancestors: seq<Ancestor>, toReplace: seq<Attr>)
      returns (items1: map<int, DirRow>, items2: map<int, DirRow>)
    ensures items1 == Items1Spec(esc, ancestors)
    ensures items2 == Items2Spec(esc, ancestors, toReplace)
  {
    items1 := map[];
    var path := "";
    var rest := if ancestors == [] then [] else ancestors[1..];
    for k := 0 to |rest|
      invariant ancestors == [] ==> items1 == map[] && path == ""
      invariant ancestors != [] ==> items1 == AssignAll(map[], ChainPairs(esc, ancestors, k + 1))
      invariant ancestors != [] ==> path == PathOf(esc, ancestors[..k + 1])
    {
      var i := k + 2;
      var a := rest[k];
      assert a == ancestors[i - 1];
      assert ancestors[..i][..i - 1] == ancestors[..k + 1];
      path := path + "/" + esc(a.name);
      AssignAllSnoc(map[], ChainPairs(esc, ancestors, k + 1), (a.id, ChainRow(esc, ancestors, i)));
      items1 := items1[a.id := DirRow(a.id, a.parentId, a.name, path, ancestors[..i])];
    }
    assert ancestors != [] ==> ancestors[..|ancestors|] == ancestors;
    items2 := map[];
    for j := 0 to |toReplace|
      invariant path == PathOf(esc, ancestors)
      invariant items2 == AssignAll(map[], SubdirPairs(esc, ancestors, toReplace[..j]))
    {
      var a := toReplace[j];
      assert toReplace[..j + 1][..j] == toReplace[..j];
      assert toReplace[..j + 1][j] == a;
      assert SubdirPairs(esc, ancestors, toReplace[..j + 1])
          == SubdirPairs(esc, ancestors, toReplace[..j]) + (if a.isDir then [(a.id, SubdirRow(esc, ancestors, a))] else []);
      if a.isDir {
        AssignAllSnoc(map[], SubdirPairs(esc, ancestors, toReplace[..j]), (a.id, SubdirRow(esc, ancestors, a)));
        items2 := items2[a.id := DirRow(a.id, a.parentId, a.name, path + "/" + esc(a.name),
                                        ancestors + [Ancestor(a.id, a.parentId, a.name)])];
      } else {
        assert SubdirPairs(esc, ancestors, toReplace[..j + 1]) == SubdirPairs(esc, ancestors, toReplace[..j]);
      }
    }
    assert toReplace[..|toReplace|] == toReplace;
  }

  // ---------------------------------------------------------------------------
  // Changed rows

  /** `items[cid]` of the `ChainMap(items1, items2)`: `items1` first, so an id on the
      ancestor chain is compared with its `items1` row even when it is also listed as a
      subdirectory. */
  function Lookup(items1: map<int, DirRow>, items2: map<int, DirRow>, id: int): Option<DirRow>
  {
    if id in items1 then Some(items1[id])
    else if id in items2 then Some(items2[id])
    else None
  }

  /** The change a saved row gives rise to: none when its name and parent are unchanged. */
  function ChangeOf(row: SavedDir, now: DirRow): Option<Change>
  {
    if row.name != now.name || row.parentId != now.parentId then
      Some(Change(row.path, |row.path| + 1, now.path, row.ancestorsLength, now.ancestors))
    else None
  }

  /** `changed`, for the saved rows `saved`. */
  function ChangedSpec(items1: map<int, DirRow>, items2: map<int, DirRow>, saved: seq<SavedDir>): seq<Change>
    requires forall i :: 0 <= i < |saved| ==> Lookup(items1, items2, saved[i].id).Some?
    decreases |saved|
  {
    if saved == [] then []
    else
      var row := saved[|saved| - 1];
      var c := ChangeOf(row, Lookup(items1, items2, row.id).value);
      ChangedSpec(items1, items2, saved[..|saved| - 1]) + (if c.Some? then [c.value] else [])
  }

  /** The third loop: `saved` is the result of the `SELECT` over the ids of `items`, longest
      old path first. */
  method ChangedRows(items1: map<int, DirRow>, items2: map<int, DirRow>, saved: seq<SavedDir>)
      returns (changed: seq<Change>)
    requires forall i :: 0 <= i < |saved| ==> saved[i].id in items1 || saved[i].id in items2
    ensures changed == ChangedSpec(items1, items2, saved)
  {
    changed := [];
    for i := 0 to |saved|
      invariant changed == ChangedSpec(items1, items2, saved[..i])
    {
      var row := saved[i];
      assert saved[..i + 1][..i] == saved[..i];
      var now := if row.id in items1 then items1[row.id] else items2[row.id];
      if row.name != now.name || row.parentId != now.parentId {
        changed := changed + [Change(row.path, |row.path| + 1, now.path, row.ancestorsLength, now.ancestors)];
      }
    }
    assert saved[..|saved|] == saved;
  }

  /** `update_dir_ancestors` up to the `UPDATE`s: the rows of `items1` (the ones the upsert
      writes) and of `items2`, and the changes, none when there are no items at all. */
  method UpdateDirAncestors(esc: string -> string, ancestors: seq<Ancestor>, toReplace: seq<Attr>, saved: seq<SavedDir>)
      returns (items1: map<int, DirRow>, items2: map<int, DirRow>, changed: seq<Change>)
    requires forall i :: 0 <= i < |saved| ==> saved[i].id in Items1Spec(esc, ancestors) || saved[i].id in Items2Spec(esc, ancestors, toReplace)
    requires forall i, j :: 0 <= i < j < |saved| ==> |saved[i].path| >= |saved[j].path|
    ensures items1 == Items1Spec(esc, ancestors) && items2 == Items2Spec(esc, ancestors, toReplace)
    ensures changed == if items1 == map[] && items2 == map[] then [] else ChangedSpec(items1, items2, saved)
  {
    items1, items2 := BuildItems(esc, ancestors, toReplace);
    if items1 == map[] && items2 == map[] {
      return items1, items2, [];
    }
    changed := ChangedRows(items1, items2, saved);
  }

  // ---------------------------------------------------------------------------
  // The rebase

  /** `SUBSTR(s, y)` of SQLite without a length: from the `y`-th character (1-based) on. */
  function Substr(s: string, y: int): (r: string)
    ensures |r| <= |s|
    ensures 1 <= y <= |s| + 1 ==> r == s[y - 1..]
  {
    if y <= 1 then s
    else if y - 1 >= |s| then ""
    else s[y - 1..]
  }

  /** One `UPDATE` statement of the `executemany` on one row, with `path LIKE path_old || '/%'`
      read as "the path starts with the old path and a slash". */
  function Rebase(path: string, ancestors: seq<Ancestor>, c: Change): (string, seq<Ancestor>)
  {
    if |c.pathOld| + 1 <= |path| && path[..|c.pathOld| + 1] == c.pathOld + "/" then
      (c.path + Substr(path, c.pathOldStop), HeadReplace.HeadReplace(ancestors, c.ancestors, Some(c.ancestorsOldStop)))
    else (path, ancestors)
  }

  // ---------------------------------------------------------------------------
  // Properties

  lemma {:induction false} SegmentsAppend(esc: string -> string, chain: seq<Ancestor>, tail: seq<Ancestor>)
    requires |chain| >= 1
    ensures PathOf(esc, chain + tail) == PathOf(esc, chain) + Segments(esc, tail)
    decreases |tail|
  {
    if tail != [] {
      var t := tail[..|tail| - 1];
      assert (chain + tail)[..|chain + tail| - 1] == chain + t;
      SegmentsAppend(esc, chain, t);
    } else {
      assert chain + tail == chain;
    }
  }

  lemma {:induction false} SegmentsStart(esc: string -> string, tail: seq<Ancestor>)
    requires tail != []
    ensures |Segments(esc, tail)| >= 1 && Segments(esc, tail)[0] == '/'
    decreases |tail|
  {
    if |tail| > 1 {
      SegmentsStart(esc, tail[..|tail| - 1]);
    }
  }

  /** Every row of `items1` agrees with its own chain, which is a prefix of `ancestors`;
      its keys are the ids of `ancestors[1..]`. */
  lemma Items1WellFormed(esc: string -> string, ancestors: seq<Ancestor>, id: int)
    requires id in Items1Spec(esc, ancestors)
    ensures var r := Items1Spec(esc, ancestors)[id];
            && WellFormed(esc, r) && r.id == id
            && |r.ancestors| <= |ancestors| && r.ancestors == ancestors[..|r.ancestors|]
  {
    var pairs := ChainPairs(esc, ancestors, |ancestors|);
    AssignAllFrom(map[], pairs, id);
    ChainPairsRows(esc, ancestors, |ancestors|);
  }

  lemma {:induction false} ChainPairsRows(esc: string -> string, ancestors: seq<Ancestor>, n: nat)
    requires n <= |ancestors|
    ensures forall p :: p in ChainPairs(esc, ancestors, n) ==>
              && WellFormed(esc, p.1) && p.1.id == p.0
              && |p.1.ancestors| <= |ancestors| && p.1.ancestors == ancestors[..|p.1.ancestors|]
    decreases n
  {
    if n > 1 {
      ChainPairsRows(esc, ancestors, n - 1);
      var r := ChainRow(esc, ancestors, n);
      assert r.ancestors[|r.ancestors| - 1] == ancestors[n - 1];
    }
  }

  lemma {:induction false} ChainPairsAt(esc: string -> string, ancestors: seq<Ancestor>, n: nat)
    requires 1 <= n <= |ancestors|
    ensures |ChainPairs(esc, ancestors, n)| == n - 1
    ensures forall j :: 1 <= j < n ==> ChainPairs(esc, ancestors, n)[j - 1].0 == ancestors[j].id
    decreases n
  {
    if n > 1 {
      ChainPairsAt(esc, ancestors, n - 1);
    }
  }

  /** `items1` has a row for exactly the ids of `ancestors[1..]`. */
  lemma Items1Keys(esc: string -> string, ancestors: seq<Ancestor>, id: int)
    ensures id in Items1Spec(esc, ancestors) <==> exists j :: 1 <= j < |ancestors| && ancestors[j].id == id
  {
    var pairs := ChainPairs(esc, ancestors, |ancestors|);
    AssignAllHas(map[], pairs, id);
    if |ancestors| >= 1 {
      ChainPairsAt(esc, ancestors, |ancestors|);
      if exists i :: 0 <= i < |pairs| && pairs[i].0 == id {
        var i :| 0 <= i < |pairs| && pairs[i].0 == id;
        assert ancestors[i + 1].id == id;
      }
      if exists j :: 1 <= j < |ancestors| && ancestors[j].id == id {
        var j :| 1 <= j < |ancestors| && ancestors[j].id == id;
        assert pairs[j - 1].0 == id;
      }
    }
  }

  lemma {:induction false} SubdirPairsRows(esc: string -> string, ancestors: seq<Ancestor>, toReplace: seq<Attr>)
    requires |ancestors| >= 1
    ensures forall p :: p in SubdirPairs(esc, ancestors, toReplace) ==>
              && WellFormed(esc, p.1) && p.1.id == p.0
              && |p.1.ancestors| == |ancestors| + 1 && p.1.ancestors[..|ancestors|] == ancestors
              && exists j :: 0 <= j < |toReplace| && toReplace[j].isDir && toReplace[j].id == p.0
    decreases |toReplace|
  {
    if toReplace != [] {
      var init := toReplace[..|toReplace| - 1];
      SubdirPairsRows(esc, ancestors, init);
      forall p | p in SubdirPairs(esc, ancestors, init)
        ensures exists j :: 0 <= j < |toReplace| && toReplace[j].isDir && toReplace[j].id == p.0
      {
        var j :| 0 <= j < |init| && init[j].isDir && init[j].id == p.0;
        assert toReplace[j] == init[j];
      }
      var a := toReplace[|toReplace| - 1];
      var r := SubdirRow(esc, ancestors, a);
      assert r.ancestors[..|r.ancestors| - 1] == ancestors;
      assert (ancestors + [Ancestor(a.id, a.parentId, a.name)])[..|ancestors|] == ancestors;
    }
  }

  /** Every row of `items2` is a directory of `toReplace`, and agrees with its chain: the
      listed directory's chain plus itself. */
  lemma Items2WellFormed(esc: string -> string, ancestors: seq<Ancestor>, toReplace: seq<Attr>, id: int)
    requires |ancestors| >= 1 && id in Items2Spec(esc, ancestors, toReplace)
    ensures var r := Items2Spec(esc, ancestors, toReplace)[id];
            && WellFormed(esc, r) && r.id == id
            && |r.ancestors| == |ancestors| + 1 && r.ancestors[..|ancestors|] == ancestors
            && exists j :: 0 <= j < |toReplace| && toReplace[j].isDir && toReplace[j].id == id
  {
    AssignAllFrom(map[], SubdirPairs(esc, ancestors, toReplace), id);
    SubdirPairsRows(esc, ancestors, toReplace);
  }

  /** Exactly the saved rows whose name or parent differs from the now row give a change,
      and each change carries the old path, its 1-based end and the now row's path and chain. */
  lemma {:induction false} ChangedExactly(items1: map<int, DirRow>, items2: map<int, DirRow>, saved: seq<SavedDir>)
    requires forall i :: 0 <= i < |saved| ==> Lookup(items1, items2, saved[i].id).Some?
    ensures forall c :: c in ChangedSpec(items1, items2, saved) ==>
              exists i :: 0 <= i < |saved| &&
                var now := Lookup(items1, items2, saved[i].id).value;
                && (saved[i].name != now.name || saved[i].parentId != now.parentId)
                && c == Change(saved[i].path, |saved[i].path| + 1, now.path, saved[i].ancestorsLength, now.ancestors)
    ensures forall i :: 0 <= i < |saved| ==>
              var now := Lookup(items1, items2, saved[i].id).value;
              (saved[i].name != now.name || saved[i].parentId != now.parentId) ==>
                Change(saved[i].path, |saved[i].path| + 1, now.path, saved[i].ancestorsLength, now.ancestors)
                  in ChangedSpec(items1, items2, saved)
    decreases |saved|
  {
    if saved != [] {
      var init := saved[..|saved| - 1];
      ChangedExactly(items1, items2, init);
      forall c | c in ChangedSpec(items1, items2, init)
        ensures exists i :: 0 <= i < |saved| &&
                  var now := Lookup(items1, items2, saved[i].id).value;
                  && (saved[i].name != now.name || saved[i].parentId != now.parentId)
                  && c == Change(saved[i].path, |saved[i].path| + 1, now.path, saved[i].ancestorsLength, now.ancestors)
      {
        var i :| 0 <= i < |init| &&
                 var now := Lookup(items1, items2, init[i].id).value;
                 && (init[i].name != now.name || init[i].parentId != now.parentId)
                 && c == Change(init[i].path, |init[i].path| + 1, now.path, init[i].ancestorsLength, now.ancestors);
        assert saved[i] == init[i];
      }
      forall i | 0 <= i < |saved| - 1
        ensures var now := Lookup(items1, items2, saved[i].id).value;
                (saved[i].name != now.name || saved[i].parentId != now.parentId) ==>
                  Change(saved[i].path, |saved[i].path| + 1, now.path, saved[i].ancestorsLength, now.ancestors)
                    in ChangedSpec(items1, items2, saved)
      {
        assert saved[i] == init[i];
      }
    }
  }

  /** Moving a directory keeps its subtree consistent: a row below the old directory, whose
      chain is the old chain plus its own tail and whose path agrees with it, gets the new
      chain plus the same tail and the path that agrees with that. */
  lemma RebaseKeepsSubtree(esc: string -> string, before: seq<Ancestor>, tail: seq<Ancestor>, now: DirRow, row: SavedDir)
    requires |before| >= 1 && tail != [] && |now.ancestors| >= 1
    requires row.path == PathOf(esc, before) && row.ancestorsLength == |before|
    requires now.path == PathOf(esc, now.ancestors)
    requires row.name != now.name || row.parentId != now.parentId
    ensures var c := ChangeOf(row, now).value;
            Rebase(PathOf(esc, before + tail), before + tail, c)
              == (PathOf(esc, now.ancestors + tail), now.ancestors + tail)
  {
    var c := ChangeOf(row, now).value;
    SegmentsAppend(esc, before, tail);
    SegmentsAppend(esc, now.ancestors, tail);
    SegmentsStart(esc, tail);
    RebaseBelow(PathOf(esc, before), Segments(esc, tail), before + tail, c);
    ReplacesPrefix(before, tail, now.ancestors);
  }

  /** The `UPDATE` on a row whose path is the old path followed by a slash and more. */
  lemma RebaseBelow(pathOld: string, seg: string, ancestors: seq<Ancestor>, c: Change)
    requires c.pathOld == pathOld && c.pathOldStop == |pathOld| + 1
    requires |seg| >= 1 && seg[0] == '/'
    ensures Rebase(pathOld + seg, ancestors, c)
            == (c.path + seg, HeadReplace.HeadReplace(ancestors, c.ancestors, Some(c.ancestorsOldStop)))
  {
    var p := pathOld + seg;
    assert p[..|pathOld| + 1] == pathOld + "/";
    assert p[|pathOld|..] == seg;
  }

  /** A row outside the old directory is left alone, the directory's own row included. */
  lemma RebaseSparesOthers(path: string, ancestors: seq<Ancestor>, c: Change)
    requires !(|c.pathOld| + 1 <= |path| && path[..|c.pathOld| + 1] == c.pathOld + "/")
    ensures Rebase(path, ancestors, c) == (path, ancestors)
  {
  }

  /** Nothing to do: `items` is empty exactly when the chain has no member below the root
      and `toReplace` holds no directory. */
  lemma NoItems(esc: string -> string, ancestors: seq<Ancestor>, toReplace: seq<Attr>)
    ensures (Items1Spec(esc, ancestors) == map[] && Items2Spec(esc, ancestors, toReplace) == map[])
            <==> (|ancestors| <= 1 && forall j :: 0 <= j < |toReplace| ==> !toReplace[j].isDir)
  {
    if |ancestors| > 1 {
      Items1Keys(esc, ancestors, ancestors[1].id);
    }
    if exists j :: 0 <= j < |toReplace| && toReplace[j].isDir {
      var j :| 0 <= j < |toReplace| && toReplace[j].isDir;
      SubdirKeys(esc, ancestors, toReplace, toReplace[j].id);
    }
    if forall j :: 0 <= j < |toReplace| ==> !toReplace[j].isDir {
      NoDirsNoPairs(esc, ancestors, toReplace);
    }
  }

  lemma {:induction false} NoDirsNoPairs(esc: string -> string, ancestors: seq<Ancestor>, toReplace: seq<Attr>)
    requires forall j :: 0 <= j < |toReplace| ==> !toReplace[j].isDir
    ensures SubdirPairs(esc, ancestors, toReplace) == []
    decreases |toReplace|
  {
    if toReplace != [] {
      NoDirsNoPairs(esc, ancestors, toReplace[..|toReplace| - 1]);
    }
  }

  /** `items2` has a row for exactly the ids of the directories of `toReplace`. */
  lemma SubdirKeys(esc: string -> string, ancestors: seq<Ancestor>, toReplace: seq<Attr>, id: int)
    ensures id in Items2Spec(esc, ancestors, toReplace)
            <==> exists j :: 0 <= j < |toReplace| && toReplace[j].isDir && toReplace[j].id == id
  {
    AssignAllHas(map[], SubdirPairs(esc, ancestors, toReplace), id);
    SubdirPairKeys(esc, ancestors, toReplace, id);
  }

  lemma {:induction false} SubdirPairKeys(esc: string -> string, ancestors: seq<Ancestor>, toReplace: seq<Attr>, id: int)
    ensures (exists i :: 0 <= i < |SubdirPairs(esc, ancestors, toReplace)| && SubdirPairs(esc, ancestors, toReplace)[i].0 == id)
            <==> exists j :: 0 <= j < |toReplace| && toReplace[j].isDir && toReplace[j].id == id
    decreases |toReplace|
  {
    if toReplace != [] {
      var init := toReplace[..|toReplace| - 1];
      var a := toReplace[|toReplace| - 1];
      SubdirPairKeys(esc, ancestors, init, id);
      var pairs := SubdirPairs(esc, ancestors, toReplace);
      var front := SubdirPairs(esc, ancestors, init);
      assert pairs == front + (if a.isDir then [(a.id, SubdirRow(esc, ancestors, a))] else []);
      if exists i :: 0 <= i < |pairs| && pairs[i].0 == id {
        var i :| 0 <= i < |pairs| && pairs[i].0 == id;
        if i < |front| {
          assert front[i].0 == id;
          var j :| 0 <= j < |init| && init[j].isDir && init[j].id == id;
          assert toReplace[j] == init[j];
        } else {
          assert a.isDir && a.id == id;
        }
      }
      if exists j :: 0 <= j < |toReplace| && toReplace[j].isDir && toReplace[j].id == id {
        var j :| 0 <= j < |toReplace| && toReplace[j].isDir && toReplace[j].id == id;
        if j < |init| {
          assert init[j] == toReplace[j];
          var i :| 0 <= i < |front| && front[i].0 == id;
          assert pairs[i] == front[i];
        } else {
          assert pairs[|pairs| - 1].0 == id;
        }
      }
    }
  }
}
