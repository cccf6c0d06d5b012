/** `FolderResource.children` of servedb.py: which rows below a folder the WebDAV view shows,
    and under which names. A file the strm predicate selects is shown as `stem + ".strm"`
    (its content becomes a link) without consulting the visibility predicate; any other
    entry is shown under its own name when the visibility predicate, if there is one,
    accepts it. The result is a dictionary by shown name, filled row by row.

    Both predicates (built by `make_predicate`) and `splitext` are not part of this model:
    they are the parameters `keep`, `strm` and `stem`. */
module DavChildren {
  import opened Common

  /** The columns the query at servedb.py:330 reads. */
  datatype DavRow = DavRow(id: int, name: string, path: string, ctime: int, mtime: int,
                           size: int, pickcode: string, isDir: bool)

  /** A child resource: a folder, or a file that may be served as a `.strm` link. */
  datatype Resource = Folder(path: string, attr: DavRow) | File(path: string, attr: DavRow, isStrm: bool)

  /** The `WHERE` of the query: the name is not `''`, `'.'` or `'..'` and has no `/`. */
  predicate Listed(r: DavRow)
  {
    r.name != "" && r.name != "." && r.name != ".." && '/' !in r.name
  }

  /** The path a `FolderResource` keeps: with a trailing `/` added when it has none. */
  function FolderPath(path: string): (p: string)
    ensures |p| > 0 && p[|p| - 1] == '/'
    ensures p == path || p == path + "/"
    ensures |path| > 0 && path[|path| - 1] == '/' ==> p == path
  {
    if |path| > 0 && path[|path| - 1] == '/' then path else path + "/"
  }

  /** One turn of the loop: the name and resource the row is shown as, or `None` when it is
      skipped. */
  function Classify(r: DavRow, keep: Option<DavRow -> bool>, strm: Option<DavRow -> bool>, stem: string -> string)
    : (c: Option<(string, Resource)>)
    ensures (!r.isDir && strm.Some? && strm.value(r)) ==>
              c == Some((stem(r.name) + ".strm", File(stem(r.path) + ".strm", r, true)))
    ensures r.isDir ==> c.None? || c.value == (r.name, Folder(FolderPath(r.path), r))
    ensures c.None? <==> (!(!r.isDir && strm.Some? && strm.value(r)) && keep.Some? && !keep.value(r))
    ensures c.Some? && !(!r.isDir && strm.Some? && strm.value(r)) ==>
              && c.value.0 == r.name && !(c.value.1.File? && c.value.1.isStrm)
              && c.value.1.path == (if r.isDir then FolderPath(r.path) else r.path)
    ensures c.Some? ==> c.value.1.attr == r
  {
    if !r.isDir && strm.Some? && strm.value(r) then
      Some((stem(r.name) + ".strm", File(stem(r.path) + ".strm", r, true)))
    else if keep.Some? && !keep.value(r) then None
    else if r.isDir then Some((r.name, Folder(FolderPath(r.path), r)))
    else Some((r.name, File(r.path, r, false)))
  }

  /** The `children[name] = ...` assignments the loop makes over the rows, in order. */
  function ChildPairs(rows: seq<DavRow>, keep: Option<DavRow -> bool>, strm: Option<DavRow -> bool>, stem: string -> string)
    : seq<(string, Resource)>
    decreases |rows|
  {
    if rows == [] then []
    else
      var r := rows[|rows| - 1];
      var c := if Listed(r) then Classify(r, keep, strm, stem) else None;
      ChildPairs(rows[..|rows| - 1], keep, strm, stem) + (if c.Some? then [c.value] else [])
  }

  function Children(rows: seq<DavRow>, keep: Option<DavRow -> bool>, strm: Option<DavRow -> bool>, stem: string -> string)
    : map<string, Resource>
  {
    AssignAll(map[], ChildPairs(rows, keep, strm, stem))
  }

  // ---------------------------------------------------------------------------

  lemma {:induction false} ChildPairsFrom(rows: seq<DavRow>, keep: Option<DavRow -> bool>, strm: Option<DavRow -> bool>, stem: string -> string)
    ensures forall p :: p in ChildPairs(rows, keep, strm, stem) ==>
              exists i :: 0 <= i < |rows| && Listed(rows[i]) && Classify(rows[i], keep, strm, stem) == Some(p)
    decreases |rows|
  {
    if rows != [] {
      var init := rows[..|rows| - 1];
      ChildPairsFrom(init, keep, strm, stem);
      forall p | p in ChildPairs(init, keep, strm, stem)
        ensures exists i :: 0 <= i < |rows| && Listed(rows[i]) && Classify(rows[i], keep, strm, stem) == Some(p)
      {
        var i :| 0 <= i < |init| && Listed(init[i]) && Classify(init[i], keep, strm, stem) == Some(p);
        assert rows[i] == init[i];
      }
    }
  }

  /** Every shown child comes from a listed row and is what that row classifies as: a
      directory as a folder under its own name, a strm file as `stem + ".strm"`, any other
      file under its own name and only if visible. */
  lemma ChildrenFromRows(rows: seq<DavRow>, keep: Option<DavRow -> bool>, strm: Option<DavRow -> bool>, stem: string -> string, name: string)
    requires name in Children(rows, keep, strm, stem)
    ensures var res := Children(rows, keep, strm, stem)[name];
            exists i :: 0 <= i < |rows| && Listed(rows[i]) && rows[i] == res.attr
                        && Classify(rows[i], keep, strm, stem) == Some((name, res))
  {
    AssignAllFrom(map[], ChildPairs(rows, keep, strm, stem), name);
    ChildPairsFrom(rows, keep, strm, stem);
  }

  lemma {:induction false} ChildPairsCover(rows: seq<DavRow>, keep: Option<DavRow -> bool>, strm: Option<DavRow -> bool>, stem: string -> string, i: nat)
    requires i < |rows| && Listed(rows[i]) && Classify(rows[i], keep, strm, stem).Some?
    ensures Classify(rows[i], keep, strm, stem).value in ChildPairs(rows, keep, strm, stem)
    decreases |rows|
  {
    if i < |rows| - 1 {
      var init := rows[..|rows| - 1];
      assert init[i] == rows[i];
      ChildPairsCover(init, keep, strm, stem, i);
    }
  }

  /** Every listed row that is not skipped is shown under the name it classifies as (by
      itself, or by a later row with the same shown name). */
  lemma ChildrenCoverRows(rows: seq<DavRow>, keep: Option<DavRow -> bool>, strm: Option<DavRow -> bool>, stem: string -> string, i: nat)
    requires i < |rows| && Listed(rows[i]) && Classify(rows[i], keep, strm, stem).Some?
    ensures Classify(rows[i], keep, strm, stem).value.0 in Children(rows, keep, strm, stem)
  {
    var pairs := ChildPairs(rows, keep, strm, stem);
    var p := Classify(rows[i], keep, strm, stem).value;
    ChildPairsCover(rows, keep, strm, stem, i);
    var j :| 0 <= j < |pairs| && pairs[j] == p;
    AssignAllHas(map[], pairs, p.0);
  }
}
