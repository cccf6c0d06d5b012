/** `json_array_head_replace(value, repl, stop)` of updatedb.py, on decoded JSON arrays:
    the slice assignment `value[:stop] = repl` replaces the head of `value` up to `stop`
    by `repl`. It rewrites the ancestor list of every row below a moved directory. */
module HeadReplace {
  import opened Common

  /** Where Python's slice `value[:stop]` ends for a list of length `len`: a negative
      `stop` counts from the end (and clamps at 0), a large one clamps at `len`. */
  function SliceEnd(len: nat, stop: int): (k: nat)
    ensures k <= len
    ensures 0 <= stop <= len ==> k == stop
    ensures stop > len ==> k == len
    ensures -(len as int) <= stop < 0 ==> k == len + stop
    ensures stop < -(len as int) ==> k == 0
  {
    if stop < 0 then (if len + stop < 0 then 0 else len + stop)
    else if stop > len then len
    else stop
  }

  /** `value[:stop] = repl`, with the default `stop` being `len(repl)`: the result starts
      with `repl` and goes on with `value` from the clamped end of the slice. */
  function HeadReplace<T>(value: seq<T>, repl: seq<T>, stop: Option<int>): (r: seq<T>)
    ensures var k := SliceEnd(|value|, if stop.None? then |repl| else stop.value);
            && |r| == |repl| + |value| - k
            && r[..|repl|] == repl
            && (forall i :: |repl| <= i < |r| ==> r[i] == value[k + i - |repl|])
  {
    var s := if stop.None? then |repl| else stop.value;
    repl + value[SliceEnd(|value|, s)..]
  }

  /** Replacing exactly an old prefix swaps that prefix for the new one and keeps the rest:
      the move of a directory rewrites `old ancestors ++ own tail` to `new ancestors ++ own tail`. */
  lemma ReplacesPrefix<T>(p: seq<T>, rest: seq<T>, repl: seq<T>)
    ensures HeadReplace(p + rest, repl, Some(|p|)) == repl + rest
  {
    assert (p + rest)[|p|..] == rest;
  }

  /** With the default `stop` on a list at least as long as `repl`, the length is kept and
      exactly the first `|repl|` positions take the values of `repl`. */
  lemma DefaultOverwritesHead<T>(value: seq<T>, repl: seq<T>)
    requires |repl| <= |value|
    ensures var r := HeadReplace(value, repl, None);
            && |r| == |value|
            && (forall i :: 0 <= i < |repl| ==> r[i] == repl[i])
            && (forall i :: |repl| <= i < |value| ==> r[i] == value[i])
  {
  }

  /** With the default `stop` the replacement is idempotent. */
  lemma DefaultIdempotent<T>(value: seq<T>, repl: seq<T>)
    ensures var r := HeadReplace(value, repl, None);
            HeadReplace(r, repl, None) == r
  {
    var r := HeadReplace(value, repl, None);
    var k := SliceEnd(|value|, |repl|);
    assert r[|repl|..] == value[k..];
    assert r == repl + r[|repl|..];
  }

  /** A negative `stop` of `-j` keeps the last `j` elements. */
  lemma NegativeStopKeepsTail<T>(value: seq<T>, repl: seq<T>, j: nat)
    requires 0 < j <= |value|
    ensures HeadReplace(value, repl, Some(-(j as int))) == repl + value[|value| - j..]
  {
  }

  /** A concrete case: `[1, 2, 3, 4]` with head `[9]` replaced up to 2 gives `[9, 3, 4]`. */
  lemma HeadReplaceExample()
    ensures HeadReplace([1, 2, 3, 4], [9], Some(2)) == [9, 3, 4]
    ensures HeadReplace([1, 2, 3, 4], [9], None) == [9, 2, 3, 4]
    ensures HeadReplace([1, 2], [7, 8, 9], None) == [7, 8, 9]
  {
    assert [1, 2, 3, 4][2..] == [3, 4];
    assert [1, 2, 3, 4][1..] == [2, 3, 4];
    assert [1, 2][2..] == [];
  }
}
