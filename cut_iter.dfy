/** `cut_iter(start, stop=None, step=1)` of updatedb.py: cuts `[start, stop)` into
    `(offset, size)` pieces of `step` elements, the last one shorter when `step` does not
    divide the length. The one-argument form cuts `[0, start)`. */
module CutIter {
  import opened Common

  /** `range(start + step, stop, step)` still has an element. */
  predicate Continues(start: int, stop: int, step: int)
  {
    (step > 0 && start + step < stop) || (step < 0 && start + step > stop)
  }

  /** The pairs the generator yields for a step that is not zero: one `(start, step)` per
      element of the range, then the remainder `(start, stop - start)` when `start < stop`. */
  function Cut(start: int, stop: int, step: int): seq<(int, int)>
    requires step != 0
    decreases if step > 0 then stop - start else start - stop
  {
    if Continues(start, stop, step) then [(start, step)] + Cut(start + step, stop, step)
    else if start < stop then [(start, stop - start)]
    else []
  }

  /** Every value the call can give: `None` for step 0, where `range` raises `ValueError`. */
  function CutIterSpec(start: int, stop: Option<int>, step: int): Option<seq<(int, int)>>
  {
    if step == 0 then None
    else if stop.None? then Some(Cut(0, start, step))
    else Some(Cut(start, stop.value, step))
  }

  /** The generator, run to the end. */
  method CutIterRun(start0: int, stop0: Option<int>, step: int) returns (r: Option<seq<(int, int)>>)
    ensures r == CutIterSpec(start0, stop0, step)
  {
    if step == 0 {
      return None;
    }
    var start, stop := start0, 0;
    if stop0.None? {
      start, stop := 0, start0;
    } else {
      stop := stop0.value;
    }
    ghost var whole := Cut(start, stop, step);
    var out: seq<(int, int)> := [];
    var mid := start + step;
    while (step > 0 && mid < stop) || (step < 0 && mid > stop)
      invariant mid == start + step
      invariant out + Cut(start, stop, step) == whole
      decreases if step > 0 then stop - mid else mid - stop
    {
      assert out + [(start, step)] + Cut(mid, stop, step) == out + Cut(start, stop, step);
      out := out + [(start, step)];
      start := mid;
      mid := mid + step;
    }
    if start < stop {
      out := out + [(start, stop - start)];
    } else {
      assert out + [] == out;
    }
    return Some(out);
  }

  /** Total size of a run of pieces. */
  function Sizes(ps: seq<(int, int)>): int
  {
    if ps == [] then 0 else ps[0].1 + Sizes(ps[1..])
  }

  /** With a positive step nothing is yielded exactly when `stop <= start`. */
  lemma CutEmpty(start: int, stop: int, step: int)
    requires step > 0
    ensures Cut(start, stop, step) == [] <==> stop <= start
  {
  }

  /** With a positive step the pieces tile `[start, stop)`: the first starts at `start`, each
      next one where the previous ends, and the last ends at `stop`. */
  lemma {:induction false} CutTiles(start: int, stop: int, step: int)
    requires step > 0
    ensures var r := Cut(start, stop, step);
            && (r != [] ==> r[0].0 == start && r[|r| - 1].0 + r[|r| - 1].1 == stop)
            && (forall i :: 0 <= i < |r| - 1 ==> r[i].0 + r[i].1 == r[i + 1].0)
    decreases stop - start
  {
    var r := Cut(start, stop, step);
    if Continues(start, stop, step) {
      var rest := Cut(start + step, stop, step);
      CutTiles(start + step, stop, step);
      CutEmpty(start + step, stop, step);
      assert r == [(start, step)] + rest;
      forall i | 0 <= i < |r| - 1
        ensures r[i].0 + r[i].1 == r[i + 1].0
      {
        if i > 0 {
          assert r[i] == rest[i - 1] && r[i + 1] == rest[i];
        }
      }
    }
  }

  /** With a positive step every size lies in `1..step`. */
  lemma {:induction false} CutSizesBounded(start: int, stop: int, step: int)
    requires step > 0
    ensures forall i :: 0 <= i < |Cut(start, stop, step)| ==> 1 <= Cut(start, stop, step)[i].1 <= step
    decreases stop - start
  {
    if Continues(start, stop, step) {
      var rest := Cut(start + step, stop, step);
      CutSizesBounded(start + step, stop, step);
      assert Cut(start, stop, step) == [(start, step)] + rest;
    }
  }

  /** The sizes add up to the length of the range. */
  lemma {:induction false} CutCovers(start: int, stop: int, step: int)
    requires step > 0 && start <= stop
    ensures Sizes(Cut(start, stop, step)) == stop - start
    decreases stop - start
  {
    if Continues(start, stop, step) {
      CutCovers(start + step, stop, step);
      assert Cut(start, stop, step)[1..] == Cut(start + step, stop, step);
    } else if start < stop {
      assert Cut(start, stop, step)[1..] == [];
    }
  }

  /** The one-argument form cuts `[0, n)`. */
  lemma OneArgumentCutsFromZero(n: int, step: int)
    requires step > 0
    ensures CutIterSpec(n, None, step).Some?
    ensures var r := CutIterSpec(n, None, step).value;
            && (r == [] <==> n <= 0)
            && (r != [] ==> r[0].0 == 0 && r[|r| - 1].0 + r[|r| - 1].1 == n)
            && (n >= 0 ==> Sizes(r) == n)
  {
    CutEmpty(0, n, step);
    CutTiles(0, n, step);
    if n >= 0 {
      CutCovers(0, n, step);
    }
  }

  /** With a negative step the generator counts down and reports negative sizes. */
  lemma NegativeStepExample()
    ensures CutIterSpec(10, Some(0), -3) == Some([(10, -3), (7, -3), (4, -3)])
    ensures CutIterSpec(0, Some(10), -3) == Some([(0, 10)])
  {
    assert Cut(1, 0, -3) == [];
    assert Cut(4, 0, -3) == [(4, -3)];
    assert Cut(7, 0, -3) == [(7, -3), (4, -3)];
    assert Cut(10, 0, -3) == [(10, -3), (7, -3), (4, -3)];
    assert Cut(0, 10, -3) == [(0, 10)];
  }
}
