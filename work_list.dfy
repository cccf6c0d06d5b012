/** The work list of `updatedb` in updatedb.py: directory ids are taken from the front of
    a deque; an id already synced is skipped; a sync that reports the directory gone drops
    the id, one that reports the listing busy puts the id back at the end, one that
    succeeds marks the id seen and, when `recursive` is set, appends its subdirectories.
    Any other exception ends the run.

    `updatedb_one` is an oracle: the run is given the replies of its successive calls. When
    they run out the model stops, with the queue that was left. */
module WorkList {

  /** What one `updatedb_one(client, con, id)` call does: succeed (with the subdirectory
      ids the database then holds), raise `FileNotFoundError` / `NotADirectoryError`, raise
      `OSBusyError`, or raise anything else. */
  datatype Reply = Ok(subdirs: seq<int>) | Gone | Busy | Crash

  /** The deque, the `seen` set, the ids synced so far in order, and the replies still to come. */
  datatype State = State(dq: seq<int>, seen: set<int>, synced: seq<int>, replies: seq<Reply>)

  /** How the run ends: the deque drained, an exception left, or no reply left to give. */
  datatype End = Drained | Crashed | OutOfReplies

  /** One turn of `while dq:` on a non-empty deque. */
  function Step(recursive: bool, s: State): (t: State)
    requires s.dq != [] && (s.dq[0] !in s.seen ==> s.replies != [])
  {
    var id := s.dq[0];
    if id in s.seen then s.(dq := s.dq[1..])
    else
      match s.replies[0]
      case Ok(subs) => State(s.dq[1..] + (if recursive then subs else []), s.seen + {id}, s.synced + [id], s.replies[1..])
      case Busy => s.(dq := s.dq[1..] + [id], replies := s.replies[1..])
      case _ => s.(dq := s.dq[1..], replies := s.replies[1..])
  }

  function Run(recursive: bool, s: State): (r: (End, State))
    decreases |s.replies|, |s.dq|
  {
    if s.dq == [] then (Drained, s)
    else if s.dq[0] !in s.seen && s.replies == [] then (OutOfReplies, s)
    else if s.dq[0] !in s.seen && s.replies[0] == Crash then (Crashed, Step(recursive, s))
    else Run(recursive, Step(recursive, s))
  }

  /** `updatedb`'s loop from the top-level ids on. */
  function UpdateDbSpec(top: seq<int>, recursive: bool, replies: seq<Reply>): (End, State)
  {
    Run(recursive, State(top, {}, [], replies))
  }

  // ---------------------------------------------------------------------------
  // One turn

  /** An id already seen is skipped without a call. */
  lemma SkipSeen(recursive: bool, s: State)
    requires s.dq != [] && s.dq[0] in s.seen
    ensures Step(recursive, s) == s.(dq := s.dq[1..])
  {
  }

  /** `OSBusyError` puts the id back at the end of the deque; it is not marked seen. */
  lemma BusyRequeues(recursive: bool, s: State)
    requires s.dq != [] && s.dq[0] !in s.seen && s.replies != [] && s.replies[0] == Busy
    ensures var t := Step(recursive, s);
            t.dq == s.dq[1..] + [s.dq[0]] && t.seen == s.seen && t.synced == s.synced
  {
  }

  /** A directory that is gone is dropped without being marked seen. */
  lemma GoneDropped(recursive: bool, s: State)
    requires s.dq != [] && s.dq[0] !in s.seen && s.replies != [] && s.replies[0] == Gone
    ensures var t := Step(recursive, s);
            t.dq == s.dq[1..] && t.seen == s.seen && s.dq[0] !in t.seen
  {
  }

  /** A successful sync marks the id seen, and appends its subdirectories exactly when
      `recursive` is set. */
  lemma OkMarksSeen(recursive: bool, s: State)
    requires s.dq != [] && s.dq[0] !in s.seen && s.replies != [] && s.replies[0].Ok?
    ensures var t := Step(recursive, s);
            && t.seen == s.seen + {s.dq[0]} && t.synced == s.synced + [s.dq[0]]
            && t.dq == s.dq[1..] + (if recursive then s.replies[0].subdirs else [])
  {
  }

  // ---------------------------------------------------------------------------
  // Whole runs

  predicate NoRepeats(xs: seq<int>)
  {
    forall i, j :: 0 <= i < j < |xs| ==> xs[i] != xs[j]
  }

  /** `seen` holds exactly the ids synced, each once. */
  ghost predicate SeenIsSynced(s: State)
  {
    NoRepeats(s.synced) && forall x :: x in s.seen <==> x in s.synced
  }

  lemma StepKeepsSeen(recursive: bool, s: State)
    requires s.dq != [] && (s.dq[0] !in s.seen ==> s.replies != []) && SeenIsSynced(s)
    ensures SeenIsSynced(Step(recursive, s))
  {
    var t := Step(recursive, s);
    if s.dq[0] !in s.seen && s.replies[0].Ok? {
      forall i, j | 0 <= i < j < |t.synced|
        ensures t.synced[i] != t.synced[j]
      {
        if j == |s.synced| {
          assert t.synced[i] == s.synced[i];
        } else {
          assert t.synced[i] == s.synced[i] && t.synced[j] == s.synced[j];
        }
      }
    }
  }

  /** Every directory is synced successfully at most once, and `seen` ends as the set of ids
      synced. */
  lemma {:induction false} RunSyncsOnce(recursive: bool, s: State)
    requires SeenIsSynced(s)
    ensures SeenIsSynced(Run(recursive, s).1)
    decreases |s.replies|, |s.dq|
  {
    if s.dq != [] && !(s.dq[0] !in s.seen && s.replies == []) {
      StepKeepsSeen(recursive, s);
      if !(s.dq[0] !in s.seen && s.replies[0] == Crash) {
        RunSyncsOnce(recursive, Step(recursive, s));
      }
    }
  }

  /** Without `recursive`, only top-level ids are ever synced or queued. */
  lemma {:induction false} FlatRunStaysOnTop(s: State, top: set<int>)
    requires forall i :: 0 <= i < |s.dq| ==> s.dq[i] in top
    requires forall i :: 0 <= i < |s.synced| ==> s.synced[i] in top
    ensures forall i :: 0 <= i < |Run(false, s).1.dq| ==> Run(false, s).1.dq[i] in top
    ensures forall i :: 0 <= i < |Run(false, s).1.synced| ==> Run(false, s).1.synced[i] in top
    decreases |s.replies|, |s.dq|
  {
    if s.dq != [] && !(s.dq[0] !in s.seen && s.replies == []) {
      var t := Step(false, s);
      forall i | 0 <= i < |t.dq|
        ensures t.dq[i] in top
      {
        if s.dq[0] !in s.seen && s.replies[0] == Busy && i == |t.dq| - 1 {
        } else {
          assert t.dq[i] == s.dq[i + 1];
        }
      }
      forall i | 0 <= i < |t.synced|
        ensures t.synced[i] in top
      {
        if i < |s.synced| { assert t.synced[i] == s.synced[i]; }
      }
      if !(s.dq[0] !in s.seen && s.replies[0] == Crash) {
        FlatRunStaysOnTop(t, top);
        assert Run(false, s) == Run(false, t);
      } else {
        assert Run(false, s).1 == t;
      }
    }
  }

  /** A drained run ends with an empty deque; a run that ran out of replies still had an
      unseen id to sync. */
  lemma {:induction false} RunEnds(recursive: bool, s: State)
    ensures var (e, t) := Run(recursive, s);
            && (e == Drained ==> t.dq == [])
            && (e == OutOfReplies ==> t.dq != [] && t.dq[0] !in t.seen && t.replies == [])
    decreases |s.replies|, |s.dq|
  {
    if s.dq != [] && !(s.dq[0] !in s.seen && s.replies == []) && !(s.dq[0] !in s.seen && s.replies[0] == Crash) {
      RunEnds(recursive, Step(recursive, s));
    }
  }

  /** The loop of `updatedb`. */
  method UpdateDb(top: seq<int>, recursive: bool, replies: seq<Reply>)
      returns (end: End, seen: set<int>, synced: seq<int>)
    ensures var (e, t) := UpdateDbSpec(top, recursive, replies);
            end == e && seen == t.seen && synced == t.synced
  {
    var dq := top;
    seen := {};
    synced := [];
    var c := 0;
    ghost var whole := UpdateDbSpec(top, recursive, replies);
    while dq != []
      invariant 0 <= c <= |replies|
      invariant whole == Run(recursive, State(dq, seen, synced, replies[c..]))
      decreases |replies| - c, |dq|
    {
      var id := dq[0];
      ghost var s := State(dq, seen, synced, replies[c..]);
      dq := dq[1..];
      if id in seen {
        continue;
      }
      if c == |replies| {
        return OutOfReplies, seen, synced;
      }
      var reply := replies[c];
      assert replies[c..][1..] == replies[c + 1..];
      c := c + 1;
      match reply {
        case Crash =>
          return Crashed, seen, synced;
        case Gone =>
        case Busy =>
          dq := dq + [id];
        case Ok(subs) =>
          seen := seen + {id};
          synced := synced + [id];
          if recursive {
            dq := dq + subs;
          }
      }
      assert State(dq, seen, synced, replies[c..]) == Step(recursive, s);
    }
    assert whole.0 == Drained;
    end := Drained;
  }
}
