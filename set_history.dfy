/**
 The attribute `set` listener of an attachment column, as a state machine over
 the attachment an owning record holds (`None` when the column is unset).

 `SetEffect` is what one `set` event registers for deletion after commit;
 `Replay` follows a whole history of assignments to one column and collects
 every registration, in order. The lemmas say which values end up queued.
 */
module SetHistory {
  import opened Values

  /** The registrations caused by one `set` event with previous value
      `oldValue`, assigned value `newValue`, and `current` the value the
      listener reads back from the record. `None` means the listener raises:
      it has to copy the current value and there is none. */
  function SetEffect(oldValue: Option<Entries>, newValue: Option<Entries>, current: Option<Entries>): Option<seq<Entries>>
  {
    if oldValue.None? then Some([])
    else if newValue.Some? then Some([])
    else if current.None? then None
    else Some([current.value])
  }

  /** What this listener registers for one assignment on a column whose
      live value is `live`: it acts only when a held value is cleared. */
  function Step(live: Option<Entries>, next: Option<Entries>): seq<Entries>
  {
    if live.Some? && next.None? then [live.value] else []
  }

  /** The listener fires while the record still holds the previous value, so
      the value it reads back is the previous one: then it never raises and
      registers what `Step` says. */
  lemma StepIsSetEffect(live: Option<Entries>, next: Option<Entries>)
    ensures SetEffect(live, next, live) == Some(Step(live, next))
  {
  }

  /** The value held just before the `i`-th assignment of `hs`. */
  function Before(live: Option<Entries>, hs: seq<Option<Entries>>, i: nat): Option<Entries>
    requires i < |hs|
  {
    if i == 0 then live else hs[i - 1]
  }

  /** The value held after every assignment of `hs`. */
  function Final(live: Option<Entries>, hs: seq<Option<Entries>>): Option<Entries>
  {
    if hs == [] then live else hs[|hs| - 1]
  }

  /** The pending-delete queue entries this listener produces while `hs` is
      assigned, one value after another, to a column that holds `live`. */
  function Replay(live: Option<Entries>, hs: seq<Option<Entries>>): seq<Entries>
    decreases |hs|
  {
    if hs == [] then [] else Step(live, hs[0]) + Replay(hs[0], hs[1..])
  }

  /** Number of assignments of `None` (clears) in `hs`. */
  function Clears(hs: seq<Option<Entries>>): nat
  {
    if hs == [] then 0 else (if hs[0].None? then 1 else 0) + Clears(hs[1..])
  }

  /** Number of assignments of an attachment in `hs`. */
  function Assignments(hs: seq<Option<Entries>>): nat
  {
    if hs == [] then 0 else (if hs[0].Some? then 1 else 0) + Assignments(hs[1..])
  }

  /** Replaying one more assignment appends exactly that assignment's
      registrations to the queue built so far. */
  lemma {:induction false} ReplayExtend(live: Option<Entries>, hs: seq<Option<Entries>>, h: Option<Entries>)
    ensures Replay(live, hs + [h]) == Replay(live, hs) + Step(Final(live, hs), h)
    decreases |hs|
  {
    if hs == [] {
      assert [] + [h] == [h];
      assert Replay(h, []) == [];
    } else {
      var hs' := hs + [h];
      assert hs'[0] == hs[0];
      assert hs'[1..] == hs[1..] + [h];
      ReplayExtend(hs[0], hs[1..], h);
      assert Final(hs[0], hs[1..]) == Final(live, hs);
    }
  }

  /** This listener does not act on replacements: without a clear it
      queues nothing, whatever the column held before. */
  lemma {:induction false} ReplayWithoutClears(live: Option<Entries>, hs: seq<Option<Entries>>)
    requires forall i :: 0 <= i < |hs| ==> hs[i].Some?
    ensures Replay(live, hs) == []
    decreases |hs|
  {
    if hs != [] {
      assert hs[0].Some?;
      ReplayWithoutClears(hs[0], hs[1..]);
    }
  }

  /** Each registration is caused by a distinct clear. */
  lemma {:induction false} ReplayBoundedByClears(live: Option<Entries>, hs: seq<Option<Entries>>)
    ensures |Replay(live, hs)| <= Clears(hs)
    decreases |hs|
  {
    if hs != [] {
      ReplayBoundedByClears(hs[0], hs[1..]);
    }
  }

  /** The queue is no longer than the number of values the column ever
      held: the initial one, if any, plus every assigned one. */
  lemma {:induction false} ReplayBoundedByLiveValues(live: Option<Entries>, hs: seq<Option<Entries>>)
    ensures |Replay(live, hs)| <= Assignments(hs) + (if live.Some? then 1 else 0)
    decreases |hs|
  {
    if hs != [] {
      ReplayBoundedByLiveValues(hs[0], hs[1..]);
    }
  }

  /** Soundness: every queued entry is the value the column held just before
      some clear. */
  lemma {:induction false} ReplayEntriesWereCleared(live: Option<Entries>, hs: seq<Option<Entries>>, j: nat)
    requires j < |Replay(live, hs)|
    ensures exists i :: 0 <= i < |hs| && hs[i].None? && Before(live, hs, i) == Some(Replay(live, hs)[j])
    decreases |hs|
  {
    var s := Step(live, hs[0]);
    if j < |s| {
      assert hs[0].None? && Before(live, hs, 0) == Some(Replay(live, hs)[j]);
    } else {
      ReplayEntriesWereCleared(hs[0], hs[1..], j - |s|);
      var i' :| 0 <= i' < |hs[1..]| && hs[1..][i'].None? && Before(hs[0], hs[1..], i') == Some(Replay(hs[0], hs[1..])[j - |s|]);
      assert Before(live, hs, i' + 1) == Before(hs[0], hs[1..], i');
    }
  }

  /** Completeness: clearing a column that holds a value queues that value. */
  lemma {:induction false} ReplayCoversEveryClear(live: Option<Entries>, hs: seq<Option<Entries>>, i: nat)
    requires i < |hs| && hs[i].None? && Before(live, hs, i).Some?
    ensures Before(live, hs, i).value in Replay(live, hs)
    decreases i
  {
    if i > 0 {
      assert Before(hs[0], hs[1..], i - 1) == Before(live, hs, i);
      ReplayCoversEveryClear(hs[0], hs[1..], i - 1);
    }
  }
}
