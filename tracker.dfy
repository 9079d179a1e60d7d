/**
 * The binary progress tracker of one exercise sheet
 * (app/components/Tracker.tsx): a set of done bubble indices, flipped
 * optimistically, persisted with a delete or an upsert, and put back when the
 * write fails or when nobody is signed in.
 */
module Tracker {
  import opened Common
  import opened Catalogue

  /** `new Set(prev)` with `index` deleted when it was there and added when it was not. */
  function Flipped(done: set<int>, index: int): (r: set<int>)
    ensures index in r <==> index !in done
    ensures forall i :: i != index ==> (i in r <==> i in done)
  {
    if index in done then done - {index} else done + {index}
  }

  /** `new Set(prev)` with the membership of `index` set to `member`. */
  function WithMembership(done: set<int>, index: int, member: bool): (r: set<int>)
    ensures index in r <==> member
    ensures forall i :: i != index ==> (i in r <==> i in done)
  {
    if member then done + {index} else done - {index}
  }

  /** Setting the old membership back after a flip gives the original set. */
  lemma {:induction false} RevertAfterFlip(done: set<int>, index: int)
    ensures WithMembership(Flipped(done, index), index, index in done) == done
  {
    var r := WithMembership(Flipped(done, index), index, index in done);
    forall i
      ensures i in r <==> i in done
    {
      if i != index {
        assert i in Flipped(done, index) <==> i in done;
      }
    }
  }

  /** The indices the load loop collects: rows whose status (null read as todo) is done. */
  function DoneIndices(rows: seq<ProgressRow>): set<int>
    decreases |rows|
  {
    if rows == [] then {}
    else
      var last := rows[|rows| - 1];
      DoneIndices(rows[..|rows| - 1]) + (if IsDoneRow(last) then {last.index} else {})
  }

  /** An index is loaded as done exactly when some row gives it status done. */
  lemma {:induction false} DoneIndicesExactly(rows: seq<ProgressRow>, index: int)
    ensures index in DoneIndices(rows) <==> exists k :: 0 <= k < |rows| && rows[k].index == index && IsDoneRow(rows[k])
    decreases |rows|
  {
    if rows != [] {
      var n := |rows| - 1;
      DoneIndicesExactly(rows[..n], index);
      if exists k :: 0 <= k < |rows| && rows[k].index == index && IsDoneRow(rows[k]) {
        var k :| 0 <= k < |rows| && rows[k].index == index && IsDoneRow(rows[k]);
        if k < n {
          assert rows[..n][k] == rows[k];
        }
      }
      if index in DoneIndices(rows[..n]) {
        var k :| 0 <= k < n && rows[..n][k].index == index && IsDoneRow(rows[..n][k]);
        assert rows[k] == rows[..n][k];
      }
    }
  }

  /** The `forEach` that fills `next` from the loaded rows. */
  method BuildDoneSet(rows: seq<ProgressRow>) returns (next: set<int>)
    ensures next == DoneIndices(rows)
  {
    next := {};
    for i := 0 to |rows|
      invariant next == DoneIndices(rows[..i])
    {
      assert rows[..i + 1][..i] == rows[..i];
      if IsDoneRow(rows[i]) {
        next := next + {rows[i].index};
      }
    }
    assert rows[..|rows|] == rows;
  }

  /** The write a signed-in toggle sends. */
  datatype ProgressWrite =
    | DeleteDone(exerciseRef: int, index: int)   // delete the 'done' row of this bubble
    | UpsertDone(exerciseRef: int, index: int)   // upsert this bubble with status 'done'

  /** What one toggle did besides the optimistic flip. */
  datatype ToggleEffect =
    | Ignored                                     // no client or no sheet id: nothing at all
    | RevertScheduled(index: int, wasDone: bool)  // anonymous: the flip is to be undone later
    | Sent(write: ProgressWrite, failed: bool)    // signed in: the write and whether it failed

  /** The write that persists flipping `index` away from `wasDone`. */
  function WriteFor(exerciseRef: int, index: int, wasDone: bool): (w: ProgressWrite)
    ensures w.exerciseRef == exerciseRef && w.index == index
    ensures w.DeleteDone? <==> wasDone
  {
    if wasDone then DeleteDone(exerciseRef, index) else UpsertDone(exerciseRef, index)
  }

  /** `Math.max(1, Number.isFinite(totalExos) ? totalExos : 1)`; None is an absent or non-finite prop. */
  function BubbleCount(totalExos: Option<int>): (count: int)
    ensures count >= 1
    ensures totalExos.Some? && totalExos.value >= 1 ==> count == totalExos.value
    ensures totalExos.None? || totalExos.value <= 1 ==> count == 1
  {
    match totalExos
    case None => 1
    case Some(n) => if n >= 1 then n else 1
  }

  /** The component's state for one sheet. */
  class TrackerView {
    /** Whether the shared database client exists. */
    const clientConfigured: bool
    /** The numeric sheet id; None when `parseInt` gave NaN. Zero and NaN are falsy. */
    const exerciseRef: Option<int>
    var userId: Option<string>
    var doneSet: set<int>

    constructor (clientConfigured: bool, exerciseRef: Option<int>)
      ensures this.clientConfigured == clientConfigured && this.exerciseRef == exerciseRef
      ensures userId == None && doneSet == {}
    {
      this.clientConfigured := clientConfigured;
      this.exerciseRef := exerciseRef;
      userId := None;
      doneSet := {};
    }

    predicate HasSheet()
      reads this
    {
      exerciseRef.Some? && exerciseRef.value != 0
    }

    /**
     * The load effect: remember who is signed in; with a user and a sheet id,
     * a successful query (`rows` not None) replaces the set by the done indices.
     */
    method Load(user: Option<string>, rows: Option<seq<ProgressRow>>)
      modifies this
      ensures !clientConfigured ==> userId == old(userId) && doneSet == old(doneSet)
      ensures clientConfigured ==> userId == (if user == Some("") then None else user)
      ensures doneSet ==
                if clientConfigured && user.Some? && HasSheet() && rows.Some? then DoneIndices(rows.value)
                else old(doneSet)
    {
      if !clientConfigured {
        return;
      }
      userId := if user == Some("") then None else user;
      if user.Some? && HasSheet() && rows.Some? {
        var next := BuildDoneSet(rows.value);
        doneSet := next;
      }
    }

    /**
     * `toggleExercise`: flip `index` at once; without a user, schedule the
     * revert; with one, send the delete or the upsert and, if it fails,
     * restore the membership `index` had before.
     */
    method ToggleExercise(index: int, writeFails: bool) returns (effect: ToggleEffect)
      modifies this
      ensures userId == old(userId)
      ensures !clientConfigured || !HasSheet() ==> effect == Ignored && doneSet == old(doneSet)
      ensures clientConfigured && HasSheet() && userId == None ==>
                effect == RevertScheduled(index, index in old(doneSet)) && doneSet == Flipped(old(doneSet), index)
      ensures clientConfigured && HasSheet() && userId != None ==>
                effect == Sent(WriteFor(exerciseRef.value, index, index in old(doneSet)), writeFails) &&
                doneSet == (if writeFails then old(doneSet) else Flipped(old(doneSet), index))
    {
      if !clientConfigured || !HasSheet() {
        return Ignored;
      }
      var isDone := index in doneSet;
      doneSet := Flipped(doneSet, index);
      if userId == None {
        return RevertScheduled(index, isDone);
      }
      var write := WriteFor(exerciseRef.value, index, isDone);
      if writeFails {
        doneSet := WithMembership(doneSet, index, isDone);
        RevertAfterFlip(old(doneSet), index);
      }
      effect := Sent(write, writeFails);
    }

    /** The deferred step of an anonymous toggle: `index` gets back the membership it had. */
    method RevertLater(index: int, wasDone: bool)
      modifies this
      ensures userId == old(userId)
      ensures doneSet == WithMembership(old(doneSet), index, wasDone)
    {
      doneSet := WithMembership(doneSet, index, wasDone);
    }
  }

  /**
   * Without a signed-in user, a toggle followed by its deferred step leaves the
   * set as it was, and nothing is written.
   */
  method AnonymousToggle(view: TrackerView, index: int, writeFails: bool) returns (effect: ToggleEffect)
    requires view.userId == None
    modifies view
    ensures view.doneSet == old(view.doneSet)
    ensures !effect.Sent?
  {
    effect := view.ToggleExercise(index, writeFails);
    if effect.RevertScheduled? {
      view.RevertLater(effect.index, effect.wasDone);
      RevertAfterFlip(old(view.doneSet), index);
    }
  }
}
