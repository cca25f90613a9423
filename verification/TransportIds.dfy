/** Ids: the map of requests in flight over whole runs, and what a cancellation reaches. */
module TransportIds {
  import opened Options
  import opened JsonRpc
  import opened TransportSteps
  import opened TransportAnswers
  import opened TransportInFlight
  import opened TransportLaws

  // ---------------------------------------------------------------------------------------------
  // Calls that run at the same time under different ids

  /** At no time in the run do two open calls share a key; an id may come back once its call is over. */
  ghost predicate DistinctThroughout(s: Session, steps: seq<Step>, left: bool)
    requires IsRun(s, steps)
    decreases |steps|
  {
    OpenKeysDistinct(s.calls, left) && (steps == [] || DistinctThroughout(Next(s, steps[0]), steps[1..], left))
  }

  lemma {:induction false} CompleteRun(s: Session, steps: seq<Step>, left: bool)
    requires IsRun(s, steps) && Complete(s, left) && DistinctThroughout(s, steps, left)
    ensures Complete(After(s, steps), left)
    decreases |steps|
  {
    hide Next, Enabled, Complete, OpenKeysDistinct;
    if steps != [] {
      CompleteStep(s, steps[0], left);
      CompleteRun(Next(s, steps[0]), steps[1..], left);
    }
  }

  /** When calls that run at the same time have different keys, then in every interleaving and on every
      way out the map is exactly the calls between insertion and completion: each has its entry, and
      each entry is one of them or was left behind. */
  lemma InFlightExact(lines: seq<Line>, steps: seq<Step>)
    requires IsRun(Start(lines), steps) && DistinctThroughout(Start(lines), steps, false)
    ensures
      var s := After(Start(lines), steps);
      && (forall i :: 0 <= i < |s.calls| && Running(s.calls[i].phase) ==> HasEntry(s.inFlight, s.calls[i]))
      && (forall key :: key in s.inFlight ==> Held(s.calls, key, s.inFlight[key]))
  {
    hide Next, Enabled, CallsOk, ReaderOk, Balanced, Aimed, HasEntry, Held, DistinctThroughout;
    InvStart(lines);
    InvRun(Start(lines), steps);
    CompleteRun(Start(lines), steps, false);
  }

  // ---------------------------------------------------------------------------------------------
  // Ids that never come back

  /** No two calls of the input share the string form of their id. Calls without an id, which all
      run under "null", may repeat. */
  ghost predicate DistinctIds(lines: seq<Line>) {
    var calls := Started(lines, |lines|);
    forall i, j :: 0 <= i < j < |calls| && calls[i].key == calls[j].key ==> calls[i].id.None? && calls[j].id.None?
  }

  lemma DistinctIdsOpen(s: Session, left: bool)
    requires FromInput(s) && ReaderOk(s) && DistinctIds(s.lines)
    ensures OpenKeysDistinct(s.calls, left)
  {
    hide NewCall;
    StartedPrefix(s.lines, s.pos, |s.lines|);
    var all := Started(s.lines, |s.lines|);
    forall i, j | 0 <= i < j < |s.calls| && Open(s.calls[i].phase, left) && Open(s.calls[j].phase, left)
      ensures s.calls[i].key != s.calls[j].key
    {
      assert SameCall(s.calls[i], all[i]) && SameCall(s.calls[j], all[j]);
    }
  }

  lemma {:induction false} DistinctIdsThroughout(s: Session, steps: seq<Step>, left: bool)
    requires FromInput(s) && ReaderOk(s) && DistinctIds(s.lines) && IsRun(s, steps)
    ensures DistinctThroughout(s, steps, left)
    decreases |steps|
  {
    hide ReaderOk, Next, Enabled, OpenKeysDistinct, FromInput, DistinctIds;
    DistinctIdsOpen(s, left);
    if steps != [] {
      FromInputStep(s, steps[0]);
      ReaderOkStep(s, steps[0]);
      LinesStep(s, steps[0]);
      DistinctIdsThroughout(Next(s, steps[0]), steps[1..], left);
    }
  }

  /** If no id of a call comes back in the whole input, all that holds, and the entries left behind
      stay as well. */
  lemma DistinctIdsExact(lines: seq<Line>, steps: seq<Step>)
    requires IsRun(Start(lines), steps) && DistinctIds(lines)
    ensures
      var s := After(Start(lines), steps);
      && (forall i :: 0 <= i < |s.calls| && Holding(s.calls[i].phase) ==> HasEntry(s.inFlight, s.calls[i]))
      && (forall key :: key in s.inFlight ==> Held(s.calls, key, s.inFlight[key]))
      && OpenKeysDistinct(s.calls, true)
  {
    hide Next, Enabled, CallsOk, ReaderOk, Balanced, Aimed, HasEntry, Held, DistinctIds;
    InvStart(lines);
    InvRun(Start(lines), steps);
    FromInputRun(Start(lines), steps);
    LinesStay(Start(lines), steps);
    DistinctIdsOpen(After(Start(lines), steps), true);
    DistinctIdsThroughout(Start(lines), steps, true);
    CompleteRun(Start(lines), steps, true);
  }

  // ---------------------------------------------------------------------------------------------
  // Cancellation reaches the tool that runs

  predicate IsCancel(l: Line) {
    l.Parsed? && ContentOf(l.message).Request? && ContentOf(l.message).kind == Cancelled
  }

  function CancelledId(l: Line): Option<Json>
    requires IsCancel(l)
  {
    Member(ContentOf(l.message).params, "requestId")
  }

  lemma CancelReads(s: Session, h: Handled)
    requires Enabled(s, Read(h)) && IsCancel(s.lines[s.pos])
    ensures
      var id := CancelledId(s.lines[s.pos]);
      Next(s, Read(h)).reader ==
        if id.Some? && KeyOf(id.value) in s.inFlight then Forwarding(KeyOf(id.value), s.inFlight[KeyOf(id.value)])
        else AtTest
  {
    hide ContentOf, KeyOf;
  }

  /** In every run, a cancellation goes on only to a tool that some call holds under that id; and to the
      tool of the call that is running under its id, whenever there is one and calls that run at the
      same time have different keys. */
  lemma CancelAimsAtRunning(lines: seq<Line>, steps: seq<Step>, h: Handled)
    requires IsRun(Start(lines), steps) && Enabled(After(Start(lines), steps), Read(h))
    requires IsCancel(After(Start(lines), steps).lines[After(Start(lines), steps).pos])
    ensures
      var s := After(Start(lines), steps);
      var id, r := CancelledId(s.lines[s.pos]), Next(s, Read(h)).reader;
      && (r.Forwarding? ==> id.Some? && r.key == KeyOf(id.value) && Held(s.calls, r.key, r.tool))
      && (DistinctThroughout(Start(lines), steps, false) && id.Some? ==>
            forall i :: 0 <= i < |s.calls| && Running(s.calls[i].phase) && s.calls[i].key == KeyOf(id.value) ==>
              r == Forwarding(s.calls[i].key, ToolIn(s.calls[i].phase).value))
  {
    hide Next, Enabled, CallsOk, ReaderOk, Balanced, Aimed, Held, DistinctThroughout, IsCancel, CancelledId, KeyOf;
    InvStart(lines);
    InvRun(Start(lines), steps);
    var s := After(Start(lines), steps);
    CancelReads(s, h);
    if DistinctThroughout(Start(lines), steps, false) {
      InFlightExact(lines, steps);
    }
  }

  lemma CancelsStayAimed(lines: seq<Line>, steps: seq<Step>)
    requires IsRun(Start(lines), steps)
    ensures
      var s := After(Start(lines), steps);
      forall c :: c in s.cancels ==> Entered(s.calls, c.0, c.1)
  {
    hide Next, Enabled, CallsOk, ReaderOk, Balanced, Sound, Entered;
    InvStart(lines);
    InvRun(Start(lines), steps);
  }

  lemma HoldingStep(s: Session, step: Step, i: nat)
    requires Enabled(s, step) && i < |s.calls|
    ensures i < |Next(s, step).calls|
    ensures
      var p, q := s.calls[i].phase, Next(s, step).calls[i].phase;
      && (Holding(p) ==> (Holding(q) <==> step != Erase(i)) && (Holding(q) ==> ToolIn(q) == ToolIn(p)))
      && (Spent(p) ==> Spent(q))
      && (Holding(p) && step == Erase(i) ==> Spent(q))
      && Next(s, step).calls[i].key == s.calls[i].key
  {
    hide Next, Enabled, Moves;
    if j: nat :| ActsOn(step, j) {
      StepBound(s, step, j);
      if j == i {
        MapStep(s.calls[i], s.initialized, step);
        SpentStep(s.calls[i], s.initialized, step);
      }
    } else {
      OtherMap(s, step);
      assert Next(s, step).calls[i] == s.calls[i];
      NotErase(step, i);
    }
  }

  lemma NotErase(step: Step, i: nat)
    requires !ActsOn(step, i)
    ensures step != Erase(i)
  {
  }

  /** Past its first erasure. */
  predicate Spent(p: Phase) {
    (p.Raised? && p.erased) || p.Answering? || p.Answered? || (p.Dropped? && !p.reason.NotStdException?)
  }

  lemma SpentStep(c: Call, initialized: bool, step: Step)
    requires Applies(c.phase, step)
    ensures Spent(c.phase) || step.Erase? ==> Spent(PhaseAfter(c, initialized, step))
    ensures step.Erase? ==> !Holding(PhaseAfter(c, initialized, step))
  {
    hide Checked;
  }

  /** A call that holds an entry holds it until it makes its erasure, and never again. */
  lemma {:induction false} HoldsUntilErased(s: Session, steps: seq<Step>, i: nat)
    requires IsRun(s, steps) && i < |s.calls| && (Holding(s.calls[i].phase) || Spent(s.calls[i].phase))
    ensures i < |After(s, steps).calls| && After(s, steps).calls[i].key == s.calls[i].key
    ensures
      var p, q := s.calls[i].phase, After(s, steps).calls[i].phase;
      && (Holding(p) ==> (Holding(q) <==> Erase(i) !in steps) && (Holding(q) ==> ToolIn(q) == ToolIn(p)))
      && (Spent(p) ==> Spent(q))
    decreases |steps|
  {
    hide Next, Enabled;
    if steps != [] {
      HoldingStep(s, steps[0], i);
      assert Erase(i) in steps <==> Erase(i) == steps[0] || Erase(i) in steps[1..];
      HoldsUntilErased(Next(s, steps[0]), steps[1..], i);
    }
  }

  /** The lock is released between the lookup and the hand-over.  The call a cancellation was looked up
      for still holds its entry after any gap, so also when the cancellation is handed over, exactly when
      it made no erasure in the gap. */
  lemma CancelReachesHolder(lines: seq<Line>, before: seq<Step>, h: Handled, gap: seq<Step>) returns (i: nat)
    requires IsRun(Start(lines), before) && Enabled(After(Start(lines), before), Read(h))
    requires IsRun(Next(After(Start(lines), before), Read(h)), gap)
    requires Next(After(Start(lines), before), Read(h)).reader.Forwarding?
    ensures
      var s := After(Start(lines), before);
      var r, t := Next(s, Read(h)).reader, After(Next(s, Read(h)), gap);
      && i < |s.calls| <= |t.calls| && Holds(s.calls[i], r.key, r.tool)
      && (Holds(t.calls[i], r.key, r.tool) <==> Erase(i) !in gap)
  {
    hide CallsOk, ReaderOk, Balanced, Aimed, Next, Enabled, ReadNext;
    InvStart(lines);
    InvRun(Start(lines), before);
    var s := After(Start(lines), before);
    var r := Next(s, Read(h)).reader;
    ReaderIsReading(s, h);
    CancelsStep(s, Read(h));
    i :| 0 <= i < |s.calls| && Holds(s.calls[i], r.key, r.tool);
    HoldingStep(s, Read(h), i);
    HoldsUntilErased(Next(s, Read(h)), gap, i);
    CallsGrow(Next(s, Read(h)), gap);
    OtherMap(s, Read(h));
  }

  lemma ReaderIsReading(s: Session, h: Handled)
    requires Enabled(s, Read(h))
    ensures s.reader == AtGetline && forall i: nat :: !ActsOn(Read(h), i)
  {
  }

  lemma {:induction false} CallsGrow(s: Session, steps: seq<Step>)
    requires IsRun(s, steps)
    ensures |s.calls| <= |After(s, steps).calls|
    decreases |steps|
  {
    hide Next, Enabled, ReadNext;
    if steps != [] {
      if i: nat :| ActsOn(steps[0], i) {
        CallStep(s, steps[0], i);
      } else {
        OtherMap(s, steps[0]);
      }
      CallsGrow(Next(s, steps[0]), steps[1..]);
    }
  }
}
