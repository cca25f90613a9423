/** The map of requests in flight and the cancellations that use it. */
module TransportInFlight {
  import opened Options
  import opened JsonRpc
  import opened TransportSteps
  import opened TransportAnswers

  // ---------------------------------------------------------------------------------------------
  // The map of requests in flight

  /** Between the insertion and the first erasure. */
  predicate Running(p: Phase) { p.Executing? || p.Returned? || (p.Raised? && !p.erased) }

  /** The same, and for ever if the tool threw something that is not a std::exception, which no
      handler catches: then the entry is left behind. */
  predicate Holding(p: Phase) { Running(p) || (p.Dropped? && p.reason.NotStdException?) }

  ghost predicate Holds(c: Call, key: string, tool: string) {
    Holding(c.phase) && c.key == key && ToolIn(c.phase) == Some(tool)
  }

  ghost predicate Held(calls: seq<Call>, key: string, tool: string) {
    exists i :: 0 <= i < |calls| && Holds(calls[i], key, tool)
  }

  /** Every entry belongs to a call that holds it: the right tool under the right id. */
  ghost predicate Sound(s: Session) {
    forall key :: key in s.inFlight ==> Held(s.calls, key, s.inFlight[key])
  }

  /** The running calls, or with `left` those too that left an entry behind. */
  predicate Counts(p: Phase, left: bool) { if left then Holding(p) else Running(p) }

  /** Each of these calls has its entry. */
  ghost predicate Complete(s: Session, left: bool) {
    forall i :: 0 <= i < |s.calls| && Counts(s.calls[i].phase, left) ==> HasEntry(s.inFlight, s.calls[i])
  }

  ghost predicate HasEntry(inFlight: map<string, string>, c: Call)
    requires ToolIn(c.phase).Some?
  {
    c.key in inFlight && inFlight[c.key] == ToolIn(c.phase).value
  }

  /** Such a call, or one that still has an erasure ahead. */
  predicate Open(p: Phase, left: bool) { Counts(p, left) || p.Raised? }

  ghost predicate OpenKeysDistinct(calls: seq<Call>, left: bool) {
    forall i, j :: 0 <= i < j < |calls| && Open(calls[i].phase, left) && Open(calls[j].phase, left) ==>
      calls[i].key != calls[j].key
  }

  /** What a step does to the map and to what the call holds. */
  lemma MapStep(c: Call, initialized: bool, step: Step)
    requires Applies(c.phase, step)
    ensures
      var p := PhaseAfter(c, initialized, step);
      && (step.Insert? ==> !Holding(c.phase) && Running(p) && ToolIn(p) == Some(c.phase.tool))
      && (step.Erase? ==> (Running(c.phase) || c.phase.Raised?) && !Holding(p))
      && (!step.Insert? && !step.Erase? ==> Holding(p) == Holding(c.phase) && (Running(p) ==> Running(c.phase)))
      && (Holding(c.phase) && Holding(p) ==> ToolIn(p) == ToolIn(c.phase))
  {
    hide ArgumentsOk, NamesTool, ToolOf;
  }

  lemma OtherMap(s: Session, step: Step)
    requires Enabled(s, step) && forall i: nat :: !ActsOn(step, i)
    ensures Next(s, step).inFlight == s.inFlight && s.calls <= Next(s, step).calls
    ensures forall k :: |s.calls| <= k < |Next(s, step).calls| ==> Next(s, step).calls[k].phase == Queued
  {
    hide ReadNext, NewCall;
    NotOnCall(step);
    if step.Read? {
      ReadReads(s, step.handled);
      NewCallQueued(s.lines[s.pos]);
    }
  }

  lemma StillHeld(calls: seq<Call>, i: nat, c: Call, key: string, tool: string)
    requires i < |calls| && Held(calls, key, tool)
    requires Holds(calls[i], key, tool) ==> Holds(c, key, tool)
    ensures Held(calls[i := c], key, tool)
  {
    hide Holds;
    var k :| 0 <= k < |calls| && Holds(calls[k], key, tool);
    assert Holds(calls[i := c][k], key, tool);
  }

  lemma SoundStep(s: Session, step: Step)
    requires Sound(s) && Enabled(s, step)
    ensures Sound(Next(s, step))
  {
    hide Next, Moves, Enabled;
    var t := Next(s, step);
    if i: nat :| ActsOn(step, i) {
      StepBound(s, step, i);
      MapStep(s.calls[i], s.initialized, step);
      var c := t.calls[i];
      forall key | key in t.inFlight ensures Held(t.calls, key, t.inFlight[key]) {
        if step.Insert? && key == c.key {
          assert Holds(t.calls[i], key, t.inFlight[key]);
        } else {
          StillHeld(s.calls, i, c, key, s.inFlight[key]);
        }
      }
    } else {
      OtherMap(s, step);
      forall key | key in t.inFlight ensures Held(t.calls, key, t.inFlight[key]) {
        var k :| 0 <= k < |s.calls| && Holds(s.calls[k], key, s.inFlight[key]);
        assert t.calls[k] == s.calls[k];
      }
    }
  }

  lemma StepBound(s: Session, step: Step, i: nat)
    requires Enabled(s, step) && ActsOn(step, i)
    ensures i < |s.calls| == |Next(s, step).calls| && Applies(s.calls[i].phase, step)
    ensures Next(s, step).calls == s.calls[i := s.calls[i].(phase := PhaseAfter(s.calls[i], s.initialized, step))]
    ensures Next(s, step).inFlight == MapAfter(s.inFlight, s.calls[i], step)
  {
    hide Next, PhaseAfter, MapAfter, Enabled;
    CallStep(s, step, i);
  }

  lemma CompleteStep(s: Session, step: Step, left: bool)
    requires Complete(s, left) && Enabled(s, step)
    requires OpenKeysDistinct(s.calls, left) && OpenKeysDistinct(Next(s, step).calls, left)
    ensures Complete(Next(s, step), left)
  {
    hide Next, Moves, Enabled;
    var t := Next(s, step);
    if i: nat :| ActsOn(step, i) {
      StepBound(s, step, i);
      MapStep(s.calls[i], s.initialized, step);
      forall k | 0 <= k < |t.calls| && Counts(t.calls[k].phase, left) ensures HasEntry(t.inFlight, t.calls[k]) {
        if k != i {
          assert t.calls[k] == s.calls[k];
          assert step.Insert? ==> t.calls[k].key != t.calls[i].key;
          assert step.Erase? ==> s.calls[k].key != s.calls[i].key;
        }
      }
    } else {
      OtherMap(s, step);
      forall k | 0 <= k < |t.calls| && Counts(t.calls[k].phase, left) ensures HasEntry(t.inFlight, t.calls[k]) {
        assert t.calls[k] == s.calls[k];
      }
    }
  }

  /** An erasure leaves the others their entries exactly when no other call holds one under the same
      key; so with the ids 1 and "1" in flight the first to end takes the other's entry away. */
  lemma ErasureLosesSharedKey(s: Session, i: nat, left: bool)
    requires Complete(s, left) && Enabled(s, Erase(i))
    ensures
      Complete(Next(s, Erase(i)), left) <==>
        forall j :: 0 <= j < |s.calls| && j != i && Counts(s.calls[j].phase, left) ==> s.calls[j].key != s.calls[i].key
  {
    hide Next, Moves, Enabled;
    var t := Next(s, Erase(i));
    StepBound(s, Erase(i), i);
    MapStep(s.calls[i], s.initialized, Erase(i));
    if j :| 0 <= j < |s.calls| && j != i && Counts(s.calls[j].phase, left) && s.calls[j].key == s.calls[i].key {
      assert t.calls[j] == s.calls[j] && !HasEntry(t.inFlight, t.calls[j]);
    } else {
      forall k | 0 <= k < |t.calls| && Counts(t.calls[k].phase, left) ensures HasEntry(t.inFlight, t.calls[k]) {
        assert k != i && t.calls[k] == s.calls[k];
      }
    }
  }

  /** An insertion overwrites: it leaves the others their entries exactly when every other call that
      holds one under the same key holds it for the same tool. */
  lemma InsertionSharesKey(s: Session, i: nat, left: bool)
    requires Complete(s, left) && Enabled(s, Insert(i))
    ensures
      Complete(Next(s, Insert(i)), left) <==>
        forall j ::
          0 <= j < |s.calls| && j != i && Counts(s.calls[j].phase, left) && s.calls[j].key == s.calls[i].key ==>
          ToolIn(s.calls[j].phase) == ToolIn(s.calls[i].phase)
  {
    hide Next, Moves, Enabled;
    var t := Next(s, Insert(i));
    StepBound(s, Insert(i), i);
    MapStep(s.calls[i], s.initialized, Insert(i));
    if j :| 0 <= j < |s.calls| && j != i && Counts(s.calls[j].phase, left) && s.calls[j].key == s.calls[i].key
            && ToolIn(s.calls[j].phase) != ToolIn(s.calls[i].phase) {
      assert t.calls[j] == s.calls[j] && !HasEntry(t.inFlight, t.calls[j]);
    } else {
      forall k | 0 <= k < |t.calls| && Counts(t.calls[k].phase, left) ensures HasEntry(t.inFlight, t.calls[k]) {
        assert k != i ==> t.calls[k] == s.calls[k];
      }
    }
  }

  /** A number and a string with the same digits share a key. */
  lemma NumberAndStringShareKey(digits: string)
    ensures Number(digits) != String(digits) && KeyOf(Number(digits)) == KeyOf(String(digits))
  {
  }

  // ---------------------------------------------------------------------------------------------
  // Cancellation

  /** A call of `tool` under `key` has been entered in the map. */
  ghost predicate Entered(calls: seq<Call>, key: string, tool: string) {
    exists i :: 0 <= i < |calls| && EnteredAs(calls[i], key, tool)
  }

  ghost predicate EnteredAs(c: Call, key: string, tool: string) {
    && c.key == key && NamesTool(c.params) && ToolOf(c.params) == tool && ArgumentsOk(c.params)
    && !c.phase.Queued? && !c.phase.Ready?
  }

  ghost predicate Aimed(s: Session) {
    && (s.reader.Forwarding? ==> Entered(s.calls, s.reader.key, s.reader.tool))
    && (forall c :: c in s.cancels ==> Entered(s.calls, c.0, c.1))
  }

  lemma HeldEntered(s: Session, key: string, tool: string)
    requires CallsOk(s) && Held(s.calls, key, tool)
    ensures Entered(s.calls, key, tool)
  {
    var i :| 0 <= i < |s.calls| && Holds(s.calls[i], key, tool);
    assert CallOk(s.calls[i], s.initialized);
    assert EnteredAs(s.calls[i], key, tool);
  }

  lemma GoesOn(c: Call, initialized: bool, step: Step)
    requires Applies(c.phase, step) && !c.phase.Queued? && !c.phase.Ready?
    ensures
      var p := PhaseAfter(c, initialized, step);
      !p.Queued? && !p.Ready?
  {
    hide Checked;
  }

  lemma EnteredStays(s: Session, step: Step, key: string, tool: string)
    requires Enabled(s, step) && Entered(s.calls, key, tool)
    ensures Entered(Next(s, step).calls, key, tool)
  {
    hide Next, Moves, Enabled, NamesTool, ArgumentsOk, ToolOf;
    var t := Next(s, step);
    var k :| 0 <= k < |s.calls| && EnteredAs(s.calls[k], key, tool);
    if i: nat :| ActsOn(step, i) {
      StepBound(s, step, i);
      if i == k {
        GoesOn(s.calls[i], s.initialized, step);
      }
      assert EnteredAs(t.calls[k], key, tool);
    } else {
      OtherMap(s, step);
      assert t.calls[k] == s.calls[k];
    }
  }

  lemma AimedStep(s: Session, step: Step)
    requires Aimed(s) && Sound(s) && CallsOk(s) && Enabled(s, step)
    ensures Aimed(Next(s, step))
  {
    hide Next, Moves, Entered, ReadNext, CallOk;
    var t := Next(s, step);
    forall key, tool | Entered(s.calls, key, tool) ensures Entered(t.calls, key, tool) {
      EnteredStays(s, step, key, tool);
    }
    forall key | key in s.inFlight ensures Entered(s.calls, key, s.inFlight[key]) {
      HeldEntered(s, key, s.inFlight[key]);
    }
    CancelsStep(s, step);
  }

  lemma CancelsStep(s: Session, step: Step)
    requires Enabled(s, step)
    ensures
      var t := Next(s, step);
      && (t.reader.Forwarding? ==>
            t.reader == s.reader || (t.reader.key in s.inFlight && s.inFlight[t.reader.key] == t.reader.tool))
      && (forall c :: c in t.cancels ==> c in s.cancels || (s.reader.Forwarding? && c == (s.reader.key, s.reader.tool)))
  {
    hide Next;
    if i: nat :| ActsOn(step, i) {
      CallStep(s, step, i);
    } else {
      NotOnCall(step);
      if step.Read? {
        ReadIsNext(s, step.handled);
        ReadReads(s, step.handled);
      } else {
        CancelsElse(s, step);
      }
    }
  }

  lemma CancelsElse(s: Session, step: Step)
    requires Enabled(s, step) && (step.Test? || step.Stop? || step.Push? || step.Forward? || step.Return?)
    ensures
      var t := Next(s, step);
      && (t.reader.Forwarding? ==> t.reader == s.reader)
      && (forall c :: c in t.cancels ==> c in s.cancels || (s.reader.Forwarding? && c == (s.reader.key, s.reader.tool)))
  {
  }
}
