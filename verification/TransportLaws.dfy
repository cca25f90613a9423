/** What every run of the transport keeps, and that Run returns. */
module TransportLaws {
  import opened JsonRpc
  import opened TransportSteps
  import opened TransportAnswers
  import opened TransportInFlight

  // ---------------------------------------------------------------------------------------------
  // Every run

  ghost predicate Inv(s: Session) { CallsOk(s) && ReaderOk(s) && Balanced(s) && Sound(s) && Aimed(s) }

  lemma {:induction false} InvRun(s: Session, steps: seq<Step>)
    requires Inv(s) && IsRun(s, steps)
    ensures Inv(After(s, steps))
    decreases |steps|
  {
    hide CallsOk, ReaderOk, Balanced, Sound, Aimed, Next, Enabled;
    if steps != [] {
      CallsOkStep(s, steps[0]);
      ReaderOkStep(s, steps[0]);
      BalancedStep(s, steps[0]);
      SoundStep(s, steps[0]);
      AimedStep(s, steps[0]);
      InvRun(Next(s, steps[0]), steps[1..]);
    }
  }

  lemma InvStart(lines: seq<Line>)
    ensures Inv(Start(lines))
  {
  }

  /** The lines a run consumed never change. */
  lemma {:induction false} LinesStay(s: Session, steps: seq<Step>)
    requires IsRun(s, steps)
    ensures After(s, steps).lines == s.lines
    decreases |steps|
  {
    hide Next, Enabled, ReadNext;
    if steps != [] {
      LinesStep(s, steps[0]);
      LinesStay(Next(s, steps[0]), steps[1..]);
    }
  }

  lemma LinesStep(s: Session, step: Step)
    requires Enabled(s, step)
    ensures Next(s, step).lines == s.lines
  {
    hide ReadNext;
    if i: nat :| ActsOn(step, i) {
      CallStep(s, step, i);
    } else if step.Read? {
      ReadReads(s, step.handled);
    }
  }

  /** Only dropped calls that have an id go without an answer. */
  ghost predicate NoneDropped(calls: seq<Call>) {
    forall k :: 0 <= k < |calls| && calls[k].id.Some? ==> !calls[k].phase.Dropped?
  }

  lemma {:induction false} NothingUnanswered(calls: seq<Call>)
    requires forall k :: 0 <= k < |calls| ==> Finished(calls[k].phase)
    ensures Unanswered(calls) == multiset{} <==> NoneDropped(calls)
  {
    if calls != [] {
      var n := |calls| - 1;
      NothingUnanswered(calls[..n]);
      assert forall k :: 0 <= k < n ==> calls[..n][k] == calls[k];
      if calls[n].id.Some? && calls[n].phase.Dropped? {
        assert calls[n].id.value in Owed(calls[n]);
        assert calls[n].id.value in Unanswered(calls);
      } else {
        assert Owed(calls[n]) == multiset{};
        assert Unanswered(calls) == Unanswered(calls[..n]);
        assert NoneDropped(calls[..n]) <==> NoneDropped(calls);
      }
    }
  }

  /** The session as Run leaves it. */
  ghost predicate AllSaid(s: Session) {
    && s.pos <= |s.lines| && (s.running ==> s.pos == |s.lines|)
    && (forall k :: 0 <= k < |s.calls| ==> Finished(s.calls[k].phase))
    && ReplyIds(s.output) + Unanswered(s.calls) == Due(s.lines, s.pos)
    && (ReplyIds(s.output) == Due(s.lines, s.pos) <==> NoneDropped(s.calls))
  }

  lemma DoneAllSaid(s: Session)
    requires Inv(s) && s.reader == Done
    ensures AllSaid(s)
  {
    hide ReplyIds, Due, CallsOk, Sound, Aimed, Unanswered;
    NothingUnanswered(s.calls);
    assert ReplyIds(s.output) + multiset{} == ReplyIds(s.output);
    assert |ReplyIds(s.output) + Unanswered(s.calls)| == |ReplyIds(s.output)| + |Unanswered(s.calls)|;
  }

  // ---------------------------------------------------------------------------------------------
  // Every call comes from a line

  /** The calls the first `n` lines start, as they start. */
  function Started(lines: seq<Line>, n: nat): seq<Call>
    requires n <= |lines|
  {
    if n == 0 then [] else Started(lines, n - 1) + NewCall(lines[n - 1])
  }

  ghost predicate FromInput(s: Session) {
    && s.pos <= |s.lines|
    && |s.calls| == |Started(s.lines, s.pos)|
    && forall k :: 0 <= k < |s.calls| ==> SameCall(s.calls[k], Started(s.lines, s.pos)[k])
  }

  ghost predicate SameCall(c: Call, d: Call) { c.id == d.id && c.key == d.key && c.params == d.params }

  lemma FromInputStep(s: Session, step: Step)
    requires FromInput(s) && Enabled(s, step)
    ensures FromInput(Next(s, step))
  {
    hide Next, NewCall, ReadNext, Enabled, Started, FromInput;
    if i: nat :| ActsOn(step, i) {
      CallStep(s, step, i);
      FromInputCall(s, Next(s, step), i);
    } else {
      NotOnCall(step);
      if step.Read? {
        FromInputRead(s, step.handled);
      } else {
        FromInputElse(s, step);
        FromInputSame(s, Next(s, step));
      }
    }
  }

  lemma FromInputCall(s: Session, t: Session, i: nat)
    requires FromInput(s) && i < |s.calls| && Moves(s, t, i)
    ensures FromInput(t)
  {
    hide Started;
  }

  lemma FromInputSame(s: Session, t: Session)
    requires FromInput(s) && t.lines == s.lines && t.pos == s.pos && t.calls == s.calls
    ensures FromInput(t)
  {
  }

  lemma FromInputRead(s: Session, h: Handled)
    requires FromInput(s) && Enabled(s, Read(h))
    ensures FromInput(Next(s, Read(h)))
  {
    hide ReadNext, NewCall, IsInitialize, Tells, ReplyIds;
    ReadReads(s, h);
    var l, n := s.lines[s.pos], s.pos + 1;
    assert Started(s.lines, n) == Started(s.lines, s.pos) + NewCall(l);
  }

  lemma FromInputElse(s: Session, step: Step)
    requires Enabled(s, step)
    requires step.Test? || step.Stop? || step.Push? || step.Forward? || step.Return?
    ensures
      var t := Next(s, step);
      t.lines == s.lines && t.pos == s.pos && t.calls == s.calls
  {
  }

  lemma {:induction false} StartedPrefix(lines: seq<Line>, n: nat, m: nat)
    requires n <= m <= |lines|
    ensures Started(lines, n) <= Started(lines, m)
    decreases m - n
  {
    hide NewCall;
    if n < m {
      StartedPrefix(lines, n, m - 1);
    }
  }

  lemma {:induction false} FromInputRun(s: Session, steps: seq<Step>)
    requires FromInput(s) && IsRun(s, steps)
    ensures FromInput(After(s, steps))
    decreases |steps|
  {
    hide FromInput, Next, Enabled;
    if steps != [] {
      FromInputStep(s, steps[0]);
      FromInputRun(Next(s, steps[0]), steps[1..]);
    }
  }

  // ---------------------------------------------------------------------------------------------
  // What can go wrong

  /** The line takes Run down: its method is no string, or its handler throws. */
  predicate ReadFails(l: Line, initialized: bool, h: Handled) {
    l.Parsed? &&
    (ContentOf(l.message).NoMethodName?
     || (ContentOf(l.message).Request? && ContentOf(l.message).kind == Served && initialized && h.Throws?))
  }

  /** The steps that fail: such a line; arguments that cannot take a "_requestId"; a tool that throws
      something other than a std::exception; an answer that cannot be dumped. */
  predicate Fails(s: Session, step: Step)
    requires Enabled(s, step)
  {
    match step
    case Read(h) => ReadFails(s.lines[s.pos], s.initialized, h)
    case Check(i, known) =>
      s.initialized && known && NamesTool(s.calls[i].params) && !ArgumentsOk(s.calls[i].params)
    case End(_, ending) => ending.OtherException?
    case Send(i, printable) => s.calls[i].id.Some? && !printable
    case _ => false
  }

  /** A failing step of a call with an id loses its answer, any other takes Run down. */
  predicate LosesAnswer(s: Session, step: Step)
    requires Enabled(s, step)
  {
    Fails(s, step) && !step.Read? && s.calls[step.call].id.Some?
  }

  predicate BreaksRun(s: Session, step: Step)
    requires Enabled(s, step)
  {
    Fails(s, step) && (step.Read? || s.calls[step.call].id.None?)
  }

  ghost predicate EverLoses(s: Session, steps: seq<Step>)
    requires IsRun(s, steps)
    decreases |steps|
  {
    steps != [] && (LosesAnswer(s, steps[0]) || EverLoses(Next(s, steps[0]), steps[1..]))
  }

  ghost predicate EverBreaks(s: Session, steps: seq<Step>)
    requires IsRun(s, steps)
    decreases |steps|
  {
    steps != [] && (BreaksRun(s, steps[0]) || EverBreaks(Next(s, steps[0]), steps[1..]))
  }

  lemma FailsDrops(s: Session, step: Step, i: nat)
    requires Enabled(s, step) && ActsOn(step, i)
    ensures PhaseAfter(s.calls[i], s.initialized, step).Dropped? <==> Fails(s, step)
  {
    hide NamesTool, ArgumentsOk, ToolOf;
  }

  lemma ReadThrows(s: Session, h: Handled)
    requires s.pos < |s.lines|
    ensures ReadNext(s, h).reader == Thrown <==> ReadFails(s.lines[s.pos], s.initialized, h)
  {
    hide ContentOf, KeyOf;
  }

  lemma LosesStep(s: Session, step: Step)
    requires Enabled(s, step)
    ensures NoneDropped(Next(s, step).calls) <==> NoneDropped(s.calls) && !LosesAnswer(s, step)
  {
    hide Next, Enabled, Fails, PhaseAfter;
    var t := Next(s, step);
    if i: nat :| ActsOn(step, i) {
      CallStep(s, step, i);
      FailsDrops(s, step, i);
      assert forall k :: 0 <= k < |s.calls| && k != i ==> t.calls[k] == s.calls[k];
      assert t.calls[i].id == s.calls[i].id && !s.calls[i].phase.Dropped?;
    } else {
      NotOnCall(step);
      OtherMap(s, step);
      OthersNeverLose(s, step);
      assert forall k :: 0 <= k < |s.calls| ==> t.calls[k] == s.calls[k];
    }
  }

  lemma OthersNeverLose(s: Session, step: Step)
    requires Enabled(s, step) && (step.Read? || step.Test? || step.Stop? || step.Push? || step.Forward? || step.Return?)
    ensures !LosesAnswer(s, step)
  {
  }

  lemma BreaksStep(s: Session, step: Step)
    requires Enabled(s, step) && ReaderOk(s)
    ensures Next(s, step).reader == Thrown <==> s.reader == Thrown || BreaksRun(s, step)
  {
    hide Next, ReadNext, ReadFails, PhaseAfter;
    if i: nat :| ActsOn(step, i) {
      CallStep(s, step, i);
      FailsDrops(s, step, i);
    } else {
      NotOnCall(step);
      if step.Read? {
        ReadIsNext(s, step.handled);
        ReadThrows(s, step.handled);
      } else {
        BreaksElse(s, step);
      }
    }
  }

  lemma BreaksElse(s: Session, step: Step)
    requires Enabled(s, step)
    requires step.Test? || step.Stop? || step.Push? || step.Forward? || step.Return?
    ensures !BreaksRun(s, step) && (Next(s, step).reader == Thrown <==> s.reader == Thrown)
  {
  }

  lemma {:induction false} RunFails(s: Session, steps: seq<Step>)
    requires IsRun(s, steps) && ReaderOk(s)
    ensures NoneDropped(After(s, steps).calls) <==> NoneDropped(s.calls) && !EverLoses(s, steps)
    ensures After(s, steps).reader == Thrown <==> s.reader == Thrown || EverBreaks(s, steps)
    decreases |steps|
  {
    hide Next, Enabled, ReaderOk, NoneDropped, LosesAnswer, BreaksRun;
    if steps != [] {
      LosesStep(s, steps[0]);
      BreaksStep(s, steps[0]);
      ReaderOkStep(s, steps[0]);
      RunFails(Next(s, steps[0]), steps[1..]);
    }
  }

  // ---------------------------------------------------------------------------------------------
  // Answers

  /** Run ends by an exception exactly when a step took it down. When it returns, every line has been
      read unless Stop was called and every call is over; and the answers written are those due, each
      once and under its own id, exactly when no step of a call with an id failed. */
  lemma AnsweredOnce(lines: seq<Line>, steps: seq<Step>)
    requires IsRun(Start(lines), steps)
    ensures
      var s := After(Start(lines), steps);
      && s.lines == lines && (s.reader == Thrown <==> EverBreaks(Start(lines), steps))
      && (s.reader == Done ==>
            && s.pos <= |lines| && (s.running ==> s.pos == |lines|)
            && (forall k :: 0 <= k < |s.calls| ==> Finished(s.calls[k].phase))
            && ReplyIds(s.output) + Unanswered(s.calls) == Due(lines, s.pos)
            && (ReplyIds(s.output) == Due(lines, s.pos) <==> NoneDropped(s.calls))
            && (ReplyIds(s.output) == Due(lines, s.pos) <==> !EverLoses(Start(lines), steps)))
  {
    hide Next, Enabled, ReplyIds, Due, CallsOk, ReaderOk, Balanced, Sound, Aimed, Unanswered, EverLoses, EverBreaks;
    InvStart(lines);
    InvRun(Start(lines), steps);
    LinesStay(Start(lines), steps);
    RunFails(Start(lines), steps);
    if After(Start(lines), steps).reader == Done {
      DoneAllSaid(After(Start(lines), steps));
    }
  }

  // ---------------------------------------------------------------------------------------------
  // Clean sessions

  /** A client that sends method names as strings, and arguments, if any, as an object or null. */
  ghost predicate CleanInput(lines: seq<Line>) { forall n :: 0 <= n < |lines| ==> CleanLine(lines[n]) }

  ghost predicate CleanLine(l: Line) {
    l.Parsed? ==>
      && !ContentOf(l.message).NoMethodName?
      && (ContentOf(l.message).Request? && ContentOf(l.message).kind == ToolsCall ==>
            ArgumentsOk(ContentOf(l.message).params))
  }

  /** Handlers that do not throw, tools that throw std::exceptions only, answers that can be dumped. */
  predicate CleanStep(step: Step) {
    match step
    case Read(h) => h.Gives?
    case End(_, ending) => !ending.OtherException?
    case Send(_, printable) => printable
    case _ => true
  }

  ghost predicate ArgumentsAllOk(calls: seq<Call>) { forall k :: 0 <= k < |calls| ==> ArgumentsOk(calls[k].params) }

  lemma {:induction false} StartedClean(lines: seq<Line>, n: nat)
    requires CleanInput(lines) && n <= |lines|
    ensures ArgumentsAllOk(Started(lines, n))
  {
    hide ContentOf, KeyOf, ArgumentsOk;
    if n > 0 {
      StartedClean(lines, n - 1);
      assert CleanLine(lines[n - 1]);
      var before, added := Started(lines, n - 1), NewCall(lines[n - 1]);
      assert forall k :: 0 <= k < |before + added| ==>
        (before + added)[k] == if k < |before| then before[k] else added[k - |before|];
    }
  }

  lemma CleanNeverFails(s: Session, step: Step)
    requires FromInput(s) && CleanInput(s.lines) && Enabled(s, step) && CleanStep(step)
    ensures !Fails(s, step)
  {
    hide ContentOf, ArgumentsOk, NamesTool, Started;
    StartedClean(s.lines, s.pos);
    if step.Check? {
      assert SameCall(s.calls[step.call], Started(s.lines, s.pos)[step.call]);
    } else if step.Read? {
      assert CleanLine(s.lines[s.pos]);
    }
  }

  lemma {:induction false} CleanRun(s: Session, steps: seq<Step>)
    requires FromInput(s) && CleanInput(s.lines) && IsRun(s, steps)
    requires forall k :: 0 <= k < |steps| ==> CleanStep(steps[k])
    ensures !EverLoses(s, steps) && !EverBreaks(s, steps)
    decreases |steps|
  {
    hide FromInput, CleanInput, Next, Enabled, Fails, CleanStep;
    if steps != [] {
      assert CleanStep(steps[0]);
      CleanNeverFails(s, steps[0]);
      FromInputStep(s, steps[0]);
      LinesStep(s, steps[0]);
      assert forall k :: 0 <= k < |steps[1..]| ==> steps[1..][k] == steps[k + 1];
      CleanRun(Next(s, steps[0]), steps[1..]);
    }
  }

  /** Of a clean client, with clean handlers and tools, in every interleaving: Run never throws, and
      when it returns every request with an id has its one answer and nothing else is answered. */
  lemma AllAnswered(lines: seq<Line>, steps: seq<Step>)
    requires IsRun(Start(lines), steps) && CleanInput(lines) && forall k :: 0 <= k < |steps| ==> CleanStep(steps[k])
    ensures
      var s := After(Start(lines), steps);
      && s.reader != Thrown
      && (s.reader == Done ==>
            s.pos <= |lines| && (s.running ==> s.pos == |lines|) && ReplyIds(s.output) == Due(lines, s.pos))
  {
    hide Next, Enabled, ReplyIds, Due, Unanswered, EverLoses, EverBreaks, CleanInput, CleanStep, NoneDropped;
    CleanRun(Start(lines), steps);
    AnsweredOnce(lines, steps);
  }

  // ---------------------------------------------------------------------------------------------
  // The verdicts

  /** The messages the answered calls have sent. */
  function CallReplies(calls: seq<Call>): multiset<Message> {
    if calls == [] then multiset{} else CallReplies(calls[..|calls| - 1]) + multiset(Said(calls[|calls| - 1]))
  }

  lemma {:induction false} CallRepliesUpdate(calls: seq<Call>, i: nat, c: Call)
    requires i < |calls|
    ensures CallReplies(calls[i := c]) + multiset(Said(calls[i])) == CallReplies(calls) + multiset(Said(c))
  {
    hide Said;
    var n := |calls| - 1;
    var rest := CallReplies(calls[..n]);
    var x, y, z := multiset(Said(c)), multiset(Said(calls[i])), multiset(Said(calls[n]));
    if i == n {
      assert calls[i := c][..n] == calls[..n];
      assert rest + x + y == rest + y + x;
    } else {
      assert calls[i := c][..n] == calls[..n][i := c];
      CallRepliesUpdate(calls[..n], i, c);
      var rest' := CallReplies(calls[..n][i := c]);
      assert rest' + z + y == rest' + y + z;
      assert rest + x + z == rest + z + x;
    }
  }

  lemma CallRepliesNew(calls: seq<Call>, l: Line)
    ensures CallReplies(calls + NewCall(l)) == CallReplies(calls)
  {
    hide ContentOf, KeyOf;
    NewCallQueued(l);
    if NewCall(l) == [] {
      assert calls + NewCall(l) == calls;
    } else {
      var c := NewCall(l)[0];
      assert c in NewCall(l);
      assert (calls + NewCall(l))[..|calls|] == calls;
      assert CallReplies(calls) + multiset{} == CallReplies(calls);
    }
  }

  lemma ReadAppends(s: Session, h: Handled)
    requires s.pos < |s.lines|
    ensures s.output <= ReadNext(s, h).output
  {
    hide ContentOf, KeyOf, LookUp;
    assert s.output <= s.output;
    LookUpSilent(s.(pos := s.pos + 1, reader := AtTest));
  }

  lemma LookUpSilent(s: Session)
    ensures forall params :: LookUp(s, params).output == s.output
  {
  }

  lemma PrefixCounts(a: seq<Message>, b: seq<Message>)
    requires a <= b
    ensures multiset(a) <= multiset(b)
  {
    assert b == a + b[|a|..];
  }

  ghost predicate Delivered(s: Session) { CallReplies(s.calls) <= multiset(s.output) }

  lemma DeliveredStep(s: Session, step: Step)
    requires Delivered(s) && Enabled(s, step)
    ensures Delivered(Next(s, step))
  {
    hide Next, Enabled, CallReplies, ReadNext, NewCall, Tells, IsInitialize;
    var t := Next(s, step);
    if i: nat :| ActsOn(step, i) {
      CallStep(s, step, i);
      CallRepliesUpdate(s.calls, i, t.calls[i]);
      assert Said(s.calls[i]) == [];
      assert CallReplies(t.calls) + multiset{} == CallReplies(t.calls);
      assert multiset(s.output + Said(t.calls[i])) == multiset(s.output) + multiset(Said(t.calls[i]));
    } else {
      NotOnCall(step);
      if step.Read? {
        ReadBounds(s, step.handled);
        ReadIsNext(s, step.handled);
        ReadReads(s, step.handled);
        CallRepliesNew(s.calls, s.lines[s.pos]);
        ReadAppends(s, step.handled);
        PrefixCounts(s.output, t.output);
      } else {
        DeliveredElse(s, step);
      }
    }
  }

  lemma ReadBounds(s: Session, h: Handled)
    requires Enabled(s, Read(h))
    ensures s.pos < |s.lines|
  {
  }

  lemma DeliveredElse(s: Session, step: Step)
    requires Delivered(s) && Enabled(s, step)
    requires step.Test? || step.Stop? || step.Push? || step.Forward? || step.Return?
    ensures Delivered(Next(s, step))
  {
    hide CallReplies;
    PrefixCounts(s.output, Next(s, step).output);
  }

  lemma {:induction false} DeliveredRun(s: Session, steps: seq<Step>)
    requires IsRun(s, steps) && Delivered(s)
    ensures Delivered(After(s, steps))
    decreases |steps|
  {
    hide Delivered, Next, Enabled;
    if steps != [] {
      DeliveredStep(s, steps[0]);
      DeliveredRun(Next(s, steps[0]), steps[1..]);
    }
  }

  /** In every run, each answered call's own verdict has been sent under its own id: the output holds
      the replies of all answered calls, verdict by verdict. */
  lemma VerdictsDelivered(lines: seq<Line>, steps: seq<Step>)
    requires IsRun(Start(lines), steps)
    ensures CallReplies(After(Start(lines), steps).calls) <= multiset(After(Start(lines), steps).output)
  {
    hide Next, Enabled;
    DeliveredRun(Start(lines), steps);
  }

  /** In every run, no tool is reached and nothing but a parse error or an invalid request is answered
      before an initialize request has been read; arguments that are neither an object nor null never
      reach a tool; and a call is answered by a result or an internal error only from a tool it names. */
  lemma NoToolBeforeInitialize(lines: seq<Line>, steps: seq<Step>)
    requires IsRun(Start(lines), steps)
    ensures
      var s := After(Start(lines), steps);
      && ((exists k :: 0 <= k < |s.calls| && ToolIn(s.calls[k].phase).Some?)
          || (exists m :: m in s.output && m.Reply? && !Refusal(m.verdict))
          ==> exists n :: 0 <= n < s.pos <= |lines| && IsInitialize(lines[n]))
      && (forall k :: 0 <= k < |s.calls| && ToolIn(s.calls[k].phase).Some? ==>
            && ArgumentsOk(s.calls[k].params) && NamesTool(s.calls[k].params)
            && ToolIn(s.calls[k].phase).value == ToolOf(s.calls[k].params))
      && (forall k :: 0 <= k < |s.calls| && s.calls[k].phase.Answered? ==>
            VerdictOk(s.calls[k], s.calls[k].phase.verdict, s.initialized))
      && (forall k :: 0 <= k < |s.calls| && s.calls[k].phase == Dropped(ArgumentsNoObject) ==>
            !ArgumentsOk(s.calls[k].params))
  {
    hide Next, Enabled, IsInitialize, ArgumentsOk, NamesTool, ToolOf, KeyOf, Sound, Aimed, ReplyIds, Due;
    InvStart(lines);
    InvRun(Start(lines), steps);
    LinesStay(Start(lines), steps);
    var s := After(Start(lines), steps);
    assert forall k :: 0 <= k < |s.calls| ==> CallOk(s.calls[k], s.initialized);
  }

  /** What a handler on the reader's thread does, tools/call_batch and the tools it runs included, makes
      a difference exactly when the session is initialized and the line asks for such a handler; so it
      is not entered before. */
  lemma HandlersNeedInitialize(s: Session, verdict: Verdict)
    requires Enabled(s, Read(Throws))
    ensures
      var l := s.lines[s.pos];
      Next(s, Read(Throws)) != Next(s, Read(Gives(verdict))) <==>
        s.initialized && l.Parsed? && ContentOf(l.message).Request? && ContentOf(l.message).kind == Served
  {
    hide ContentOf, KeyOf;
  }

  /** Not initialized, such a request is refused, if it has an id, and nothing else happens. */
  lemma ServedRefused(s: Session, h: Handled)
    requires Enabled(s, Read(h)) && !s.initialized && s.lines[s.pos].Parsed?
    requires ContentOf(s.lines[s.pos].message).Request? && ContentOf(s.lines[s.pos].message).kind == Served
    ensures
      var id := ContentOf(s.lines[s.pos].message).id;
      Next(s, Read(h)) == s.(pos := s.pos + 1, reader := AtTest,
        output := s.output + if id.Some? then [Reply(id.value, Failure(INVALID_REQUEST))] else [])
  {
    hide ContentOf, KeyOf;
    assert s.output + [] == s.output;
  }

  lemma {:induction false} FinishedStays(s: Session, steps: seq<Step>, k: nat)
    requires IsRun(s, steps) && k < |s.calls| && Finished(s.calls[k].phase)
    ensures k < |After(s, steps).calls| && After(s, steps).calls[k] == s.calls[k]
    decreases |steps|
  {
    hide Next, Enabled, ReadNext, NewCall;
    if steps != [] {
      if i: nat :| ActsOn(steps[0], i) {
        CallStep(s, steps[0], i);
      } else {
        OtherMap(s, steps[0]);
      }
      FinishedStays(Next(s, steps[0]), steps[1..], k);
    }
  }

  /** A call is never answered for its arguments exactly when it reaches a known tool of an
      initialized session with arguments that are neither an object nor null. */
  lemma IllTypedNeverAnswered(s: Session, k: nat, known: bool, steps: seq<Step>)
    requires Enabled(s, Check(k, known)) && IsRun(Next(s, Check(k, known)), steps)
    ensures
      var t := After(Next(s, Check(k, known)), steps);
      k < |t.calls| &&
      (t.calls[k].phase == Dropped(ArgumentsNoObject) <==>
        s.initialized && NamesTool(s.calls[k].params) && known && !ArgumentsOk(s.calls[k].params))
  {
    hide After, NamesTool, ArgumentsOk, ToolOf;
    var t := Next(s, Check(k, known));
    if Finished(t.calls[k].phase) {
      FinishedStays(t, steps, k);
    } else {
      OnlyCheckDrops(t, steps, k);
    }
  }

  /** Past its checks a call is not dropped for its arguments any more. */
  lemma {:induction false} OnlyCheckDrops(s: Session, steps: seq<Step>, k: nat)
    requires IsRun(s, steps) && k < |s.calls| && !s.calls[k].phase.Queued?
    requires s.calls[k].phase != Dropped(ArgumentsNoObject)
    ensures
      var t := After(s, steps);
      k < |t.calls| && t.calls[k].phase != Dropped(ArgumentsNoObject)
    decreases |steps|
  {
    hide Next, Enabled, ReadNext, NewCall;
    if steps != [] {
      if i: nat :| ActsOn(steps[0], i) {
        CallStep(s, steps[0], i);
        if i == k {
          StepBeyondChecks(s.calls[i], s.initialized, steps[0]);
        }
      } else {
        OtherMap(s, steps[0]);
      }
      OnlyCheckDrops(Next(s, steps[0]), steps[1..], k);
    }
  }

  lemma StepBeyondChecks(c: Call, initialized: bool, step: Step)
    requires Applies(c.phase, step) && !c.phase.Queued?
    ensures
      var p := PhaseAfter(c, initialized, step);
      !p.Queued? && p != Dropped(ArgumentsNoObject)
  {
    hide Checked;
  }

  ghost predicate LeftBehind(c: Call, key: string, tool: string) {
    c.key == key && c.phase == Dropped(NotStdException(tool))
  }

  /** Run returns with no entry left, unless a tool threw something that is not a std::exception. */
  lemma NothingInFlightAtReturn(lines: seq<Line>, steps: seq<Step>)
    requires IsRun(Start(lines), steps) && After(Start(lines), steps).reader == Done
    ensures
      var s := After(Start(lines), steps);
      forall key :: key in s.inFlight ==>
        exists k :: 0 <= k < |s.calls| && LeftBehind(s.calls[k], key, s.inFlight[key])
  {
    hide Next, Enabled, CallsOk, Balanced, Aimed;
    InvStart(lines);
    InvRun(Start(lines), steps);
    var s := After(Start(lines), steps);
    forall key | key in s.inFlight
      ensures exists k :: 0 <= k < |s.calls| && LeftBehind(s.calls[k], key, s.inFlight[key])
    {
      var k :| 0 <= k < |s.calls| && Holds(s.calls[k], key, s.inFlight[key]);
      assert Finished(s.calls[k].phase);
      assert LeftBehind(s.calls[k], key, s.inFlight[key]);
    }
  }

  // ---------------------------------------------------------------------------------------------
  // Run returns

  /** The transport's own steps, as opposed to Stop and PushNotification from outside. */
  predicate Internal(step: Step) { !step.Stop? && !step.Push? }

  predicate Over(r: Reader) { r == Done || r == Thrown }

  function Rank(p: Phase): nat {
    match p
    case Queued => 8
    case Ready(_) => 7
    case Executing(_) => 6
    case Returned(_, _) => 5
    case Raised(_, _) => 4
    case Answering(_) => 3
    case Answered(_) => 0
    case Dropped(_) => 0
  }

  function ReaderRank(r: Reader): nat {
    match r
    case AtTest => 2
    case AtGetline => 1
    case Calling(_) => 3
    case Forwarding(_, _) => 3
    case Draining => 1
    case Done => 0
    case Thrown => 0
  }

  function Ranks(calls: seq<Call>): nat {
    if calls == [] then 0 else Ranks(calls[..|calls| - 1]) + Rank(calls[|calls| - 1].phase)
  }

  function Work(s: Session): nat
    requires s.pos <= |s.lines|
  {
    Ranks(s.calls) + 12 * (|s.lines| - s.pos) + ReaderRank(s.reader)
  }

  lemma {:induction false} RanksUpdate(calls: seq<Call>, i: nat, c: Call)
    requires i < |calls|
    ensures Ranks(calls[i := c]) == Ranks(calls) - Rank(calls[i].phase) + Rank(c.phase)
  {
    hide Rank;
    var n := |calls| - 1;
    if i == n {
      assert calls[i := c][..n] == calls[..n];
    } else {
      assert calls[i := c][..n] == calls[..n][i := c];
      RanksUpdate(calls[..n], i, c);
    }
  }

  lemma RanksNew(calls: seq<Call>, l: Line)
    ensures Ranks(calls + NewCall(l)) <= Ranks(calls) + 8
  {
    hide ContentOf, KeyOf;
    NewCallQueued(l);
    if NewCall(l) == [] {
      assert calls + NewCall(l) == calls;
    } else {
      assert (calls + NewCall(l))[..|calls|] == calls;
    }
  }

  lemma RankDrops(c: Call, initialized: bool, step: Step)
    requires Applies(c.phase, step)
    ensures Rank(PhaseAfter(c, initialized, step)) < Rank(c.phase)
  {
    hide NamesTool, ArgumentsOk, ToolOf;
  }

  /** Every step of the transport's own brings the end nearer, */
  lemma WorkDecreases(s: Session, step: Step)
    requires ReaderOk(s) && Enabled(s, step) && Internal(step)
    ensures Next(s, step).pos <= |Next(s, step).lines| && Work(Next(s, step)) < Work(s)
  {
    hide Next, ReadNext, Ranks, Rank, NewCall, IsInitialize, Tells;
    if i: nat :| ActsOn(step, i) {
      CallStep(s, step, i);
      RankDrops(s.calls[i], s.initialized, step);
      RanksUpdate(s.calls, i, Next(s, step).calls[i]);
    } else {
      NotOnCall(step);
      if step.Read? {
        ReadIsNext(s, step.handled);
        ReadReads(s, step.handled);
        RanksNew(s.calls, s.lines[s.pos]);
      } else {
        WorkElse(s, step);
      }
    }
  }

  lemma WorkElse(s: Session, step: Step)
    requires ReaderOk(s) && Enabled(s, step) && (step.Test? || step.Forward? || step.Return?)
    ensures Next(s, step).pos <= |Next(s, step).lines| && Work(Next(s, step)) < Work(s)
  {
    hide Ranks, Rank;
  }

  function StepOf(c: Call, i: nat): Step
    requires !Finished(c.phase)
  {
    match c.phase
    case Queued => Check(i, true)
    case Ready(_) => Insert(i)
    case Executing(_) => End(i, Result(true))
    case Returned(_, _) => Erase(i)
    case Raised(_, _) => Erase(i)
    case Answering(_) => Send(i, true)
  }

  /** and until Run is over there is one to make: nothing waits for ever. */
  lemma WorkProgresses(s: Session) returns (step: Step)
    requires ReaderOk(s) && !Over(s.reader)
    ensures Enabled(s, step) && Internal(step) && CleanStep(step)
  {
    match s.reader
    case AtTest => step := Test;
    case AtGetline => step := Read(Gives(Success));
    case Calling(i) => step := StepOf(s.calls[i], i);
    case Forwarding(_, _) => step := Forward(false);
    case Draining =>
      if i :| 0 <= i < |s.calls| && !Finished(s.calls[i].phase) {
        step := StepOf(s.calls[i], i);
      } else {
        step := Return;
      }
  }

  lemma InvStep(s: Session, step: Step)
    requires Inv(s) && Enabled(s, step)
    ensures Inv(Next(s, step))
  {
    hide Inv, Next, Enabled;
    InvRun(s, [step]);
    assert After(s, [step]) == Next(s, step);
  }

  /** A run of steps of the transport's own is at most `Work` long, and when it can go no further
      Run has returned or thrown. */
  lemma {:induction false} RunEnds(s: Session, steps: seq<Step>)
    requires Inv(s) && IsRun(s, steps) && forall k :: 0 <= k < |steps| ==> Internal(steps[k])
    ensures
      var t := After(s, steps);
      && t.pos <= |t.lines| && |steps| + Work(t) <= Work(s)
      && (Over(t.reader) || exists step :: Internal(step) && CleanStep(step) && Enabled(t, step))
    decreases |steps|
  {
    hide Next, Enabled, CallsOk, Balanced, Sound, Aimed, Work, Internal, CleanStep;
    if steps == [] {
      if !Over(s.reader) {
        var step := WorkProgresses(s);
      }
    } else {
      assert Internal(steps[0]);
      WorkDecreases(s, steps[0]);
      InvStep(s, steps[0]);
      assert forall k :: 0 <= k < |steps[1..]| ==> steps[1..][k] == steps[k + 1];
      RunEnds(Next(s, steps[0]), steps[1..]);
    }
  }

  lemma {:induction false} RunningStays(s: Session, steps: seq<Step>)
    requires IsRun(s, steps) && forall k :: 0 <= k < |steps| ==> Internal(steps[k])
    ensures After(s, steps).running == s.running
    decreases |steps|
  {
    hide Next, Enabled, ReadNext;
    if steps != [] {
      assert Internal(steps[0]);
      RunningStep(s, steps[0]);
      assert forall k :: 0 <= k < |steps[1..]| ==> steps[1..][k] == steps[k + 1];
      RunningStays(Next(s, steps[0]), steps[1..]);
    }
  }

  lemma RunningStep(s: Session, step: Step)
    requires Enabled(s, step) && Internal(step)
    ensures Next(s, step).running == s.running
  {
    hide ReadNext;
    if i: nat :| ActsOn(step, i) {
      CallStep(s, step, i);
    } else if step.Read? {
      ReadReads(s, step.handled);
    }
  }

  /** A clean session with nobody stopping it comes to its end within the work of its input, and then
      Run has returned with every line read and every request with an id answered once. */
  lemma CleanRunReturns(lines: seq<Line>, steps: seq<Step>)
    requires IsRun(Start(lines), steps) && CleanInput(lines)
    requires forall k :: 0 <= k < |steps| ==> CleanStep(steps[k]) && Internal(steps[k])
    requires forall step :: Internal(step) && CleanStep(step) ==> !Enabled(After(Start(lines), steps), step)
    ensures
      var s := After(Start(lines), steps);
      && |steps| <= 12 * |lines| + 2 && s.reader == Done && s.pos == |lines|
      && ReplyIds(s.output) == Due(lines, |lines|)
  {
    hide Next, Enabled, ReplyIds, Due, CleanInput, CleanStep, Internal, Inv;
    InvStart(lines);
    RunEnds(Start(lines), steps);
    RunningStays(Start(lines), steps);
    AllAnswered(lines, steps);
  }
}
