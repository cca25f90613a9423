/** The transport itself: an object whose methods are the steps. */
module StdioTransport {
  import opened Options
  import opened JsonRpc
  import opened TransportSteps
  import opened TransportAnswers
  import opened TransportLaws

  class Transport {
    const input: seq<Line>
    var pos: nat
    var reader: Reader
    var running: bool
    var initialized: bool
    var inFlight: map<string, string>
    var calls: seq<Call>
    var output: seq<Message>
    var cancels: seq<(string, string)>

    ghost function View(): Session
      reads this
    {
      Session(input, pos, reader, running, initialized, inFlight, calls, output, cancels)
    }

    constructor (lines: seq<Line>)
      ensures View() == Start(lines)
    {
      input, pos, reader := lines, 0, AtTest;
      running, initialized := true, false;
      inFlight, calls, output, cancels := map[], [], [], [];
    }

    method SendMessage(m: Message)
      modifies this`output
      ensures output == old(output) + [m]
    {
      output := output + [m];
    }

    method PushNotification()
      modifies this`output
      ensures View() == Next(old(View()), Push)
    {
      SendMessage(Notification);
    }

    method RequestStop()
      modifies this`running
      ensures View() == Next(old(View()), Stop)
    {
      running := false;
    }

    /** The head of the read loop. */
    method TestRunning()
      requires Enabled(View(), Test)
      modifies this
      ensures View() == Next(old(View()), Test)
    {
      if running && pos < |input| {
        reader := AtGetline;
      } else {
        reader := Draining;
      }
    }

    /** The answer of a handler on the reader's own thread. */
    method AnswerInPlace(id: Option<Json>, verdict: Verdict)
      modifies this`output
      ensures View() == Answer(old(View()), id, verdict)
    {
      if id.Some? {
        SendMessage(Reply(id.value, verdict));
      }
    }

    method HandleCancelNotification(params: Json)
      modifies this`reader
      ensures View() == LookUp(old(View()), params)
    {
      var id := Member(params, "requestId");
      if id.None? {
        return;
      }
      var key := KeyOf(id.value);
      if key !in inFlight {
        return;
      }
      reader := Forwarding(key, inFlight[key]);
    }

    method DispatchMessage(kind: Method, id: Option<Json>, params: Json, handled: Handled)
      modifies this
      ensures View() == Dispatch(old(View()), kind, id, params, handled)
    {
      hide KeyOf, LookUp;
      if kind == Initialize {
        initialized := true;
        AnswerInPlace(id, Success);
        return;
      }
      if kind == Initialized {
        return;
      }
      if kind == Cancelled {
        HandleCancelNotification(params);
        return;
      }
      if kind == ToolsCall {
        if id.None? {
          reader := Calling(|calls|);
        }
        calls := calls + [Call(id, KeyOf(OrNull(id)), params, Queued)];
        return;
      }
      if !initialized {
        AnswerInPlace(id, Failure(INVALID_REQUEST));
        return;
      }
      if kind == Unknown {
        AnswerInPlace(id, Failure(METHOD_NOT_FOUND));
        return;
      }
      if handled.Throws? {
        reader := Thrown;
        return;
      }
      AnswerInPlace(id, handled.verdict);
    }

    /** The body of the read loop. */
    method ReadLine(handled: Handled)
      requires Enabled(View(), Read(handled))
      modifies this
      ensures View() == Next(old(View()), Read(handled))
    {
      hide Dispatch, KeyOf, MethodOf;
      var line := input[pos];
      pos, reader := pos + 1, AtTest;
      if line == Empty {
        return;
      }
      if line == Malformed {
        SendMessage(Reply(Null, Failure(PARSE_ERROR)));
        return;
      }
      var message := line.message;
      var id, name := Member(message, "id"), Member(message, "method");
      if Member(message, "jsonrpc") != Some(String("2.0")) || name.None? {
        SendMessage(Reply(OrNull(id), Failure(INVALID_REQUEST)));
        return;
      }
      if !name.value.String? {
        reader := Thrown;
        return;
      }
      var params := Member(message, "params");
      var given := if params.Some? then params.value else Object("{}", map[]);
      DispatchMessage(MethodOf(name.value.chars), id, given, handled);
    }

    method SetCall(i: nat, p: Phase)
      requires i < |calls|
      modifies this`calls, this`reader
      ensures View() == Release(SetPhase(old(View()), i, p), i)
    {
      calls := calls[i := calls[i].(phase := p)];
      if calls[i].id.None? {
        if p.Dropped? {
          reader := Thrown;
        } else if p.Answered? {
          reader := AtTest;
        }
      }
    }

    /** HandleToolsCall up to the lock. */
    method CheckCall(i: nat, known: bool)
      requires Enabled(View(), Check(i, known))
      modifies this
      ensures View() == Next(old(View()), Check(i, known))
    {
      hide Release, ArgumentsOk, NamesTool, ToolOf;
      var params := calls[i].params;
      if !initialized {
        SetCall(i, Answering(Failure(INVALID_REQUEST)));
      } else if !NamesTool(params) {
        SetCall(i, Answering(Failure(INVALID_PARAMS)));
      } else if !known {
        SetCall(i, Answering(Failure(INVALID_PARAMS)));
      } else if !ArgumentsOk(params) {
        SetCall(i, Dropped(ArgumentsNoObject));
      } else {
        SetCall(i, Ready(ToolOf(params)));
      }
    }

    /** The critical section in front of the tool. */
    method InsertEntry(i: nat)
      requires Enabled(View(), Insert(i))
      modifies this
      ensures View() == Next(old(View()), Insert(i))
    {
      var tool := calls[i].phase.tool;
      inFlight := inFlight[calls[i].key := tool];
      SetCall(i, Executing(tool));
    }

    method ToolEnds(i: nat, ending: Ending)
      requires Enabled(View(), End(i, ending))
      modifies this
      ensures View() == Next(old(View()), End(i, ending))
    {
      SetCall(i, Ended(calls[i].phase.tool, ending));
    }

    /** The critical section behind the tool, or the one in the handler of its exception. */
    method EraseEntry(i: nat)
      requires Enabled(View(), Erase(i))
      modifies this
      ensures View() == Next(old(View()), Erase(i))
    {
      var p := calls[i].phase;
      inFlight := inFlight - {calls[i].key};
      if p.Raised? {
        SetCall(i, Answering(Failure(INTERNAL_ERROR)));
      } else if p.wellFormed {
        SetCall(i, Answering(Success));
      } else {
        SetCall(i, Raised(p.tool, true));
      }
    }

    method SendAnswer(i: nat, printable: bool)
      requires Enabled(View(), Send(i, printable))
      modifies this
      ensures View() == Next(old(View()), Send(i, printable))
    {
      var id, verdict := calls[i].id, calls[i].phase.verdict;
      if id.Some? && !printable {
        SetCall(i, Dropped(Unprintable));
        return;
      }
      if id.Some? {
        SendMessage(Reply(id.value, verdict));
      }
      SetCall(i, Answered(verdict));
    }

    method ForwardCancel(known: bool)
      requires Enabled(View(), Forward(known))
      modifies this
      ensures View() == Next(old(View()), Forward(known))
    {
      if known {
        cancels := cancels + [(reader.key, reader.tool)];
      }
      reader := AtTest;
    }

    method ReturnFromRun()
      requires Enabled(View(), Return)
      modifies this
      ensures View() == Next(old(View()), Return)
    {
      reader := Done;
    }

    /** Whatever happens next, chosen freely among all steps of the transport's own. */
    method AnyStep() returns (ghost step: Step)
      requires ReaderOk(View()) && !Over(reader)
      modifies this
      ensures Enabled(old(View()), step) && Internal(step) && View() == Next(old(View()), step)
    {
      hide ReaderOk, Next;
      ghost var some := WorkProgresses(View());
      CanMove(View(), some);
      var known: bool := *;
      if
      case reader == AtTest =>
        step := Test;
        TestRunning();
      case reader == AtGetline && pos < |input| =>
        var handled: Handled := *;
        step := Read(handled);
        ReadLine(handled);
      case reader.Forwarding? =>
        step := Forward(known);
        ForwardCancel(known);
      case reader == Draining && forall k :: 0 <= k < |calls| ==> Finished(calls[k].phase) =>
        step := Return;
        ReturnFromRun();
      case i: nat :| i < |calls| && calls[i].phase.Queued? =>
        step := Check(i, known);
        CheckCall(i, known);
      case i: nat :| i < |calls| && calls[i].phase.Ready? =>
        step := Insert(i);
        InsertEntry(i);
      case i: nat :| i < |calls| && calls[i].phase.Executing? =>
        var ending: Ending := *;
        step := End(i, ending);
        ToolEnds(i, ending);
      case i: nat :| i < |calls| && (calls[i].phase.Returned? || calls[i].phase.Raised?) =>
        step := Erase(i);
        EraseEntry(i);
      case i: nat :| i < |calls| && calls[i].phase.Answering? =>
        step := Send(i, known);
        SendAnswer(i, known);
    }

    /** Whatever other threads do in the meantime: any number of notifications and calls of Stop. */
    method Outside(ghost start: Session, ghost before: seq<Step>) returns (ghost steps: seq<Step>)
      requires Inv(View()) && IsRun(start, before) && View() == After(start, before)
      modifies this
      ensures Inv(View()) && reader == old(reader) && pos == old(pos) && calls == old(calls)
      ensures before <= steps && forall k :: |before| <= k < |steps| ==> !Internal(steps[k])
      ensures IsRun(start, steps) && View() == After(start, steps)
    {
      hide Inv, Next, Enabled, IsRun, After;
      steps := before;
      var n :| n >= 0;
      for k := 0 to n
        invariant Inv(View()) && reader == old(reader) && pos == old(pos) && calls == old(calls)
        invariant before <= steps && forall k :: |before| <= k < |steps| ==> !Internal(steps[k])
        invariant IsRun(start, steps) && View() == After(start, steps)
      {
        var stop: bool := *;
        ghost var step := if stop then Stop else Push;
        AlwaysEnabled(View());
        InvStep(View(), step);
        RunExtends(start, steps, step);
        steps := steps + [step];
        if stop {
          RequestStop();
        } else {
          PushNotification();
        }
      }
    }

    /** Run, with the pool threads going on beside it in any order, and notifications and calls of Stop
        at any time: it is a run of the step machine, it always comes to its end, and when it returns
        everything due has been said. */
    method Run() returns (ghost steps: seq<Step>)
      requires Inv(View())
      modifies this
      ensures IsRun(old(View()), steps) && View() == After(old(View()), steps)
      ensures Inv(View()) && Over(reader)
      ensures reader == Done ==> AllSaid(View())
    {
      hide Inv, ReaderOk, AllSaid, Next, Work, Enabled, IsRun, After;
      InvBounds(View());
      steps := [];
      NoSteps(View());
      while !Over(reader)
        invariant Inv(View()) && ReaderOk(View()) && pos <= |input|
        invariant IsRun(old(View()), steps) && View() == After(old(View()), steps)
        decreases Work(View())
      {
        ghost var start := View();
        steps := Outside(old(View()), steps);
        InvBounds(View());
        ghost var before := View();
        WorkSame(start, before);
        ghost var step := AnyStep();
        WorkDecreases(before, step);
        InvStep(before, step);
        InvBounds(View());
        RunExtends(old(View()), steps, step);
        steps := steps + [step];
      }
      if reader == Done {
        DoneAllSaid(View());
      }
    }
  }

  lemma NoSteps(s: Session)
    ensures IsRun(s, []) && After(s, []) == s
  {
  }

  lemma AlwaysEnabled(s: Session)
    ensures Enabled(s, Stop) && Enabled(s, Push) && !Internal(Stop) && !Internal(Push)
  {
  }

  lemma InvBounds(s: Session)
    requires Inv(s)
    ensures ReaderOk(s) && s.pos <= |s.lines|
  {
  }

  lemma WorkSame(s: Session, t: Session)
    requires s.lines == t.lines && s.pos == t.pos <= |s.lines| && s.reader == t.reader && s.calls == t.calls
    ensures Work(s) == Work(t)
  {
  }

  lemma CanMove(s: Session, step: Step)
    requires Enabled(s, step) && Internal(step)
    ensures
      || s.reader == AtTest || (s.reader == AtGetline && s.pos < |s.lines|) || s.reader.Forwarding?
      || (s.reader == Draining && forall k :: 0 <= k < |s.calls| ==> Finished(s.calls[k].phase))
      || exists i :: 0 <= i < |s.calls| && CanStep(s.calls[i].phase)
  {
    if i: nat :| ActsOn(step, i) {
      assert CanStep(s.calls[i].phase);
    } else {
      NotOnCall(step);
    }
  }

  predicate CanStep(p: Phase) {
    p.Queued? || p.Ready? || p.Executing? || p.Returned? || p.Raised? || p.Answering?
  }
}
