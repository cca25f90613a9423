/** What a session says and does, word for word: from the lines as they stand, the numbers of the
    protocol and the steps of the run. */
module TransportVerdicts {
  import opened Options
  import opened JsonRpc
  import opened TransportSteps
  import opened TransportAnswers
  import opened TransportLaws

  // ---------------------------------------------------------------------------------------------
  // The protocol

  /** A JSON-RPC 2.0 request or notification, its method name of any type. */
  predicate WellFormed(m: Json) {
    m.Object? && "jsonrpc" in m.members && m.members["jsonrpc"] == String("2.0") && "method" in m.members
  }

  predicate Asks(l: Line, name: string) {
    l.Parsed? && WellFormed(l.message) && l.message.members["method"] == String(name)
  }

  function IdIn(m: Json): Option<Json> { if m.Object? && "id" in m.members then Some(m.members["id"]) else None }

  function ParamsIn(m: Json): Json
    requires m.Object?
  {
    if "params" in m.members then m.members["params"] else Object("{}", map[])
  }

  /** The key of a call: the characters of a string id, the text of any other, "null" without one. */
  ghost predicate IsKey(id: Option<Json>, key: string) {
    match id
    case None => key == "null"
    case Some(j) =>
      match j
      case Null => key == "null"
      case Boolean(b) => key == (if b then "true" else "false")
      case Number(t) => key == t
      case String(s) => key == s
      case Array(t) => key == t
      case Object(t, _) => key == t
  }

  /** The reader's own answer to a line. */
  function ReaderReply(l: Line, initialized: bool, h: Handled): seq<Message> {
    match l
    case Empty => []
    case Malformed => [Reply(Null, Failure(-32700))]
    case Parsed(m) =>
      var id := IdIn(m);
      if !WellFormed(m) then [Reply(if id.Some? then id.value else Null, Failure(-32600))]
      else if id.None? || !m.members["method"].String? then []
      else
        var name := m.members["method"].chars;
        if name in {"notifications/initialized", "notifications/cancelled", "tools/call"} then []
        else if name == "initialize" then [Reply(id.value, Success)]
        else if !initialized then [Reply(id.value, Failure(-32600))]
        else if !HasHandler(name) then [Reply(id.value, Failure(-32601))]
        else if h.Throws? then []
        else [Reply(id.value, h.verdict)]
  }

  predicate HasHandler(name: string) {
    name in {"tools/list", "tools/call_batch", "prompts/list", "prompts/get", "resources/list", "resources/read",
             "resources/subscribe", "resources/unsubscribe"}
  }

  lemma ContentIs(m: Json)
    ensures ContentOf(m).Invalid? <==> !WellFormed(m)
    ensures !WellFormed(m) ==> ContentOf(m).echoed == OrNull(IdIn(m))
    ensures WellFormed(m) ==> (ContentOf(m).NoMethodName? <==> !m.members["method"].String?)
    ensures
      WellFormed(m) && m.members["method"].String? ==>
        ContentOf(m) == Request(MethodOf(m.members["method"].chars), IdIn(m), ParamsIn(m))
  {
    hide MethodOf;
  }

  lemma MethodIs(name: string)
    ensures MethodOf(name) == Initialize <==> name == "initialize"
    ensures MethodOf(name) == Initialized <==> name == "notifications/initialized"
    ensures MethodOf(name) == Cancelled <==> name == "notifications/cancelled"
    ensures MethodOf(name) == ToolsCall <==> name == "tools/call"
    ensures MethodOf(name) == Served <==> HasHandler(name)
  {
    Distinct();
  }

  lemma Distinct()
    ensures "initialize" != "notifications/initialized" && "initialize" != "notifications/cancelled"
    ensures "initialize" != "tools/call" && "notifications/initialized" != "notifications/cancelled"
    ensures "notifications/initialized" != "tools/call" && "notifications/cancelled" != "tools/call"
    ensures forall name :: HasHandler(name) ==>
      name !in {"initialize", "notifications/initialized", "notifications/cancelled", "tools/call"}
  {
    assert |"initialize"| == 10 && |"tools/call"| == 10 && "initialize"[0] == 'i' && "tools/call"[0] == 't';
    assert |"notifications/initialized"| == 25 && |"notifications/cancelled"| == 23;
    assert |"tools/list"| == 10 && "tools/list"[6] == 'l' && "tools/call"[6] == 'c' && "tools/list"[0] == 't';
    assert |"tools/call_batch"| == 16 && |"prompts/list"| == 12 && |"prompts/get"| == 11;
    assert |"resources/list"| == 14 && |"resources/read"| == 14 && |"resources/subscribe"| == 19;
    assert |"resources/unsubscribe"| == 21;
  }

  lemma DispatchSays(s: Session, kind: Method, id: Option<Json>, params: Json, h: Handled)
    ensures
      Dispatch(s, kind, id, params, h).output == s.output +
        (if id.None? || kind == Initialized || kind == Cancelled || kind == ToolsCall then []
         else if kind == Initialize then [Reply(id.value, Success)]
         else if !s.initialized then [Reply(id.value, Failure(-32600))]
         else if kind == Unknown then [Reply(id.value, Failure(-32601))]
         else if h.Throws? then []
         else [Reply(id.value, h.verdict)])
  {
    hide KeyOf;
    LookUpSilent(s);
    assert s.output + [] == s.output;
  }

  lemma ReaderReplies(s: Session, h: Handled)
    requires s.pos < |s.lines|
    ensures ReadNext(s, h).output == s.output + ReaderReply(s.lines[s.pos], s.initialized, h)
  {
    hide KeyOf, ContentOf, Dispatch, MethodOf, HasHandler, IdIn, ParamsIn;
    assert s.output + [] == s.output;
    if s.lines[s.pos].Parsed? {
      var m, t := s.lines[s.pos].message, s.(pos := s.pos + 1, reader := AtTest);
      ContentIs(m);
      if ContentOf(m).Request? {
        MethodIs(m.members["method"].chars);
        DispatchSays(t, ContentOf(m).kind, ContentOf(m).id, ContentOf(m).params, h);
      }
    }
  }

  /** What else a line does: an initialize sets the flag, and a tools/call starts a call. */
  lemma ReaderDoes(s: Session, h: Handled)
    requires s.pos < |s.lines|
    ensures
      var l, t := s.lines[s.pos], ReadNext(s, h);
      && t.pos == s.pos + 1 && t.running == s.running && t.inFlight == s.inFlight && t.cancels == s.cancels
      && t.initialized == (s.initialized || Asks(l, "initialize"))
      && (!Asks(l, "tools/call") ==> t.calls == s.calls)
      && (Asks(l, "tools/call") ==>
            var key := KeyOf(OrNull(IdIn(l.message)));
            IsKey(IdIn(l.message), key)
            && t.calls == s.calls + [Call(IdIn(l.message), key, ParamsIn(l.message), Queued)])
  {
    hide KeyOf, ContentOf, Dispatch, MethodOf, HasHandler, IsKey, IdIn, ParamsIn;
    KeyIs(s.lines[s.pos]);
    if s.lines[s.pos].Parsed? {
      var m, t := s.lines[s.pos].message, s.(pos := s.pos + 1, reader := AtTest);
      ContentIs(m);
      if ContentOf(m).Request? {
        MethodIs(m.members["method"].chars);
        DispatchDoes(t, ContentOf(m).kind, ContentOf(m).id, ContentOf(m).params, h);
      }
    }
  }

  /** Where the reader goes: into a call without an id, on to hand over a cancellation that names a
      request in flight, out of Run for a method name that is no string and for a handler that throws,
      and otherwise back to its test. */
  lemma ReaderGoes(s: Session, h: Handled)
    requires s.pos < |s.lines|
    ensures
      var l, t := s.lines[s.pos], ReadNext(s, h);
      && (t.reader == Thrown <==>
            && l.Parsed? && WellFormed(l.message)
            && (l.message.members["method"].String? ==>
                  HasHandler(l.message.members["method"].chars) && s.initialized && h.Throws?))
      && (t.reader.Calling? <==> Asks(l, "tools/call") && IdIn(l.message).None?)
      && (t.reader.Calling? ==> t.reader.call == |s.calls|)
      && (t.reader.Forwarding? <==> Cancels(l) && KeyOf(ParamsIn(l.message).members["requestId"]) in s.inFlight)
      && (t.reader.Forwarding? ==>
            && IsKey(Some(ParamsIn(l.message).members["requestId"]), t.reader.key)
            && t.reader.key in s.inFlight && t.reader.tool == s.inFlight[t.reader.key])
      && (t.reader in {AtTest, Thrown} || t.reader.Calling? || t.reader.Forwarding?)
  {
    hide KeyOf, ContentOf, Dispatch, MethodOf, HasHandler, IsKey, IdIn, ParamsIn;
    KeyIs(s.lines[s.pos]);
    if s.lines[s.pos].Parsed? {
      var m, t := s.lines[s.pos].message, s.(pos := s.pos + 1, reader := AtTest);
      ContentIs(m);
      if ContentOf(m).Request? {
        MethodIs(m.members["method"].chars);
        DispatchDoes(t, ContentOf(m).kind, ContentOf(m).id, ContentOf(m).params, h);
      }
    }
  }

  lemma DispatchDoes(s: Session, kind: Method, id: Option<Json>, params: Json, h: Handled)
    requires s.reader == AtTest
    ensures
      var t := Dispatch(s, kind, id, params, h);
      var aim := Member(params, "requestId");
      && t.pos == s.pos && t.running == s.running && t.inFlight == s.inFlight && t.cancels == s.cancels
      && t.initialized == (s.initialized || kind == Initialize)
      && t.calls == (if kind == ToolsCall then s.calls + [Call(id, KeyOf(OrNull(id)), params, Queued)] else s.calls)
      && t.reader ==
        (if kind == ToolsCall && id.None? then Calling(|s.calls|)
         else if kind == Cancelled && aim.Some? && KeyOf(aim.value) in s.inFlight then
           Forwarding(KeyOf(aim.value), s.inFlight[KeyOf(aim.value)])
         else if kind == Served && s.initialized && h.Throws? then Thrown
         else AtTest)
  {
    hide KeyOf;
  }

  predicate Cancels(l: Line) {
    Asks(l, "notifications/cancelled") && ParamsIn(l.message).Object? && "requestId" in ParamsIn(l.message).members
  }

  lemma KeyIs(l: Line)
    ensures l.Parsed? ==> IsKey(IdIn(l.message), KeyOf(OrNull(IdIn(l.message))))
    ensures Cancels(l) ==>
      IsKey(Some(ParamsIn(l.message).members["requestId"]), KeyOf(ParamsIn(l.message).members["requestId"]))
  {
  }

  // ---------------------------------------------------------------------------------------------
  // Everything said

  /** What a step says: the reader's own answers, notifications, and the answers of calls that have an
      id and can be dumped. */
  function Says(s: Session, step: Step): seq<Message>
    requires Enabled(s, step)
  {
    match step
    case Read(h) => ReaderReply(s.lines[s.pos], s.initialized, h)
    case Push => [Notification]
    case Send(k, printable) =>
      if s.calls[k].id.Some? && printable then [Reply(s.calls[k].id.value, s.calls[k].phase.verdict)] else []
    case _ => []
  }

  function SaidBy(s: Session, steps: seq<Step>): seq<Message>
    requires IsRun(s, steps)
    decreases |steps|
  {
    if steps == [] then [] else Says(s, steps[0]) + SaidBy(Next(s, steps[0]), steps[1..])
  }

  /** The cancellations a step hands to a tool. */
  function Hands(s: Session, step: Step): seq<(string, string)>
    requires Enabled(s, step)
  {
    if step.Forward? && step.known then [(s.reader.key, s.reader.tool)] else []
  }

  function HandedBy(s: Session, steps: seq<Step>): seq<(string, string)>
    requires IsRun(s, steps)
    decreases |steps|
  {
    if steps == [] then [] else Hands(s, steps[0]) + HandedBy(Next(s, steps[0]), steps[1..])
  }

  lemma StepSays(s: Session, step: Step)
    requires Enabled(s, step)
    ensures Next(s, step).output == s.output + Says(s, step)
    ensures Next(s, step).cancels == s.cancels + Hands(s, step)
  {
    hide ReadNext, PhaseAfter, ReaderReply, CallNext;
    assert s.output + [] == s.output && s.cancels + [] == s.cancels;
    if i: nat :| ActsOn(step, i) {
      CallStep(s, step, i);
      AnsweredBySend(s.calls[i], s.initialized, step);
    } else {
      NotOnCall(step);
      if step.Read? {
        ReaderReplies(s, step.handled);
        ReaderDoes(s, step.handled);
      }
    }
  }

  lemma AnsweredBySend(c: Call, initialized: bool, step: Step)
    requires Applies(c.phase, step)
    ensures PhaseAfter(c, initialized, step).Answered? <==> step.Send? && (c.id.Some? ==> step.printable)
    ensures step.Send? && (c.id.Some? ==> step.printable) ==>
      PhaseAfter(c, initialized, step) == Answered(c.phase.verdict)
  {
    hide Checked;
    if step.Check? {
      CheckedWaits(initialized, c.params, step.known);
    }
  }

  lemma CheckedWaits(initialized: bool, params: Json, known: bool)
    ensures !Checked(initialized, params, known).Answered?
  {
  }

  /** The output of a run is what its steps say, in their order, and nothing else; and the tools have
      been handed the cancellations of its steps. */
  lemma {:induction false} OutputExact(s: Session, steps: seq<Step>)
    requires IsRun(s, steps)
    ensures After(s, steps).output == s.output + SaidBy(s, steps)
    ensures After(s, steps).cancels == s.cancels + HandedBy(s, steps)
    decreases |steps|
  {
    hide Next, Enabled, Says, Hands;
    assert s.output + [] == s.output && s.cancels + [] == s.cancels;
    if steps != [] {
      StepSays(s, steps[0]);
      var t := Next(s, steps[0]);
      OutputExact(t, steps[1..]);
      assert s.output + Says(s, steps[0]) + SaidBy(t, steps[1..])
        == s.output + (Says(s, steps[0]) + SaidBy(t, steps[1..]));
      assert s.cancels + Hands(s, steps[0]) + HandedBy(t, steps[1..])
        == s.cancels + (Hands(s, steps[0]) + HandedBy(t, steps[1..]));
    }
  }

  // ---------------------------------------------------------------------------------------------
  // The story of a call

  /** What a run does to one call: the flag and the registry's answer when it was checked, how its
      tool ended, and whether its answer could be dumped. */
  datatype Story = Story(checked: Option<(bool, bool)>, ending: Option<Ending>, sent: Option<bool>)

  const UNTOLD := Story(None, None, None)

  function Told(h: Story, s: Session, step: Step, k: nat): Story {
    match step
    case Check(i, known) => if i == k then h.(checked := Some((s.initialized, known))) else h
    case End(i, ending) => if i == k then h.(ending := Some(ending)) else h
    case Send(i, printable) => if i == k then h.(sent := Some(printable)) else h
    case _ => h
  }

  ghost function StoryOf(h: Story, s: Session, steps: seq<Step>, k: nat): Story
    requires IsRun(s, steps)
    decreases |steps|
  {
    if steps == [] then h else StoryOf(Told(h, s, steps[0], k), Next(s, steps[0]), steps[1..], k)
  }

  /** The parameters name a tool, and its arguments, if any, are an object or null. */
  predicate Names(params: Json) {
    params.Object? && "name" in params.members && params.members["name"].String?
  }

  predicate GoodArguments(params: Json) {
    !params.Object? || "arguments" !in params.members
    || params.members["arguments"].Object? || params.members["arguments"].Null?
  }

  predicate Passed(params: Json, h: Story) { h.checked == Some((true, true)) && Names(params) && GoodArguments(params) }

  /** The verdict a story leads to: refused by the checks, or what the tool's end says. */
  function Deserved(params: Json, h: Story): Option<Verdict> {
    if h.checked.None? then None
    else if !h.checked.value.0 then Some(Failure(-32600))
    else if !Names(params) || !h.checked.value.1 then Some(Failure(-32602))
    else if !GoodArguments(params) || h.ending.None? then None
    else
      match h.ending.value
      case Result(wellFormed) => Some(if wellFormed then Success else Failure(-32603))
      case StdException => Some(Failure(-32603))
      case OtherException => None
  }

  /** A call's phase agrees with its story. */
  ghost predicate Fits(c: Call, h: Story) {
    match c.phase
    case Queued => h == UNTOLD
    case Ready(t) => Passed(c.params, h) && h.ending.None? && h.sent.None? && String(t) == c.params.members["name"]
    case Executing(t) => Passed(c.params, h) && h.ending.None? && h.sent.None? && String(t) == c.params.members["name"]
    case Returned(t, w) => Passed(c.params, h) && h.ending == Some(Result(w)) && h.sent.None?
    case Raised(t, erased) =>
      Passed(c.params, h) && h.ending == Some(if erased then Result(false) else StdException) && h.sent.None?
    case Answering(v) =>
      Deserved(c.params, h) == Some(v) && (h.ending.Some? ==> Passed(c.params, h)) && h.sent.None?
    case Answered(v) =>
      && Deserved(c.params, h) == Some(v) && (h.ending.Some? ==> Passed(c.params, h))
      && h.sent.Some? && (c.id.Some? ==> h.sent == Some(true))
    case Dropped(reason) => Lost(c, h, reason)
  }

  /** Why a call ends without an answer. */
  ghost predicate Lost(c: Call, h: Story, reason: Reason) {
    match reason
    case ArgumentsNoObject =>
      h.checked == Some((true, true)) && Names(c.params) && !GoodArguments(c.params) && h.ending.None?
    case NotStdException(t) =>
      Passed(c.params, h) && h.ending == Some(OtherException) && String(t) == c.params.members["name"]
    case Unprintable => Deserved(c.params, h).Some? && c.id.Some? && h.sent == Some(false)
  }

  ghost predicate AllFit(s: Session, k: nat, h: Story) { if k < |s.calls| then Fits(s.calls[k], h) else h == UNTOLD }

  lemma FitsStep(c: Call, s: Session, step: Step, k: nat, h: Story)
    requires Applies(c.phase, step) && ActsOn(step, k) && Fits(c, h)
    ensures Fits(c.(phase := PhaseAfter(c, s.initialized, step)), Told(h, s, step, k))
  {
    assert NamesTool(c.params) <==> Names(c.params);
    assert Names(c.params) ==> (ArgumentsOk(c.params) <==> GoodArguments(c.params));
  }

  lemma AllFitStep(s: Session, step: Step, k: nat, h: Story)
    requires Enabled(s, step) && AllFit(s, k, h)
    ensures AllFit(Next(s, step), k, Told(h, s, step, k))
  {
    hide Next, Fits, ReadNext;
    if i: nat :| ActsOn(step, i) {
      CallStep(s, step, i);
      if i == k {
        FitsStep(s.calls[k], s, step, k, h);
      } else {
        OtherCall(s, step, i, k, h);
      }
    } else {
      NotOnCall(step);
      OtherStep(s, step, k, h);
    }
  }

  lemma OtherCall(s: Session, step: Step, i: nat, k: nat, h: Story)
    requires ActsOn(step, i) && i != k
    ensures Told(h, s, step, k) == h
  {
  }

  lemma OtherStep(s: Session, step: Step, k: nat, h: Story)
    requires Enabled(s, step) && AllFit(s, k, h)
    requires !step.Check? && !step.Insert? && !step.End? && !step.Erase? && !step.Send?
    ensures AllFit(Next(s, step), k, Told(h, s, step, k))
  {
    hide Fits, ReadNext, ContentOf, KeyOf;
    if step.Read? {
      ReadReads(s, step.handled);
      NewCallQueued(s.lines[s.pos]);
      QueuedFits();
    }
  }

  lemma QueuedFits()
    ensures forall c: Call :: c.phase == Queued ==> Fits(c, UNTOLD)
  {
  }

  lemma {:induction false} AllFitRun(s: Session, steps: seq<Step>, k: nat, h: Story)
    requires IsRun(s, steps) && AllFit(s, k, h)
    ensures AllFit(After(s, steps), k, StoryOf(h, s, steps, k))
    decreases |steps|
  {
    hide Next, Enabled, AllFit, Told;
    if steps != [] {
      AllFitStep(s, steps[0], k, h);
      AllFitRun(Next(s, steps[0]), steps[1..], k, Told(h, s, steps[0], k));
    }
  }

  /** Of every run and every call: the verdict answered is refusal before an initialize, refusal for the
      name, or what the tool's end says, success for a result and an internal error for an exception or
      a result that cannot be read; and a call is dropped for one of three reasons only. */
  lemma VerdictFromSteps(lines: seq<Line>, steps: seq<Step>, k: nat)
    requires IsRun(Start(lines), steps) && k < |After(Start(lines), steps).calls|
    ensures
      var c, h := After(Start(lines), steps).calls[k], StoryOf(UNTOLD, Start(lines), steps, k);
      && (c.phase.Answered? ==>
            && h.checked.Some? && (c.id.Some? ==> h.sent == Some(true))
            && c.phase.verdict ==
                 (if !h.checked.value.0 then Failure(-32600)
                  else if !Names(c.params) || !h.checked.value.1 then Failure(-32602)
                  else if h.ending == Some(Result(true)) then Success
                  else Failure(-32603))
            && (c.phase.verdict in {Success, Failure(-32603)} ==>
                  GoodArguments(c.params) && h.ending.Some? && !h.ending.value.OtherException?))
      && (c.phase.Dropped? ==>
            || h.ending == Some(OtherException)
            || (c.id.Some? && h.sent == Some(false))
            || (h.checked == Some((true, true)) && Names(c.params) && !GoodArguments(c.params)))
  {
    hide After, StoryOf, Names, GoodArguments;
    AllFitRun(Start(lines), steps, k, UNTOLD);
  }

  lemma {:induction false} EndingStays(s: Session, steps: seq<Step>, k: nat, h: Story)
    requires IsRun(s, steps) && AllFit(s, k, h) && h.ending.Some?
    ensures StoryOf(h, s, steps, k).ending == h.ending
    decreases |steps|
  {
    hide Next, Passed, Deserved;
    if steps != [] {
      AllFitStep(s, steps[0], k, h);
      EndingStays(Next(s, steps[0]), steps[1..], k, Told(h, s, steps[0], k));
    }
  }

  lemma {:induction false} EndIsTold(s: Session, steps: seq<Step>, k: nat, n: nat, e: Ending, h: Story)
    requires IsRun(s, steps) && AllFit(s, k, h) && n < |steps| && steps[n] == End(k, e)
    ensures StoryOf(h, s, steps, k).ending == Some(e)
    decreases |steps|
  {
    hide Next, AllFit, Enabled;
    AllFitStep(s, steps[0], k, h);
    if n == 0 {
      EndingStays(Next(s, steps[0]), steps[1..], k, Told(h, s, steps[0], k));
    } else {
      assert steps[1..][n - 1] == steps[n];
      EndIsTold(Next(s, steps[0]), steps[1..], k, n - 1, e, Told(h, s, steps[0], k));
    }
  }

  /** The end a run gives a tool decides the answer of its call, wherever in the run it stands: success
      exactly for a result that can be read, and no answer at all for what is not a std::exception. */
  lemma EndDecides(lines: seq<Line>, steps: seq<Step>, k: nat, n: nat, e: Ending)
    requires IsRun(Start(lines), steps) && n < |steps| && steps[n] == End(k, e)
    requires k < |After(Start(lines), steps).calls|
    ensures
      var p := After(Start(lines), steps).calls[k].phase;
      p.Answered? ==> !e.OtherException? && p.verdict == if e == Result(true) then Success else Failure(-32603)
  {
    hide After, StoryOf, Names, GoodArguments;
    AllFitRun(Start(lines), steps, k, UNTOLD);
    EndIsTold(Start(lines), steps, k, n, e, UNTOLD);
  }

  // ---------------------------------------------------------------------------------------------
  // Reading

  function Ahead(r: Reader): nat { if r == AtGetline then 1 else 0 }

  lemma StopStep(s: Session, step: Step)
    requires Enabled(s, step)
    ensures
      var t := Next(s, step);
      && (t.running <==> s.running && step != Stop) && t.pos >= s.pos
      && (!s.running ==> t.pos + Ahead(t.reader) <= s.pos + Ahead(s.reader))
  {
    hide ReadNext, CallNext;
    if i: nat :| ActsOn(step, i) {
      CallStep(s, step, i);
    } else {
      NotOnCall(step);
      if step.Read? {
        ReaderDoes(s, step.handled);
        ReaderGoes(s, step.handled);
      }
    }
  }

  /** Nothing but Stop clears the flag, and from then on at most the line about to be read is read. */
  lemma {:induction false} StopEndsReading(s: Session, steps: seq<Step>)
    requires IsRun(s, steps)
    ensures
      var t := After(s, steps);
      && (t.running <==> s.running && Stop !in steps)
      && (!s.running ==> t.pos + Ahead(t.reader) <= s.pos + Ahead(s.reader))
    decreases |steps|
  {
    hide Next, Enabled;
    if steps != [] {
      StopStep(s, steps[0]);
      StopEndsReading(Next(s, steps[0]), steps[1..]);
      assert steps == [steps[0]] + steps[1..];
    }
  }

  lemma InitializedStep(s: Session, step: Step)
    requires Enabled(s, step)
    ensures
      var t := Next(s, step);
      && t.lines == s.lines && (step.Read? <==> t.pos != s.pos)
      && (step.Read? ==> s.pos < |s.lines| && t.pos == s.pos + 1)
      && (t.initialized <==> s.initialized || (step.Read? && Asks(s.lines[s.pos], "initialize")))
  {
    hide ReadNext, CallNext;
    LinesStep(s, step);
    if i: nat :| ActsOn(step, i) {
      CallStep(s, step, i);
    } else {
      NotOnCall(step);
      if step.Read? {
        ReaderDoes(s, step.handled);
      }
    }
  }

  ghost predicate AskedIn(lines: seq<Line>, n: nat) {
    exists k :: 0 <= k < n && k < |lines| && Asks(lines[k], "initialize")
  }

  lemma {:induction false} InitializedRun(s: Session, steps: seq<Step>)
    requires IsRun(s, steps) && (s.initialized <==> AskedIn(s.lines, s.pos))
    ensures After(s, steps).initialized <==> AskedIn(s.lines, After(s, steps).pos)
    decreases |steps|
  {
    hide Next, Enabled, Asks;
    if steps != [] {
      InitializedStep(s, steps[0]);
      AskedMore(s.lines, s.pos);
      InitializedRun(Next(s, steps[0]), steps[1..]);
    }
  }

  lemma AskedMore(lines: seq<Line>, n: nat)
    ensures n < |lines| ==> (AskedIn(lines, n + 1) <==> AskedIn(lines, n) || Asks(lines[n], "initialize"))
  {
    hide Asks;
    if n < |lines| && Asks(lines[n], "initialize") {
      assert AskedIn(lines, n + 1);
    }
  }

  /** The calls the first `n` lines start, in order. */
  function CallLines(lines: seq<Line>, n: nat): (ks: seq<nat>)
    requires n <= |lines|
    ensures forall j :: 0 <= j < |ks| ==> ks[j] < n && Asks(lines[ks[j]], "tools/call")
  {
    if n == 0 then [] else CallLines(lines, n - 1) + if Asks(lines[n - 1], "tools/call") then [n - 1] else []
  }

  ghost predicate CallOf(c: Call, l: Line) {
    l.Parsed? && l.message.Object? && c.id == IdIn(l.message) && IsKey(c.id, c.key) && c.params == ParamsIn(l.message)
  }

  lemma NewCallIs(l: Line)
    ensures NewCall(l) == [] <==> !Asks(l, "tools/call")
    ensures NewCall(l) != [] ==> |NewCall(l)| == 1 && CallOf(NewCall(l)[0], l)
  {
    hide KeyOf, ContentOf, MethodOf, HasHandler, IsKey, IdIn, ParamsIn;
    KeyIs(l);
    if l.Parsed? {
      ContentIs(l.message);
      if ContentOf(l.message).Request? {
        MethodIs(l.message.members["method"].chars);
      }
    }
  }

  lemma {:induction false} StartedAre(lines: seq<Line>, n: nat)
    requires n <= |lines|
    ensures |Started(lines, n)| == |CallLines(lines, n)|
    ensures forall j :: 0 <= j < |CallLines(lines, n)| ==> CallOf(Started(lines, n)[j], lines[CallLines(lines, n)[j]])
  {
    hide NewCall, CallOf, Asks;
    if n > 0 {
      StartedAre(lines, n - 1);
      NewCallIs(lines[n - 1]);
      var before, added := Started(lines, n - 1), NewCall(lines[n - 1]);
      var ks := CallLines(lines, n - 1);
      assert Started(lines, n) == before + added;
      assert CallLines(lines, n) == ks + if added == [] then [] else [n - 1];
      hide Started, CallLines;
      forall j | 0 <= j < |before + added| ensures CallOf((before + added)[j], lines[CallLines(lines, n)[j]]) {
        if j < |before| {
          assert CallLines(lines, n)[j] == ks[j];
        }
      }
    }
  }

  /** In every run the session is initialized exactly when an initialize has been read, and the calls
      are those of the tools/call lines read, in order, each with its line's id, key and parameters. */
  lemma CallsFromLines(lines: seq<Line>, steps: seq<Step>)
    requires IsRun(Start(lines), steps)
    ensures
      var s := After(Start(lines), steps);
      && s.pos <= |lines| && (s.initialized <==> AskedIn(lines, s.pos))
      && |s.calls| == |CallLines(lines, s.pos)|
      && forall j :: 0 <= j < |s.calls| ==> CallOf(s.calls[j], lines[CallLines(lines, s.pos)[j]])
  {
    hide Next, Enabled, NewCall, Asks, After;
    var s := After(Start(lines), steps);
    LinesStay(Start(lines), steps);
    InitializedRun(Start(lines), steps);
    FromInputRun(Start(lines), steps);
    StartedAre(lines, s.pos);
    forall j | 0 <= j < |s.calls| ensures CallOf(s.calls[j], lines[CallLines(lines, s.pos)[j]]) {
      assert SameCall(s.calls[j], Started(lines, s.pos)[j]);
    }
  }
}
