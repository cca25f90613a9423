/** The JSON-RPC transport over lines, as interleaved steps.

    One thread reads lines and answers most requests itself; every tools/call that has an id runs on
    a pool thread.  They share m_Initialized, m_InFlightRequests and the output stream.  A step is
    one critical section, one read of a line, or the end of one tool; a run is any sequence of
    steps, so any interleaving. */
module TransportSteps {
  import opened Options
  import opened JsonRpc

  // ---------------------------------------------------------------------------------------------
  // Tool calls

  /** Why a call ended without an answer. */
  datatype Reason =
    | ArgumentsNoObject             // neither an object nor null: storing "_requestId" in them throws
    | NotStdException(tool: string) // the tool threw something that is not a std::exception
    | Unprintable                   // the answer holds bytes that are not UTF-8, so dump throws

  datatype Phase =
    | Queued
    | Ready(tool: string)           // checked, not in the map yet
    | Executing(tool: string)       // in the map
    | Returned(tool: string, wellFormed: bool)
    | Raised(tool: string, erased: bool)
    | Answering(verdict: Verdict)
    | Answered(verdict: Verdict)
    | Dropped(reason: Reason)

  /** One tools/call; without an id it runs on the reader thread and is not answered. */
  datatype Call = Call(id: Option<Json>, key: string, params: Json, phase: Phase)

  predicate ArgumentsOk(params: Json) {
    var a := Member(params, "arguments");
    a.None? || a.value.Object? || a.value.Null?
  }

  predicate NamesTool(params: Json) { Member(params, "name").Some? && Member(params, "name").value.String? }

  function ToolOf(params: Json): string
    requires NamesTool(params)
  {
    Member(params, "name").value.chars
  }

  /** What the checks in front of a tool lead to; `known` is the registry's answer. */
  function Checked(initialized: bool, params: Json, known: bool): Phase {
    if !initialized then Answering(Failure(INVALID_REQUEST))
    else if !NamesTool(params) || !known then Answering(Failure(INVALID_PARAMS))
    else if !ArgumentsOk(params) then Dropped(ArgumentsNoObject)
    else Ready(ToolOf(params))
  }

  /** How a tool ends. */
  datatype Ending = Result(wellFormed: bool) | StdException | OtherException

  function Ended(tool: string, ending: Ending): Phase {
    match ending
    case Result(w) => Returned(tool, w)
    case StdException => Raised(tool, false)
    case OtherException => Dropped(NotStdException(tool))
  }

  predicate Finished(p: Phase) { p.Answered? || p.Dropped? }

  // ---------------------------------------------------------------------------------------------
  // The session

  datatype Reader =
    | AtTest                                    // about to test m_Running
    | AtGetline
    | Calling(call: nat)                        // inside a tools/call without an id
    | Forwarding(key: string, tool: string)     // a cancel found its request
    | Draining                                  // waiting for the calls in flight
    | Done
    | Thrown                                    // an exception left Run

  /** `calls` are all tool calls so far, `cancels` the cancellations handed to tools. */
  datatype Session = Session(
    lines: seq<Line>,
    pos: nat,
    reader: Reader,
    running: bool,
    initialized: bool,
    inFlight: map<string, string>,
    calls: seq<Call>,
    output: seq<Message>,
    cancels: seq<(string, string)>)

  function Start(lines: seq<Line>): Session {
    Session(lines, 0, AtTest, true, false, map[], [], [], [])
  }

  /** What a handler on the reader thread does: it answers or throws. */
  datatype Handled = Gives(verdict: Verdict) | Throws

  datatype Step =
    | Test
    | Read(handled: Handled)
    | Stop
    | Push
    | Check(call: nat, known: bool)
    | Insert(call: nat)
    | End(call: nat, ending: Ending)
    | Erase(call: nat)
    | Send(call: nat, printable: bool)
    | Forward(known: bool)
    | Return

  /** The steps of a call, in the order it makes them. */
  predicate Applies(p: Phase, step: Step) {
    match step
    case Check(_, _) => p.Queued?
    case Insert(_) => p.Ready?
    case End(_, _) => p.Executing?
    case Erase(_) => p.Returned? || p.Raised?
    case Send(_, _) => p.Answering?
    case _ => false
  }

  predicate Enabled(s: Session, step: Step) {
    match step
    case Test => s.reader == AtTest
    case Read(_) => s.reader == AtGetline && s.pos < |s.lines|
    case Stop => true
    case Push => true
    case Forward(_) => s.reader.Forwarding?
    case Return => s.reader == Draining && forall k :: 0 <= k < |s.calls| ==> Finished(s.calls[k].phase)
    case _ => step.call < |s.calls| && Applies(s.calls[step.call].phase, step)
  }

  /** The message is sent only when the request has an id. */
  function Answer(s: Session, id: Option<Json>, verdict: Verdict): Session {
    if id.Some? then s.(output := s.output + [Reply(id.value, verdict)]) else s
  }

  /** HandleCancelNotification up to the end of its critical section. */
  function LookUp(s: Session, params: Json): Session {
    var id := Member(params, "requestId");
    if id.None? || KeyOf(id.value) !in s.inFlight then s
    else s.(reader := Forwarding(KeyOf(id.value), s.inFlight[KeyOf(id.value)]))
  }

  function Dispatch(s: Session, kind: Method, id: Option<Json>, params: Json, handled: Handled): Session {
    if kind == Initialize then Answer(s.(initialized := true), id, Success)
    else if kind == Initialized then s
    else if kind == Cancelled then LookUp(s, params)
    else if kind == ToolsCall then
      s.(calls := s.calls + [Call(id, KeyOf(OrNull(id)), params, Queued)],
         reader := if id.Some? then s.reader else Calling(|s.calls|))
    else if !s.initialized then Answer(s, id, Failure(INVALID_REQUEST))
    else if kind == Unknown then Answer(s, id, Failure(METHOD_NOT_FOUND))
    else if handled.Throws? then s.(reader := Thrown)
    else Answer(s, id, handled.verdict)
  }

  function ReadNext(s: Session, handled: Handled): Session
    requires s.pos < |s.lines|
  {
    var t := s.(pos := s.pos + 1, reader := AtTest);
    match s.lines[s.pos]
    case Empty => t
    case Malformed => Answer(t, Some(Null), Failure(PARSE_ERROR))
    case Parsed(m) =>
      match ContentOf(m)
      case Invalid(id) => Answer(t, Some(id), Failure(INVALID_REQUEST))
      case NoMethodName => t.(reader := Thrown)
      case Request(kind, id, params) => Dispatch(t, kind, id, params, handled)
  }

  function SetPhase(s: Session, i: nat, p: Phase): Session
    requires i < |s.calls|
  {
    s.(calls := s.calls[i := s.calls[i].(phase := p)])
  }

  /** A call without an id ends: its answer is thrown away, an exception leaves Run. */
  function Release(s: Session, i: nat): Session
    requires i < |s.calls|
  {
    if s.calls[i].id.Some? || !Finished(s.calls[i].phase) then s
    else s.(reader := if s.calls[i].phase.Dropped? then Thrown else AtTest)
  }

  /** The phase its step takes a call to. */
  function PhaseAfter(c: Call, initialized: bool, step: Step): Phase
    requires Applies(c.phase, step)
  {
    match step
    case Check(_, known) => Checked(initialized, c.params, known)
    case Insert(_) => Executing(c.phase.tool)
    case End(_, ending) => Ended(c.phase.tool, ending)
    case Erase(_) =>
      if c.phase.Raised? then Answering(Failure(INTERNAL_ERROR))
      else if c.phase.wellFormed then Answering(Success)
      else Raised(c.phase.tool, true)
    case Send(_, printable) =>
      if c.id.Some? && !printable then Dropped(Unprintable) else Answered(c.phase.verdict)
  }

  function MapAfter(inFlight: map<string, string>, c: Call, step: Step): map<string, string>
    requires Applies(c.phase, step)
  {
    if step.Insert? then inFlight[c.key := c.phase.tool]
    else if step.Erase? then inFlight - {c.key}
    else inFlight
  }

  function CallNext(s: Session, i: nat, step: Step): Session
    requires i < |s.calls| && Applies(s.calls[i].phase, step)
  {
    var c := s.calls[i];
    var p := PhaseAfter(c, s.initialized, step);
    var t := SetPhase(s, i, p).(inFlight := MapAfter(s.inFlight, c, step));
    Release(if p.Answered? then Answer(t, c.id, p.verdict) else t, i)
  }

  function Next(s: Session, step: Step): Session
    requires Enabled(s, step)
  {
    match step
    case Test => s.(reader := if s.running && s.pos < |s.lines| then AtGetline else Draining)
    case Read(h) => ReadNext(s, h)
    case Stop => s.(running := false)
    case Push => s.(output := s.output + [Notification])
    case Forward(known) =>
      s.(reader := AtTest, cancels := if known then s.cancels + [(s.reader.key, s.reader.tool)] else s.cancels)
    case Return => s.(reader := Done)
    case _ => CallNext(s, step.call, step)
  }

  ghost predicate IsRun(s: Session, steps: seq<Step>)
    decreases |steps|
  {
    steps == [] || (Enabled(s, steps[0]) && IsRun(Next(s, steps[0]), steps[1..]))
  }

  ghost function After(s: Session, steps: seq<Step>): Session
    requires IsRun(s, steps)
    decreases |steps|
  {
    if steps == [] then s else After(Next(s, steps[0]), steps[1..])
  }

  lemma {:induction false} RunExtends(s: Session, steps: seq<Step>, step: Step)
    requires IsRun(s, steps) && Enabled(After(s, steps), step)
    ensures IsRun(s, steps + [step]) && After(s, steps + [step]) == Next(After(s, steps), step)
    decreases |steps|
  {
    hide Next, Enabled;
    if steps == [] {
      assert [] + [step] == [step] && [step][1..] == [];
    } else {
      assert (steps + [step])[1..] == steps[1..] + [step];
      RunExtends(Next(s, steps[0]), steps[1..], step);
    }
  }
}
