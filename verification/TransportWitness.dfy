/** Sessions in which the transport does what one would not expect, from their first line on. */
module TransportWitness {
  import opened Options
  import opened JsonRpc
  import opened TransportSteps
  import opened TransportAnswers

  // ---------------------------------------------------------------------------------------------
  // Lines

  function RequestLine(text: string, name: string, id: Json, params: Json): Line {
    Parsed(Object(text, map["jsonrpc" := String("2.0"), "method" := String(name), "id" := id, "params" := params]))
  }

  function ToolCall(text: string, id: Json, tool: string, arguments: Json): Line {
    RequestLine(text, "tools/call", id, CallParams(text, tool, arguments))
  }

  function CallParams(text: string, tool: string, arguments: Json): Json {
    Object(text, map["name" := String(tool), "arguments" := arguments])
  }

  lemma RequestLineReads(text: string, name: string, id: Json, params: Json)
    ensures ContentOf(RequestLine(text, name, id, params).message) == Request(MethodOf(name), Some(id), params)
  {
    hide MethodOf;
    assert "method"[0] != "params"[0];
  }

  lemma CallParamsRead(text: string, tool: string, arguments: Json)
    ensures
      var p := CallParams(text, tool, arguments);
      && NamesTool(p) && ToolOf(p) == tool && (ArgumentsOk(p) <==> arguments.Object? || arguments.Null?)
  {
  }

  lemma Methods()
    ensures MethodOf("initialize") == Initialize && MethodOf("tools/call") == ToolsCall
    ensures MethodOf("notifications/cancelled") == Cancelled
  {
    assert "notifications/cancelled"[14] != "notifications/initialized"[14];
  }

  // ---------------------------------------------------------------------------------------------
  // Reachable sessions

  ghost predicate Reaches(lines: seq<Line>, s: Session) {
    exists steps :: IsRun(Start(lines), steps) && After(Start(lines), steps) == s
  }

  lemma ReachStart(lines: seq<Line>)
    ensures Reaches(lines, Start(lines))
  {
    assert IsRun(Start(lines), []);
  }

  lemma ReachNext(lines: seq<Line>, s: Session, step: Step)
    requires Reaches(lines, s) && Enabled(s, step)
    ensures Reaches(lines, Next(s, step))
  {
    hide Next, Enabled;
    var steps :| IsRun(Start(lines), steps) && After(Start(lines), steps) == s;
    RunExtends(Start(lines), steps, step);
  }

  /** The reader reads an initialize request. */
  lemma ReachInitialized(lines: seq<Line>, id: Json, params: Json)
    requires lines != [] && lines[0].Parsed? && ContentOf(lines[0].message) == Request(Initialize, Some(id), params)
    ensures Reaches(lines, Start(lines).(pos := 1, initialized := true, output := [Reply(id, Success)]))
  {
    hide ContentOf, KeyOf, Reaches;
    var s := Start(lines);
    ReachStart(lines);
    ReachNext(lines, s, Test);
    ReachNext(lines, s.(reader := AtGetline), Read(Gives(Success)));
    assert s.output + [Reply(id, Success)] == [Reply(id, Success)];
  }

  /** It reads a tool call. */
  lemma ReachCall(lines: seq<Line>, s: Session, id: Json, params: Json)
    requires Reaches(lines, s) && s.reader == AtTest && s.running && s.lines == lines && s.pos < |lines|
    requires lines[s.pos].Parsed? && ContentOf(lines[s.pos].message) == Request(ToolsCall, Some(id), params)
    ensures Reaches(lines, s.(pos := s.pos + 1, calls := s.calls + [Call(Some(id), KeyOf(id), params, Queued)]))
  {
    hide ContentOf, KeyOf, Reaches;
    ReachNext(lines, s, Test);
    ReachNext(lines, s.(reader := AtGetline), Read(Gives(Success)));
  }

  /** A queued call of a known tool starts it. */
  lemma ReachExecuting(lines: seq<Line>, s: Session, i: nat)
    requires Reaches(lines, s) && i < |s.calls| && s.calls[i].phase == Queued && s.initialized && s.calls[i].id.Some?
    requires NamesTool(s.calls[i].params) && ArgumentsOk(s.calls[i].params)
    ensures
      var tool := ToolOf(s.calls[i].params);
      Reaches(lines, SetPhase(s, i, Executing(tool)).(inFlight := s.inFlight[s.calls[i].key := tool]))
  {
    hide Reaches, NamesTool, ArgumentsOk, ToolOf;
    var tool := ToolOf(s.calls[i].params);
    ReachNext(lines, s, Check(i, true));
    var t := SetPhase(s, i, Ready(tool));
    assert Next(s, Check(i, true)) == t;
    ReachNext(lines, t, Insert(i));
    assert t.calls[i := t.calls[i].(phase := Executing(tool))] == s.calls[i := s.calls[i].(phase := Executing(tool))];
  }

  /** The tool gives its result and the entry is erased. */
  lemma ReachErased(lines: seq<Line>, s: Session, i: nat)
    requires Reaches(lines, s) && i < |s.calls| && s.calls[i].phase.Executing? && s.calls[i].id.Some?
    ensures Reaches(lines, SetPhase(s, i, Answering(Success)).(inFlight := s.inFlight - {s.calls[i].key}))
  {
    hide Reaches;
    var tool := s.calls[i].phase.tool;
    ReachNext(lines, s, End(i, Result(true)));
    var t := SetPhase(s, i, Returned(tool, true));
    assert Next(s, End(i, Result(true))) == t;
    ReachNext(lines, t, Erase(i));
    assert t.calls[i := t.calls[i].(phase := Answering(Success))]
        == s.calls[i := s.calls[i].(phase := Answering(Success))];
  }

  // ---------------------------------------------------------------------------------------------
  // What can happen

  /** An initialize, then a call whose arguments are a number, say: Run returns and only the initialize
      has been answered. */
  lemma IllTypedCallUnanswered(text: string, first: Json, params: Json, id: Json, tool: string, arguments: Json)
    requires !arguments.Object? && !arguments.Null?
    ensures
      var lines := [RequestLine(text, "initialize", first, params), ToolCall(text, id, tool, arguments)];
      exists s :: Reaches(lines, s) && s.reader == Done && s.output == [Reply(first, Success)]
                  && s.pos == 2 && Due(lines, 2) == multiset{first, id}
  {
    hide ContentOf, KeyOf, Reaches, NamesTool, ArgumentsOk, ToolOf, RequestLine, CallParams, MethodOf;
    var lines := [RequestLine(text, "initialize", first, params), ToolCall(text, id, tool, arguments)];
    var p := CallParams(text, tool, arguments);
    Parse(text, first, params, id, tool, arguments);
    ReachInitialized(lines, first, params);
    var s := Start(lines).(pos := 1, initialized := true, output := [Reply(first, Success)]);
    ReachCall(lines, s, id, p);
    var c := Call(Some(id), KeyOf(id), p, Queued);
    var t := s.(pos := 2, calls := [c]);
    assert s.calls + [c] == [c];
    ReachDropped(lines, t);
    DueOfTwo(lines);
  }

  /** The only call is dropped for its arguments, and Run returns. */
  lemma ReachDropped(lines: seq<Line>, s: Session)
    requires Reaches(lines, s) && s.reader == AtTest && s.pos == |s.lines| && s.initialized
    requires |s.calls| == 1 && s.calls[0].phase == Queued && s.calls[0].id.Some?
    requires NamesTool(s.calls[0].params) && !ArgumentsOk(s.calls[0].params)
    ensures Reaches(lines, s.(calls := [s.calls[0].(phase := Dropped(ArgumentsNoObject))], reader := Done))
  {
    hide Reaches, NamesTool, ArgumentsOk, ToolOf;
    var dropped := s.calls[0].(phase := Dropped(ArgumentsNoObject));
    ReachNext(lines, s, Check(0, true));
    assert s.calls[0 := dropped] == [dropped];
    var t := s.(calls := [dropped]);
    ReachNext(lines, t, Test);
    ReachNext(lines, t.(reader := Draining), Return);
  }

  lemma Parse(text: string, first: Json, params: Json, id: Json, tool: string, arguments: Json)
    ensures ContentOf(RequestLine(text, "initialize", first, params).message)
         == Request(Initialize, Some(first), params)
    ensures RequestLine(text, "initialize", first, params).Parsed? && ToolCall(text, id, tool, arguments).Parsed?
    ensures ContentOf(ToolCall(text, id, tool, arguments).message)
         == Request(ToolsCall, Some(id), CallParams(text, tool, arguments))
    ensures
      var p := CallParams(text, tool, arguments);
      && NamesTool(p) && ToolOf(p) == tool && (ArgumentsOk(p) <==> arguments.Object? || arguments.Null?)
  {
    hide MethodOf, ContentOf, NamesTool, ArgumentsOk, ToolOf, CallParams;
    Methods();
    RequestLineReads(text, "initialize", first, params);
    RequestLineReads(text, "tools/call", id, CallParams(text, tool, arguments));
    CallParamsRead(text, tool, arguments);
  }

  lemma DueOfTwo(lines: seq<Line>)
    requires |lines| == 2
    ensures Due(lines, 2) == DueOf(lines[0]) + DueOf(lines[1])
  {
    hide DueOf;
    assert Due(lines, 1) == Due(lines, 0) + DueOf(lines[0]);
    assert multiset{} + DueOf(lines[0]) == DueOf(lines[0]);
  }

  /** The ids 1 and "1", say, in flight together: the first call to end takes the entry of the other,
      which runs on without one. */
  lemma SharedKeyLosesEntry(text: string, first: Json, params: Json, digits: string, tool: string, other: string)
    ensures
      var lines := [RequestLine(text, "initialize", first, params),
                    ToolCall(text, Number(digits), tool, Null), ToolCall(text, String(digits), other, Null)];
      exists s :: Reaches(lines, s) && |s.calls| == 2
                  && s.calls[1].id == Some(String(digits)) && s.calls[1].phase == Executing(other)
                  && s.calls[1].key == digits && digits !in s.inFlight
  {
    hide ContentOf, Reaches, NamesTool, ArgumentsOk, ToolOf, RequestLine, CallParams, MethodOf;
    var lines := [RequestLine(text, "initialize", first, params),
                  ToolCall(text, Number(digits), tool, Null), ToolCall(text, String(digits), other, Null)];
    Parse(text, first, params, Number(digits), tool, Null);
    Parse(text, first, params, String(digits), other, Null);
    var c := Call(Some(Number(digits)), digits, CallParams(text, tool, Null), Queued);
    var d := Call(Some(String(digits)), digits, CallParams(text, other, Null), Queued);
    ReachInitialized(lines, first, params);
    var s := Start(lines).(pos := 1, initialized := true, output := [Reply(first, Success)]);
    ReachCall(lines, s, Number(digits), c.params);
    assert s.calls + [c] == [c];
    ReachCall(lines, s.(pos := 2, calls := [c]), String(digits), d.params);
    assert [c] + [d] == [c, d];
    var t := s.(pos := 3, calls := [c, d]);
    ReachExecuting(lines, t, 0);
    var u := t.(calls := [c.(phase := Executing(tool)), d], inFlight := map[digits := tool]);
    assert SetPhase(t, 0, Executing(tool)).(inFlight := t.inFlight[digits := tool]) == u;
    ReachExecuting(lines, u, 1);
    var v := u.(calls := [c.(phase := Executing(tool)), d.(phase := Executing(other))],
                inFlight := map[digits := other]);
    assert SetPhase(u, 1, Executing(other)).(inFlight := u.inFlight[digits := other]) == v;
    ReachErased(lines, v, 0);
    assert SetPhase(v, 0, Answering(Success)).(inFlight := v.inFlight - {digits}).calls[1]
        == d.(phase := Executing(other));
  }

  /** A cancellation can come too late to be true: looked up while its call runs, it is handed to the
      tool after that call has ended and been answered. */
  lemma CancelAfterAnswer(text: string, first: Json, params: Json, id: Json, tool: string, cancelId: Json)
    ensures
      var lines := [RequestLine(text, "initialize", first, params), ToolCall(text, id, tool, Null),
                    RequestLine(text, "notifications/cancelled", cancelId, Object(text, map["requestId" := id]))];
      exists s :: Reaches(lines, s) && Enabled(s, Forward(true)) && s.reader == Forwarding(KeyOf(id), tool)
                  && |s.calls| == 1 && s.calls[0].phase == Answered(Success) && s.inFlight == map[]
                  && Next(s, Forward(true)).cancels == [(KeyOf(id), tool)]
  {
    hide ContentOf, KeyOf, Reaches, NamesTool, ArgumentsOk, ToolOf, RequestLine, CallParams, MethodOf;
    hide Next, Enabled, IsRun, After;
    var cancel := Object(text, map["requestId" := id]);
    var lines := [RequestLine(text, "initialize", first, params), ToolCall(text, id, tool, Null),
                  RequestLine(text, "notifications/cancelled", cancelId, cancel)];
    Parse(text, first, params, id, tool, Null);
    CancelParses(text, cancelId, cancel);
    var c := Call(Some(id), KeyOf(id), CallParams(text, tool, Null), Queued);
    ReachInitialized(lines, first, params);
    var s := Start(lines).(pos := 1, initialized := true, output := [Reply(first, Success)]);
    ReachCall(lines, s, id, c.params);
    assert s.calls + [c] == [c];
    var t := s.(pos := 2, calls := [c]);
    ReachExecuting(lines, t, 0);
    var u := t.(calls := [c.(phase := Executing(tool))], inFlight := map[KeyOf(id) := tool]);
    assert SetPhase(t, 0, Executing(tool)).(inFlight := t.inFlight[KeyOf(id) := tool]) == u;
    ReachCancel(lines, u, id, tool, cancelId, cancel);
    var v := u.(pos := 3, reader := Forwarding(KeyOf(id), tool));
    ReachErased(lines, v, 0);
    var w := v.(calls := [c.(phase := Answering(Success))], inFlight := map[]);
    assert SetPhase(v, 0, Answering(Success)).(inFlight := v.inFlight - {KeyOf(id)}) == w;
    ReachSent(lines, w);
    HandsOver(w.(calls := [c.(phase := Answered(Success))], output := w.output + [Reply(id, Success)]));
  }

  lemma HandsOver(s: Session)
    requires s.reader.Forwarding?
    ensures Enabled(s, Forward(true))
    ensures Next(s, Forward(true)).cancels == s.cancels + [(s.reader.key, s.reader.tool)]
  {
  }

  lemma CancelParses(text: string, id: Json, params: Json)
    ensures RequestLine(text, "notifications/cancelled", id, params).Parsed?
    ensures ContentOf(RequestLine(text, "notifications/cancelled", id, params).message)
         == Request(Cancelled, Some(id), params)
  {
    hide MethodOf, ContentOf;
    Methods();
    RequestLineReads(text, "notifications/cancelled", id, params);
  }

  lemma ReachCancel(lines: seq<Line>, s: Session, id: Json, tool: string, cancelId: Json, params: Json)
    requires Reaches(lines, s) && s.reader == AtTest && s.running && s.lines == lines && s.pos < |lines|
    requires lines[s.pos].Parsed? && ContentOf(lines[s.pos].message) == Request(Cancelled, Some(cancelId), params)
    requires Member(params, "requestId") == Some(id) && KeyOf(id) in s.inFlight && s.inFlight[KeyOf(id)] == tool
    ensures Reaches(lines, s.(pos := s.pos + 1, reader := Forwarding(KeyOf(id), tool)))
  {
    hide ContentOf, KeyOf, Reaches, Member;
    ReachNext(lines, s, Test);
    ReachNext(lines, s.(reader := AtGetline), Read(Gives(Success)));
  }

  lemma ReachSent(lines: seq<Line>, s: Session)
    requires Reaches(lines, s) && |s.calls| == 1 && s.calls[0].phase == Answering(Success) && s.calls[0].id.Some?
    ensures
      Reaches(lines, s.(calls := [s.calls[0].(phase := Answered(Success))],
                        output := s.output + [Reply(s.calls[0].id.value, Success)]))
  {
    hide Reaches;
    ReachNext(lines, s, Send(0, true));
    assert s.calls[0 := s.calls[0].(phase := Answered(Success))] == [s.calls[0].(phase := Answered(Success))];
  }
}
