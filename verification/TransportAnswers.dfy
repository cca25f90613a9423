/** Steps of the transport, and the balance of answers they keep. */
module TransportAnswers {
  import opened Options
  import opened JsonRpc
  import opened TransportSteps

  // ---------------------------------------------------------------------------------------------
  // One call

  /** The tool a call has got through its checks with and not yet left behind. */
  function ToolIn(p: Phase): Option<string> {
    match p
    case Ready(t) => Some(t)
    case Executing(t) => Some(t)
    case Returned(t, _) => Some(t)
    case Raised(t, _) => Some(t)
    case Dropped(r) => if r.NotStdException? then Some(r.tool) else None
    case _ => None
  }

  /** Said without looking at the request further. */
  predicate Refusal(v: Verdict) { v == Failure(PARSE_ERROR) || v == Failure(INVALID_REQUEST) }

  /** A verdict that only the end of a tool brings about. */
  predicate FromTool(v: Verdict) { v == Success || v == Failure(INTERNAL_ERROR) }

  /** What a call has to say, once it has. */
  function VerdictIn(p: Phase): Option<Verdict> {
    match p
    case Answering(v) => Some(v)
    case Answered(v) => Some(v)
    case _ => None
  }

  /** No tool is reached, and no end of one reported, unless the session is initialized and the call
      is well formed; and only a call with ill-typed arguments is dropped for them. */
  ghost predicate CallOk(c: Call, initialized: bool) {
    && c.key == KeyOf(OrNull(c.id))
    && (ToolIn(c.phase).Some? ==> initialized && NamesTool(c.params) && ArgumentsOk(c.params))
    && (VerdictIn(c.phase).Some? ==> VerdictOk(c, VerdictIn(c.phase).value, initialized))
    && (ToolIn(c.phase).Some? ==> ToolIn(c.phase).value == ToolOf(c.params))
    && (c.phase == Dropped(ArgumentsNoObject) ==> initialized && NamesTool(c.params) && !ArgumentsOk(c.params))
  }

  /** Not initialized, wrong parameters, or a tool of a well-formed call that has ended. */
  ghost predicate VerdictOk(c: Call, v: Verdict, initialized: bool) {
    if v == Failure(INVALID_PARAMS) then initialized
    else if FromTool(v) then initialized && NamesTool(c.params) && ArgumentsOk(c.params)
    else v == Failure(INVALID_REQUEST)
  }

  predicate IsInitialize(l: Line) {
    l.Parsed? && ContentOf(l.message).Request? && ContentOf(l.message).kind == Initialize
  }

  ghost predicate CallsOk(s: Session) {
    && (forall k :: 0 <= k < |s.calls| ==> CallOk(s.calls[k], s.initialized))
    && (forall m :: m in s.output && m.Reply? && !Refusal(m.verdict) ==> s.initialized)
    && (s.initialized ==> exists k :: 0 <= k < s.pos && k < |s.lines| && IsInitialize(s.lines[k]))
  }

  /** The step that acts on call `i`, and the phase it leads to. */
  predicate ActsOn(step: Step, i: nat) {
    match step
    case Check(j, _) => i == j
    case Insert(j) => i == j
    case End(j, _) => i == j
    case Erase(j) => i == j
    case Send(j, _) => i == j
    case _ => false
  }

  /** From `s` to `t` only call `i` moved, and it said what its new phase says. */
  ghost predicate Moves(s: Session, t: Session, i: nat)
    requires i < |s.calls|
  {
    && t.lines == s.lines && t.pos == s.pos && t.initialized == s.initialized
    && t.running == s.running && t.cancels == s.cancels
    && |t.calls| == |s.calls|
    && t.calls == s.calls[i := s.calls[i].(phase := t.calls[i].phase)]
    && t.reader == ReaderAfter(s.reader, t.calls[i])
    && t.output == s.output + Said(t.calls[i])
  }

  /** A call without an id that ends frees the reader, or takes it down. */
  function ReaderAfter(reader: Reader, c: Call): Reader {
    if c.id.Some? || !Finished(c.phase) then reader else if c.phase.Dropped? then Thrown else AtTest
  }

  function Said(c: Call): seq<Message> {
    if c.id.Some? && c.phase.Answered? then [Reply(c.id.value, c.phase.verdict)] else []
  }

  lemma CallStep(s: Session, step: Step, i: nat)
    requires Enabled(s, step) && ActsOn(step, i)
    ensures i < |s.calls| && Applies(s.calls[i].phase, step) && !Finished(s.calls[i].phase)
    ensures Moves(s, Next(s, step), i)
    ensures Next(s, step).calls[i].phase == PhaseAfter(s.calls[i], s.initialized, step)
    ensures Next(s, step).inFlight == MapAfter(s.inFlight, s.calls[i], step)
  {
    hide Next, PhaseAfter, MapAfter, Moves;
    NextIsCall(s, step, i);
    CallMoves(s, step, i);
  }

  lemma NextIsCall(s: Session, step: Step, i: nat)
    requires Enabled(s, step) && ActsOn(step, i)
    ensures i < |s.calls| && Applies(s.calls[i].phase, step) && !Finished(s.calls[i].phase)
    ensures Next(s, step) == CallNext(s, i, step)
  {
    hide CallNext, ReadNext;
  }

  lemma CallMoves(s: Session, step: Step, i: nat)
    requires i < |s.calls| && Applies(s.calls[i].phase, step)
    ensures
      var t := CallNext(s, i, step);
      && Moves(s, t, i)
      && t.calls[i].phase == PhaseAfter(s.calls[i], s.initialized, step)
      && t.inFlight == MapAfter(s.inFlight, s.calls[i], step)
  {
    hide PhaseAfter, MapAfter, Applies;
    assert s.output + [] == s.output;
  }

  lemma PhaseStep(c: Call, initialized: bool, step: Step)
    requires CallOk(c, initialized) && Applies(c.phase, step)
    ensures CallOk(c.(phase := PhaseAfter(c, initialized, step)), initialized)
  {
    hide KeyOf;
  }

  /** The call a line starts, if it starts one. */
  function NewCall(l: Line): seq<Call> {
    if l.Parsed? && ContentOf(l.message).Request? && ContentOf(l.message).kind == ToolsCall then
      var c := ContentOf(l.message);
      [Call(c.id, KeyOf(OrNull(c.id)), c.params, Queued)]
    else []
  }

  function Ids(id: Option<Json>): multiset<Json> { if id.Some? then multiset{id.value} else multiset{} }

  /** The ids a line obliges the server to answer: of each request, and of what it cannot make
      sense of, null if it has none. */
  function DueOf(l: Line): multiset<Json> {
    match l
    case Empty => multiset{}
    case Malformed => multiset{Null}
    case Parsed(m) =>
      match ContentOf(m)
      case Invalid(id) => multiset{id}
      case NoMethodName => multiset{}
      case Request(kind, id, _) => if kind == Initialized || kind == Cancelled then multiset{} else Ids(id)
  }

  function ReplyIds(out: seq<Message>): multiset<Json> {
    if out == [] then multiset{}
    else ReplyIds(out[..|out| - 1]) + if out[|out| - 1].Reply? then multiset{out[|out| - 1].id} else multiset{}
  }

  lemma ReplyIdsSnoc(out: seq<Message>, m: Message)
    ensures ReplyIds(out + [m]) == ReplyIds(out) + if m.Reply? then multiset{m.id} else multiset{}
  {
    assert (out + [m])[..|out|] == out;
  }

  lemma AnswerIds(s: Session, id: Option<Json>, v: Verdict)
    ensures ReplyIds(Answer(s, id, v).output) == ReplyIds(s.output) + Ids(id)
    ensures Answer(s, id, v).initialized == s.initialized && Answer(s, id, v).reader == s.reader
    ensures forall m :: m in Answer(s, id, v).output ==> m in s.output || (m.Reply? && m.verdict == v)
  {
    if id.Some? {
      ReplyIdsSnoc(s.output, Reply(id.value, v));
    }
  }

  /** What reading a line changes: the reader moves on or is gone, and a call may be added. */
  ghost predicate Reads(s: Session, t: Session, l: Line) {
    && t.lines == s.lines && t.running == s.running && t.cancels == s.cancels && t.inFlight == s.inFlight
    && t.initialized == (s.initialized || IsInitialize(l))
    && t.calls == s.calls + NewCall(l)
    && (t.reader.Calling? <==> NewCall(l) != [] && NewCall(l)[0].id.None?)
    && (t.reader.Calling? ==> t.reader.call == |s.calls|)
    && (t.reader == AtTest || t.reader == Thrown || t.reader.Calling? || t.reader.Forwarding?)
    && (t.reader.Forwarding? ==> t.reader.key in s.inFlight && s.inFlight[t.reader.key] == t.reader.tool)
  }

  /** And what it says: every id due is answered at once or belongs to the call added. */
  ghost predicate Tells(s: Session, t: Session, l: Line) {
    && (t.reader == Thrown || ReplyIds(t.output) + NewIds(l) == ReplyIds(s.output) + DueOf(l))
    && (forall m :: m in t.output ==> m in s.output || (m.Reply? && (Refusal(m.verdict) || t.initialized)))
  }

  function NewIds(l: Line): multiset<Json> { if NewCall(l) == [] then multiset{} else Ids(NewCall(l)[0].id) }

  lemma DispatchReads(s: Session, l: Line, h: Handled)
    requires l.Parsed? && ContentOf(l.message).Request? && s.reader == AtTest
    ensures
      var c := ContentOf(l.message);
      var t := Dispatch(s, c.kind, c.id, c.params, h);
      t.pos == s.pos && Reads(s, t, l)
  {
    hide ContentOf, KeyOf;
    assert s.calls + [] == s.calls;
  }

  lemma DispatchTells(s: Session, l: Line, h: Handled)
    requires l.Parsed? && ContentOf(l.message).Request? && s.reader == AtTest
    ensures
      var c := ContentOf(l.message);
      Tells(s, Dispatch(s, c.kind, c.id, c.params, h), l)
  {
    hide ContentOf, KeyOf, ReplyIds, Answer, Ids;
    var c := ContentOf(l.message);
    if c.kind == Initialize {
      AnswerIds(s.(initialized := true), c.id, Success);
    } else if c.kind == Unknown || c.kind == Served {
      if !s.initialized {
        AnswerIds(s, c.id, Failure(INVALID_REQUEST));
      } else if c.kind == Unknown {
        AnswerIds(s, c.id, Failure(METHOD_NOT_FOUND));
      } else if h.Gives? {
        AnswerIds(s, c.id, h.verdict);
      }
    }
  }

  /** A line that is no request is answered at once, if it is not empty. */
  lemma OtherReads(s: Session, h: Handled)
    requires s.pos < |s.lines|
    requires s.lines[s.pos].Parsed? ==> !ContentOf(s.lines[s.pos].message).Request?
    ensures
      var t := ReadNext(s, h);
      Reads(s, t, s.lines[s.pos]) && t.pos == s.pos + 1
  {
    hide Dispatch, ContentOf, KeyOf;
    assert s.calls + [] == s.calls;
  }

  lemma OtherTells(s: Session, h: Handled)
    requires s.pos < |s.lines|
    requires s.lines[s.pos].Parsed? ==> !ContentOf(s.lines[s.pos].message).Request?
    ensures Tells(s, ReadNext(s, h), s.lines[s.pos])
  {
    hide Dispatch, ContentOf, KeyOf, ReplyIds, Answer;
    var t := s.(pos := s.pos + 1, reader := AtTest);
    match s.lines[s.pos]
    case Empty =>
    case Malformed => AnswerIds(t, Some(Null), Failure(PARSE_ERROR));
    case Parsed(m) =>
      if ContentOf(m).Invalid? {
        AnswerIds(t, Some(ContentOf(m).echoed), Failure(INVALID_REQUEST));
      }
  }

  lemma ReadReads(s: Session, h: Handled)
    requires s.pos < |s.lines|
    ensures
      var t := ReadNext(s, h);
      Reads(s, t, s.lines[s.pos]) && Tells(s, t, s.lines[s.pos]) && t.pos == s.pos + 1
  {
    hide Dispatch, ContentOf, KeyOf, ReplyIds, NewCall, DueOf, IsInitialize;
    var l := s.lines[s.pos];
    if l.Parsed? && ContentOf(l.message).Request? {
      DispatchReads(s.(pos := s.pos + 1, reader := AtTest), l, h);
      DispatchTells(s.(pos := s.pos + 1, reader := AtTest), l, h);
    } else {
      OtherReads(s, h);
      OtherTells(s, h);
    }
  }

  lemma CallsOkStep(s: Session, step: Step)
    requires CallsOk(s) && Enabled(s, step)
    ensures CallsOk(Next(s, step))
  {
    hide CallOk, IsInitialize, KeyOf, Next;
    if i: nat :| ActsOn(step, i) {
      CallStep(s, step, i);
      PhaseStep(s.calls[i], s.initialized, step);
      SaidOk(Next(s, step).calls[i], s.initialized);
    } else {
      CallsOkElse(s, step);
    }
  }

  lemma SaidOk(c: Call, initialized: bool)
    requires CallOk(c, initialized)
    ensures forall m :: m in Said(c) && !Refusal(m.verdict) ==> initialized
  {
  }

  lemma NotOnCall(step: Step)
    requires forall i: nat :: !ActsOn(step, i)
    ensures !step.Check? && !step.Insert? && !step.End? && !step.Erase? && !step.Send?
  {
    if step.Check? || step.Insert? || step.End? || step.Erase? || step.Send? {
      assert ActsOn(step, step.call);
    }
  }

  lemma CallsOkElse(s: Session, step: Step)
    requires CallsOk(s) && Enabled(s, step) && forall i: nat :: !ActsOn(step, i)
    ensures CallsOk(Next(s, step))
  {
    hide CallOk, IsInitialize, KeyOf, ReadNext, ContentOf, ReplyIds, DueOf;
    NotOnCall(step);
    if step.Read? {
      ReadReads(s, step.handled);
      var l, t := s.lines[s.pos], ReadNext(s, step.handled);
      CallOkGrows(s.calls, s.initialized);
      NewCallOk(l, t.initialized);
      assert IsInitialize(l) ==> IsInitialize(s.lines[s.pos]);
    }
  }

  lemma CallOkGrows(calls: seq<Call>, initialized: bool)
    requires forall k :: 0 <= k < |calls| ==> CallOk(calls[k], initialized)
    ensures forall k :: 0 <= k < |calls| ==> CallOk(calls[k], true)
  {
  }

  lemma NewCallOk(l: Line, initialized: bool)
    ensures forall c :: c in NewCall(l) ==> CallOk(c, initialized)
  {
  }

  // ---------------------------------------------------------------------------------------------
  // The reader

  /** A call without an id is running only while the reader is inside it; the reader stops reading
      only at the end of the input or after Stop, and Run returns only when every call is over. */
  ghost predicate ReaderOk(s: Session) {
    && s.pos <= |s.lines|
    && (s.reader == AtGetline ==> s.pos < |s.lines|)
    && (s.reader == Draining || s.reader == Done ==> s.pos == |s.lines| || !s.running)
    && (s.reader == Done ==> forall k :: 0 <= k < |s.calls| ==> Finished(s.calls[k].phase))
    && (s.reader.Calling? ==> s.reader.call < |s.calls| && Inside(s.calls[s.reader.call]))
    && (forall k :: 0 <= k < |s.calls| && Inside(s.calls[k]) ==> s.reader == Calling(k))
    && (forall k :: 0 <= k < |s.calls| && s.calls[k].id.None? && s.calls[k].phase.Dropped? ==> s.reader == Thrown)
    && (forall k :: 0 <= k < |s.calls| - 1 && s.calls[k].id.None? ==> s.calls[k].phase.Answered?)
  }

  predicate Inside(c: Call) { c.id.None? && !Finished(c.phase) }

  lemma ReaderOkStep(s: Session, step: Step)
    requires ReaderOk(s) && Enabled(s, step)
    ensures ReaderOk(Next(s, step))
  {
    hide Next, ReadNext, NewCall, IsInitialize, Tells;
    if i: nat :| ActsOn(step, i) {
      CallStep(s, step, i);
    } else {
      NotOnCall(step);
      if step.Read? {
        ReadReads(s, step.handled);
        NewCallQueued(s.lines[s.pos]);
        ReadIsNext(s, step.handled);
      } else {
        ReaderOkElse(s, step);
      }
    }
  }

  lemma ReadIsNext(s: Session, h: Handled)
    requires Enabled(s, Read(h))
    ensures Next(s, Read(h)) == ReadNext(s, h)
  {
    hide ReadNext;
  }

  lemma NewCallQueued(l: Line)
    ensures |NewCall(l)| <= 1 && forall c :: c in NewCall(l) ==> c.phase == Queued
  {
    hide ContentOf, KeyOf;
  }

  lemma ReaderOkElse(s: Session, step: Step)
    requires ReaderOk(s) && Enabled(s, step)
    requires step.Test? || step.Stop? || step.Push? || step.Forward? || step.Return?
    ensures ReaderOk(Next(s, step))
  {
  }

  // ---------------------------------------------------------------------------------------------
  // Every request is answered

  function Due(lines: seq<Line>, n: nat): multiset<Json>
    requires n <= |lines|
  {
    if n == 0 then multiset{} else Due(lines, n - 1) + DueOf(lines[n - 1])
  }

  /** The id a call still owes an answer to. */
  function Owed(c: Call): multiset<Json> { if c.phase.Answered? then multiset{} else Ids(c.id) }

  function Unanswered(calls: seq<Call>): multiset<Json> {
    if calls == [] then multiset{} else Unanswered(calls[..|calls| - 1]) + Owed(calls[|calls| - 1])
  }

  /** What was due is answered or still owed, and nothing else is answered. */
  ghost predicate Balanced(s: Session) {
    && s.pos <= |s.lines|
    && (s.reader == Thrown || ReplyIds(s.output) + Unanswered(s.calls) == Due(s.lines, s.pos))
  }

  lemma {:induction false} UnansweredUpdate(calls: seq<Call>, i: nat, c: Call)
    requires i < |calls|
    ensures Unanswered(calls[i := c]) + Owed(calls[i]) == Unanswered(calls) + Owed(c)
  {
    hide Owed;
    var n := |calls| - 1;
    var rest := Unanswered(calls[..n]);
    if i == n {
      assert calls[i := c][..n] == calls[..n];
      assert rest + Owed(c) + Owed(calls[i]) == rest + Owed(calls[i]) + Owed(c);
    } else {
      assert calls[i := c][..n] == calls[..n][i := c];
      UnansweredUpdate(calls[..n], i, c);
      var rest' := Unanswered(calls[..n][i := c]);
      assert rest' + Owed(calls[n]) + Owed(calls[i]) == rest' + Owed(calls[i]) + Owed(calls[n]);
      assert rest + Owed(c) + Owed(calls[n]) == rest + Owed(calls[n]) + Owed(c);
    }
  }

  lemma UnansweredNew(calls: seq<Call>, l: Line)
    ensures Unanswered(calls + NewCall(l)) == Unanswered(calls) + NewIds(l)
  {
    hide ContentOf, KeyOf, Ids;
    NewCallQueued(l);
    if NewCall(l) == [] {
      assert calls + NewCall(l) == calls;
    } else {
      var c := NewCall(l)[0];
      assert NewCall(l) == [c];
      assert (calls + [c])[..|calls|] == calls;
    }
  }

  lemma BalancedStep(s: Session, step: Step)
    requires Balanced(s) && ReaderOk(s) && Enabled(s, step)
    ensures Balanced(Next(s, step))
  {
    hide Next, ReadNext, Unanswered, ReplyIds, DueOf, NewCall, IsInitialize;
    if i: nat :| ActsOn(step, i) {
      BalancedCall(s, step, i);
    } else {
      NotOnCall(step);
      if step.Read? {
        var l := s.lines[s.pos];
        ReadReads(s, step.handled);
        ReadIsNext(s, step.handled);
        UnansweredNew(s.calls, l);
        BalancedRead(ReplyIds(s.output), ReplyIds(Next(s, step).output), Unanswered(s.calls), NewIds(l),
                     Due(s.lines, s.pos), DueOf(l));
      } else {
        BalancedElse(s, step);
      }
    }
  }

  lemma BalancedRead(said: multiset<Json>, said': multiset<Json>, owed: multiset<Json>, added: multiset<Json>,
      due: multiset<Json>, more: multiset<Json>)
    ensures said' + added == said + more && said + owed == due ==> said' + (owed + added) == due + more
  {
    if said' + added == said + more && said + owed == due {
      assert said' + (owed + added) == (said' + added) + owed;
      assert (said + more) + owed == (said + owed) + more;
    }
  }

  lemma BalancedCall(s: Session, step: Step, i: nat)
    requires Balanced(s) && ReaderOk(s) && Enabled(s, step) && ActsOn(step, i)
    ensures Balanced(Next(s, step))
  {
    hide Next, Unanswered, ReplyIds, Due;
    CallStep(s, step, i);
    var t := Next(s, step);
    UnansweredUpdate(s.calls, i, t.calls[i]);
    if Said(t.calls[i]) != [] {
      ReplyIdsSnoc(s.output, Said(t.calls[i])[0]);
      assert Unanswered(t.calls) + Owed(s.calls[i]) == Unanswered(s.calls);
      assert ReplyIds(t.output) == ReplyIds(s.output) + Owed(s.calls[i]);
      assert ReplyIds(s.output) + Owed(s.calls[i]) + Unanswered(t.calls)
        == ReplyIds(s.output) + (Unanswered(t.calls) + Owed(s.calls[i]));
    } else {
      assert Owed(t.calls[i]) == Owed(s.calls[i]);
      assert Unanswered(t.calls) == Unanswered(s.calls) by {
        Cancel(Unanswered(t.calls), Unanswered(s.calls), Owed(s.calls[i]));
      }
      assert s.output + [] == s.output;
    }
  }

  lemma Cancel(a: multiset<Json>, b: multiset<Json>, c: multiset<Json>)
    requires a + c == b + c
    ensures a == b
  {
    assert a == (a + c) - c && b == (b + c) - c;
  }

  lemma BalancedElse(s: Session, step: Step)
    requires Balanced(s) && Enabled(s, step)
    requires step.Test? || step.Stop? || step.Push? || step.Forward? || step.Return?
    ensures Balanced(Next(s, step))
  {
    hide Unanswered, ReplyIds, Due;
    if step.Push? {
      ReplyIdsSnoc(s.output, Notification);
      assert ReplyIds(s.output) + multiset{} == ReplyIds(s.output);
    }
  }
}
