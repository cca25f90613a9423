/** The client side of a script plugin: one child process at a time, a handshake per child, then one
    request and one reply at a time under m_PipeMutex.

    The child answers requests in order, one line each, perhaps too late; which writes, reads and
    spawns succeed is up to the environment. */
module StdioMCPAdapter {
  import opened Options

  const MAX_RESPAWNS := 3

  /** A child: the ids of the requests written to it, how many reply lines have been read, and
      whether it was told that the handshake is over. The next line read answers `asked[read]`. */
  datatype Child = Child(running: bool, asked: seq<int>, read: nat, greeted: bool)

  datatype Adapter = Adapter(pipe: Option<Child>, initialized: bool, respawns: nat, nextId: int, spawned: nat)

  const INITIAL := Adapter(None, false, 0, 1, 0)

  datatype Line = BadJson | ErrorReply | Fine

  /** One exchange with the child: the write and the read that follows it, and what the line is. */
  datatype Exchange = Exchange(written: bool, answered: bool, line: Line)

  datatype Result =
    | NotRunning
    | SendFailed
    | Timeout
    | Reply(asked: int, answers: int)   // the request sent, and the one the line read belongs to

  function Ask(c: Child, id: int): Child { c.(asked := c.asked + [id]) }

  /** A one-line-per-request child has a line to give only for a request not answered yet. */
  predicate CanAnswer(c: Child) { c.read < |c.asked| }

  predicate HandshakeSucceeds(x: Exchange) { x.written && x.answered && x.line.Fine? }

  predicate Usable(a: Adapter) { a.pipe.Some? && a.pipe.value.running && a.initialized }

  /** A fresh child after the handshake was tried on it. */
  function Greet(id: int, x: Exchange): Child {
    if !x.written then Child(true, [], 0, false)
    else if !x.answered then Child(true, [id], 0, false)
    else Child(true, [id], 1, x.line.Fine?)
  }

  function Ensured(a: Adapter, spawns: bool, x: Exchange): (r: (bool, Adapter)) {
    if Usable(a) then (true, a)
    else if a.respawns >= MAX_RESPAWNS || !spawns then (false, a)
    else
      (HandshakeSucceeds(x),
       Adapter(Some(Greet(a.nextId, x)), a.initialized || HandshakeSucceeds(x), a.respawns + 1,
               a.nextId + 1, a.spawned + 1))
  }

  function Sent(a: Adapter, spawns: bool, hello: Exchange, x: Exchange): (r: (Result, Adapter)) {
    var (ready, b) := Ensured(a, spawns, hello);
    if !ready || b.pipe.None? then (NotRunning, b)
    else
      var id, c := b.nextId, b.pipe.value;
      var d := b.(nextId := id + 1);
      if !x.written then (SendFailed, d.(initialized := false))
      else
        var e := Ask(c, id);
        if !x.answered || !CanAnswer(e) then (Timeout, d.(pipe := Some(e), initialized := false))
        else (Reply(id, e.asked[e.read]), d.(pipe := Some(e.(read := e.read + 1))))
  }

  datatype Step =
    | Send(spawns: bool, hello: Exchange, exchange: Exchange)
    | ChildExits
    | Shutdown

  function Next(a: Adapter, s: Step): Adapter {
    match s
    case Send(spawns, hello, x) => Sent(a, spawns, hello, x).1
    case ChildExits => if a.pipe.Some? then a.(pipe := Some(a.pipe.value.(running := false))) else a
    case Shutdown => a.(pipe := None, initialized := false)
  }

  function After(a: Adapter, steps: seq<Step>): Adapter
    decreases |steps|
  {
    if steps == [] then a else After(Next(a, steps[0]), steps[1..])
  }

  // ---------------------------------------------------------------------------------------------
  // The object

  class Client {
    var pipe: Option<Child>
    var initialized: bool
    var respawns: nat
    var nextId: int
    ghost var spawned: nat

    constructor ()
      ensures View() == INITIAL
    {
      pipe, initialized, respawns, nextId, spawned := None, false, 0, 1, 0;
    }

    ghost function View(): Adapter
      reads this
    {
      Adapter(pipe, initialized, respawns, nextId, spawned)
    }

    method EnsureRunning(spawns: bool, x: Exchange) returns (ready: bool)
      modifies this
      ensures (ready, View()) == Ensured(old(View()), spawns, x)
    {
      if pipe.Some? && pipe.value.running && initialized {
        return true;
      }
      if respawns >= MAX_RESPAWNS || !spawns {
        return false;
      }
      var child := Child(true, [], 0, false);
      pipe := Some(child);
      respawns, spawned := respawns + 1, spawned + 1;
      var id := nextId;
      nextId := nextId + 1;
      if !x.written {
        return false;
      }
      child := Ask(child, id);
      assert child.asked == [id];
      pipe := Some(child);
      if !x.answered {
        return false;
      }
      child := child.(read := child.read + 1);
      pipe := Some(child);
      if !x.line.Fine? {
        return false;
      }
      pipe := Some(child.(greeted := true));
      initialized := true;
      return true;
    }

    method SendRequest(spawns: bool, hello: Exchange, x: Exchange) returns (r: Result)
      modifies this
      ensures (r, View()) == Sent(old(View()), spawns, hello, x)
    {
      var ready := EnsureRunning(spawns, hello);
      if !ready || pipe.None? {
        return NotRunning;
      }
      var id := nextId;
      nextId := nextId + 1;
      if !x.written {
        initialized := false;
        return SendFailed;
      }
      var child := Ask(pipe.value, id);
      pipe := Some(child);
      if !x.answered || !CanAnswer(child) {
        initialized := false;
        return Timeout;
      }
      pipe := Some(child.(read := child.read + 1));
      return Reply(id, child.asked[child.read]);
    }

    method Close()
      modifies this
      ensures View() == Next(old(View()), Shutdown) && pipe.None? && !initialized
    {
      initialized := false;
      pipe := None;
    }
  }

  // ---------------------------------------------------------------------------------------------
  // Every run

  /** Ids only grow: those written to the current child increase and are all in the past. */
  ghost predicate IdsGrow(a: Adapter) {
    && a.spawned == a.respawns <= MAX_RESPAWNS
    && (a.pipe.Some? ==>
          var c := a.pipe.value;
          && c.read <= |c.asked|
          && (forall i, j :: 0 <= i < j < |c.asked| ==> c.asked[i] < c.asked[j])
          && (forall i :: 0 <= i < |c.asked| ==> c.asked[i] < a.nextId))
  }

  lemma IdsGrowEnsured(a: Adapter, spawns: bool, x: Exchange)
    requires IdsGrow(a)
    ensures IdsGrow(Ensured(a, spawns, x).1)
  {
  }

  lemma IdsGrowStep(a: Adapter, s: Step)
    requires IdsGrow(a)
    ensures IdsGrow(Next(a, s))
  {
    if s.Send? {
      IdsGrowEnsured(a, s.spawns, s.hello);
      hide Ensured;
    }
  }

  /** Over any run at most three children are ever spawned. */
  lemma {:induction false} AtMostThreeChildren(a: Adapter, steps: seq<Step>)
    requires IdsGrow(a)
    ensures IdsGrow(After(a, steps)) && After(a, steps).spawned <= 3
    decreases |steps|
  {
    if steps != [] {
      IdsGrowStep(a, steps[0]);
      AtMostThreeChildren(Next(a, steps[0]), steps[1..]);
    }
  }

  /** The flag tells the truth: the current child was greeted and owes no reply. */
  ghost predicate Truthful(a: Adapter) {
    a.initialized ==> a.pipe.Some? && a.pipe.value.greeted && a.pipe.value.read == |a.pipe.value.asked|
  }

  /** A reply is the reply to the request just sent exactly when the child owed nothing before. */
  lemma PairedIffBalanced(a: Adapter, spawns: bool, hello: Exchange, x: Exchange)
    requires IdsGrow(a) && Sent(a, spawns, hello, x).0.Reply?
    ensures
      var r, c := Sent(a, spawns, hello, x).0, Ensured(a, spawns, hello).1.pipe.value;
      r.answers == r.asked <==> c.read == |c.asked|
  {
    var (ready, b) := Ensured(a, spawns, hello);
    var c, id := b.pipe.value, b.nextId;
    IdsGrowStep(a, Send(spawns, hello, x));
    if c.read < |c.asked| {
      assert Ask(c, id).asked[c.read] == c.asked[c.read];
    }
  }

  /** The flag of a dead child is left standing when its successor's handshake fails. */
  predicate LeavesStaleFlag(a: Adapter, s: Step) {
    s.Send? && a.initialized && !Usable(a) && a.respawns < MAX_RESPAWNS && s.spawns && !HandshakeSucceeds(s.hello)
  }

  /** That is the one way in which a step makes the flag lie, and it always does. */
  lemma TruthfulIff(a: Adapter, s: Step)
    requires IdsGrow(a) && Truthful(a)
    ensures Truthful(Next(a, s)) <==> !LeavesStaleFlag(a, s)
  {
  }

  /** While the flag is true every reply is to the request it was read for, a child that died before
      the call included. */
  lemma TruthfulPairs(a: Adapter, spawns: bool, hello: Exchange, x: Exchange)
    requires IdsGrow(a) && Truthful(a)
    ensures
      var r := Sent(a, spawns, hello, x).0;
      r.Reply? ==> r.answers == r.asked
  {
    if Sent(a, spawns, hello, x).0.Reply? {
      PairedIffBalanced(a, spawns, hello, x);
    }
  }

  // ---------------------------------------------------------------------------------------------
  // Which replies are paired

  /** A child the flag stands for owes no reply. */
  ghost predicate Even(a: Adapter) {
    a.initialized ==> a.pipe.Some? && a.pipe.value.read == |a.pipe.value.asked|
  }

  /** A handshake fails under a standing flag because its reply is late: it was written, and no line
      came in time. A handshake that was never written, or got a bad line, leaves no reply behind. */
  predicate Late(a: Adapter, s: Step) {
    LeavesStaleFlag(a, s) && s.hello.written && !s.hello.answered
  }

  /** Only a late handshake makes the child owe a reply, and it always does. */
  lemma EvenIff(a: Adapter, s: Step)
    requires IdsGrow(a) && Even(a)
    ensures Even(Next(a, s)) <==> !Late(a, s)
  {
  }

  /** A request is given the reply to another exactly when it is written to a running child that owes
      one, and a line comes in time. */
  lemma MispairedIff(a: Adapter, spawns: bool, hello: Exchange, x: Exchange)
    requires IdsGrow(a)
    ensures
      var r := Sent(a, spawns, hello, x).0;
      r.Reply? && r.answers != r.asked <==> Usable(a) && !Even(a) && x.written && x.answered
  {
    if Sent(a, spawns, hello, x).0.Reply? {
      PairedIffBalanced(a, spawns, hello, x);
    }
  }

  /** Every request of the run that got a line got its own. */
  ghost predicate AllPaired(a: Adapter, steps: seq<Step>)
    decreases |steps|
  {
    steps == [] ||
    ((steps[0].Send? ==>
        var r := Sent(a, steps[0].spawns, steps[0].hello, steps[0].exchange).0;
        r.Reply? ==> r.answers == r.asked)
     && AllPaired(Next(a, steps[0]), steps[1..]))
  }

  ghost predicate NoneLate(a: Adapter, steps: seq<Step>)
    decreases |steps|
  {
    steps == [] || (!Late(a, steps[0]) && NoneLate(Next(a, steps[0]), steps[1..]))
  }

  /** Some handshake is late under a standing flag, and the very next step is a request that is written
      and answered. */
  ghost predicate OvertakesLate(a: Adapter, steps: seq<Step>)
    decreases |steps|
  {
    |steps| > 1 &&
    ((Late(a, steps[0]) && IsAnswered(steps[1])) || OvertakesLate(Next(a, steps[0]), steps[1..]))
  }

  predicate IsAnswered(s: Step) { s.Send? && s.exchange.written && s.exchange.answered }

  /** No request can be given another's reply now. */
  ghost predicate Safe(a: Adapter) { Even(a) || !Usable(a) }

  lemma SafeStep(a: Adapter, s: Step)
    requires IdsGrow(a) && Safe(a)
    ensures Late(a, s) || Safe(Next(a, s))
    ensures Late(a, s) ==> Usable(Next(a, s)) && !Even(Next(a, s))
  {
  }

  /** After a late handshake anything but an answered request makes the adapter safe again. */
  lemma OwingStep(a: Adapter, s: Step)
    requires IdsGrow(a) && Usable(a) && !Even(a) && !IsAnswered(s)
    ensures Safe(Next(a, s)) && !Late(a, s)
  {
  }

  lemma StepPaired(a: Adapter, s: Step)
    requires IdsGrow(a) && s.Send?
    ensures
      var r := Sent(a, s.spawns, s.hello, s.exchange).0;
      r.Reply? && r.answers != r.asked <==> Usable(a) && !Even(a) && IsAnswered(s)
  {
    MispairedIff(a, s.spawns, s.hello, s.exchange);
  }

  /** Over runs of any length: all replies are paired exactly when no handshake is late under a standing
      flag with an answered request right behind it. */
  lemma {:induction false} AllPairedIff(a: Adapter, steps: seq<Step>)
    requires IdsGrow(a) && Safe(a)
    ensures AllPaired(a, steps) <==> !OvertakesLate(a, steps)
    decreases |steps|
  {
    hide Next, IdsGrow, Even, Usable, Late, Sent, IsAnswered;
    if steps != [] {
      var s, b := steps[0], Next(a, steps[0]);
      IdsGrowStep(a, s);
      SafeStep(a, s);
      if s.Send? {
        StepPaired(a, s);
      }
      if !Late(a, s) {
        AllPairedIff(b, steps[1..]);
      } else if |steps| > 1 {
        var t := steps[1];
        assert steps[1..][0] == t && steps[1..][1..] == steps[2..];
        if t.Send? {
          StepPaired(b, t);
        }
        AnsweredIsSend(t);
        if !IsAnswered(t) {
          OwingStep(b, t);
          IdsGrowStep(b, t);
          AllPairedIff(Next(b, t), steps[2..]);
        }
      }
    }
  }

  lemma AnsweredIsSend(s: Step)
    ensures IsAnswered(s) ==> s.Send?
  {
  }

  /** As long as no handshake is late under a standing flag, all replies are paired, over runs of any
      length; */
  lemma {:induction false} PairedThroughout(a: Adapter, steps: seq<Step>)
    requires IdsGrow(a) && Even(a) && NoneLate(a, steps)
    ensures AllPaired(a, steps) && Even(After(a, steps))
    decreases |steps|
  {
    if steps != [] {
      var s := steps[0];
      if s.Send? {
        MispairedIff(a, s.spawns, s.hello, s.exchange);
      }
      EvenIff(a, s);
      IdsGrowStep(a, s);
      PairedThroughout(Next(a, s), steps[1..]);
    }
  }

  /** and right after a late one, the next request that is written and answered is given the reply to
      that handshake. */
  lemma LateMispairs(a: Adapter, late: Step, spawns: bool, hello: Exchange, x: Exchange)
    requires Late(a, late) && x.written && x.answered
    ensures Sent(Next(a, late), spawns, hello, x).0 == Reply(a.nextId + 1, a.nextId)
  {
    assert Ask(Child(true, [a.nextId], 0, false), a.nextId + 1).asked == [a.nextId, a.nextId + 1];
  }

  ghost predicate NoStaleFlag(a: Adapter, steps: seq<Step>)
    decreases |steps|
  {
    steps == [] || (!LeavesStaleFlag(a, steps[0]) && NoStaleFlag(Next(a, steps[0]), steps[1..]))
  }

  /** No call finds the child it greeted dead. */
  ghost predicate NoExitBetweenCalls(a: Adapter, steps: seq<Step>)
    decreases |steps|
  {
    steps == [] ||
    ((steps[0].Send? && a.initialized ==> Usable(a)) && NoExitBetweenCalls(Next(a, steps[0]), steps[1..]))
  }

  /** As long as no handshake at all fails under a standing flag, the flag stays true besides. */
  lemma {:induction false} TruthfulThroughout(a: Adapter, steps: seq<Step>)
    requires IdsGrow(a) && Truthful(a) && NoStaleFlag(a, steps)
    ensures NoneLate(a, steps) && AllPaired(a, steps) && Truthful(After(a, steps))
    decreases |steps|
  {
    if steps != [] {
      TruthfulIff(a, steps[0]);
      IdsGrowStep(a, steps[0]);
      TruthfulThroughout(Next(a, steps[0]), steps[1..]);
    }
    PairedThroughout(a, steps);
  }

  /** In particular when no child exits between calls. */
  lemma {:induction false} CalmRunsPaired(a: Adapter, steps: seq<Step>)
    requires IdsGrow(a) && Truthful(a) && NoExitBetweenCalls(a, steps)
    ensures NoStaleFlag(a, steps) && AllPaired(a, steps) && Truthful(After(a, steps))
    decreases |steps|
  {
    if steps != [] {
      IdsGrowStep(a, steps[0]);
      TruthfulIff(a, steps[0]);
      CalmRunsPaired(Next(a, steps[0]), steps[1..]);
    }
    TruthfulThroughout(a, steps);
  }

  // ---------------------------------------------------------------------------------------------
  // What one request does

  /** With a running child behind the flag no child is spawned: the request goes to it under the next id,
      and a write that fails or a reply that does not come lowers the flag. */
  lemma UsableAsks(a: Adapter, spawns: bool, hello: Exchange, x: Exchange)
    requires IdsGrow(a) && a.pipe.Some? && a.pipe.value.running && a.initialized
    ensures
      var (r, b) := Sent(a, spawns, hello, x);
      var c := a.pipe.value;
      && b.spawned == a.spawned && b.respawns == a.respawns && b.nextId == a.nextId + 1
      && r == (if !x.written then SendFailed else if !x.answered then Timeout
               else Reply(a.nextId, if c.read < |c.asked| then c.asked[c.read] else a.nextId))
      && (b.initialized <==> x.written && x.answered)
      && b.pipe == Some(Child(true, if x.written then c.asked + [a.nextId] else c.asked,
                              if x.written && x.answered then c.read + 1 else c.read, c.greeted))
  {
  }

  /** Otherwise a child is spawned, if spawning works and fewer than three were, and greeted; a request
      that is written and answered then gets its own reply. Without a greeted child nothing is sent. */
  lemma UnusableRespawns(a: Adapter, spawns: bool, hello: Exchange, x: Exchange)
    requires !(a.pipe.Some? && a.pipe.value.running && a.initialized)
    ensures
      var (r, b) := Sent(a, spawns, hello, x);
      var greeted := hello.written && hello.answered && hello.line == Fine;
      if !spawns || a.respawns >= 3 then r == NotRunning && b == a
      else
        && b.spawned == a.spawned + 1 && b.respawns == a.respawns + 1 && b.pipe.Some?
        && (if !greeted then r == NotRunning && b.nextId == a.nextId + 1 && b.initialized == a.initialized
            else
              && b.nextId == a.nextId + 2 && (b.initialized <==> x.written && x.answered)
              && r == (if !x.written then SendFailed else if !x.answered then Timeout
                       else Reply(a.nextId + 1, a.nextId + 1)))
  {
    assert [a.nextId] + [a.nextId + 1] == [a.nextId, a.nextId + 1];
  }

  const GOOD := Exchange(true, true, Fine)
  const LATE := Exchange(true, false, Fine)

  lemma AfterThree(a: Adapter, s1: Step, s2: Step, s3: Step)
    ensures After(a, [s1, s2, s3]) == Next(Next(Next(a, s1), s2), s3)
  {
    hide Next;
    assert [s1, s2, s3][1..] == [s2, s3] && [s2, s3][1..] == [s3] && [s3][1..] == [];
    assert After(Next(a, s1), [s2, s3]) == After(Next(Next(a, s1), s2), [s3]);
  }

  /** A run that breaks the pairing: the first child answers and dies, the second is slow to greet,
      and the next request is given the late reply to the greeting. */
  lemma LateGreetingMispairs()
    ensures
      var a := After(INITIAL, [Send(true, GOOD, GOOD), ChildExits, Send(true, LATE, GOOD)]);
      && Sent(INITIAL, true, GOOD, GOOD).0 == Reply(2, 2)
      && a == Adapter(Some(Child(true, [3], 0, false)), true, 2, 4, 2)
      && Sent(a, true, GOOD, GOOD).0 == Reply(4, 3)
  {
    AfterThree(INITIAL, Send(true, GOOD, GOOD), ChildExits, Send(true, LATE, GOOD));
    assert [1] + [2] == [1, 2] && [3] + [4] == [3, 4];
    assert Next(INITIAL, Send(true, GOOD, GOOD)) == Adapter(Some(Child(true, [1, 2], 2, true)), true, 1, 3, 1);
  }
}
