/** The wrapper around a native plugin's tool: circuit breaker, counter of outstanding calls and
    cancellation marks.

    A call is a thread that makes one atomic access to the shared fields after another; a run is any
    interleaving of calls, cancellations and a shutdown.  What the plugin does, and whether the call
    took too long, is up to the environment. */
module NativePluginAdapter {

  const MAX_FAULTS := 3
  const MAX_CONCURRENT := 8

  datatype Outcome = ShuttingDown | Disabled | TooMany | Threw | Cancelled | TimedOut | Answered

  datatype Phase =
    | Fresh           // before the shutdown check
    | Up              // before the fault check
    | Enabled         // before the check of outstanding calls
    | Admitted        // before ++m_ActiveThreads
    | Executing       // inside the plugin
    | Faulting        // the plugin threw; before ++m_FaultCount
    | Returned        // the plugin returned; before the cancellation check
    | Uncancelled     // before the fault count is raised (too slow) or cleared
    | Done(outcome: Outcome)

  datatype Call = Call(id: string, phase: Phase)

  datatype Adapter = Adapter(faults: nat, active: int, shutdown: bool, cancelled: set<string>, calls: seq<Call>)

  const INITIAL := Adapter(0, 0, false, {}, [])

  datatype Step =
    | Begin(id: string)
    | Advance(call: nat, threw: bool, slow: bool)
    | Cancel(id: string)
    | Shutdown

  predicate CanStep(a: Adapter, s: Step) {
    s.Advance? ==> s.call < |a.calls| && !a.calls[s.call].phase.Done?
  }

  function To(a: Adapter, i: nat, p: Phase): Adapter
    requires i < |a.calls|
  {
    a.(calls := a.calls[i := a.calls[i].(phase := p)])
  }

  /** The next atomic access of call `i`. */
  function Advanced(a: Adapter, i: nat, threw: bool, slow: bool): Adapter
    requires i < |a.calls| && !a.calls[i].phase.Done?
  {
    var id := a.calls[i].id;
    match a.calls[i].phase
    case Fresh => if a.shutdown then To(a, i, Done(ShuttingDown)) else To(a, i, Up)
    case Up => if a.faults >= MAX_FAULTS then To(a, i, Done(Disabled)) else To(a, i, Enabled)
    case Enabled => if a.active >= MAX_CONCURRENT then To(a, i, Done(TooMany)) else To(a, i, Admitted)
    case Admitted => To(a, i, Executing).(active := a.active + 1)
    case Executing => To(a, i, if threw then Faulting else Returned).(active := a.active - 1)
    case Faulting => To(a, i, Done(Threw)).(faults := a.faults + 1)
    case Returned =>
      if id != "" && id in a.cancelled then To(a, i, Done(Cancelled)).(cancelled := a.cancelled - {id})
      else To(a, i, Uncancelled)
    case Uncancelled =>
      if slow then To(a, i, Done(TimedOut)).(faults := a.faults + 1)
      else To(a, i, Done(Answered)).(faults := 0)
  }

  function Next(a: Adapter, s: Step): Adapter
    requires CanStep(a, s)
  {
    match s
    case Begin(id) => a.(calls := a.calls + [Call(id, Fresh)])
    case Advance(i, threw, slow) => Advanced(a, i, threw, slow)
    case Cancel(id) => a.(cancelled := a.cancelled + {id})
    case Shutdown => a.(shutdown := true)
  }

  ghost predicate IsRun(a: Adapter, steps: seq<Step>)
    decreases |steps|
  {
    steps == [] || (CanStep(a, steps[0]) && IsRun(Next(a, steps[0]), steps[1..]))
  }

  ghost function After(a: Adapter, steps: seq<Step>): Adapter
    requires IsRun(a, steps)
    decreases |steps|
  {
    if steps == [] then a else After(Next(a, steps[0]), steps[1..])
  }

  // ---------------------------------------------------------------------------------------------
  // The counter of outstanding calls

  function CountExecuting(calls: seq<Call>): nat {
    if calls == [] then 0 else (if calls[0].phase == Executing then 1 else 0) + CountExecuting(calls[1..])
  }

  lemma {:induction false} CountUpdate(calls: seq<Call>, i: nat, c: Call)
    requires i < |calls|
    ensures CountExecuting(calls[i := c])
         == CountExecuting(calls) - (if calls[i].phase == Executing then 1 else 0)
            + (if c.phase == Executing then 1 else 0)
  {
    if i == 0 {
      assert calls[i := c][1..] == calls[1..];
    } else {
      assert calls[i := c][1..] == calls[1..][i - 1 := c];
      CountUpdate(calls[1..], i - 1, c);
    }
  }

  lemma {:induction false} CountSnoc(calls: seq<Call>, c: Call)
    ensures CountExecuting(calls + [c]) == CountExecuting(calls) + (if c.phase == Executing then 1 else 0)
  {
    if calls == [] {
      assert [] + [c] == [c];
    } else {
      assert (calls + [c])[1..] == calls[1..] + [c];
      CountSnoc(calls[1..], c);
    }
  }

  lemma ActiveStep(a: Adapter, s: Step)
    requires CanStep(a, s) && a.active == CountExecuting(a.calls)
    ensures Next(a, s).active == CountExecuting(Next(a, s).calls)
  {
    hide CountExecuting;
    match s {
      case Begin(id) => CountSnoc(a.calls, Call(id, Fresh));
      case Advance(i, _, _) => CountUpdate(a.calls, i, Next(a, s).calls[i]);
      case _ =>
    }
  }

  /** In every interleaving the counter is the number of calls inside the plugin, however they
      leave it. */
  lemma {:induction false} ActiveCountsExecuting(a: Adapter, steps: seq<Step>)
    requires IsRun(a, steps) && a.active == CountExecuting(a.calls)
    ensures After(a, steps).active == CountExecuting(After(a, steps).calls)
    decreases |steps|
  {
    hide CountExecuting;
    if steps != [] {
      ActiveStep(a, steps[0]);
      ActiveCountsExecuting(Next(a, steps[0]), steps[1..]);
    }
  }

  // ---------------------------------------------------------------------------------------------
  // The breaker

  /** The call cannot clear the fault count any more, or has not passed the fault check yet. */
  predicate Settled(p: Phase) { p.Fresh? || p.Up? || p.Faulting? || p.Done? }

  ghost predicate AllSettled(a: Adapter) {
    forall k :: 0 <= k < |a.calls| ==> Settled(a.calls[k].phase)
  }

  /** Tripped with no call in flight, the breaker stays tripped: over any run the count never falls,
      no call enters the plugin, and every call that was still before the check is turned away. */
  lemma {:induction false} TrippedForGood(a: Adapter, steps: seq<Step>)
    requires IsRun(a, steps) && a.faults >= 3 && AllSettled(a)
    ensures
      var b := After(a, steps);
      && b.faults >= a.faults && AllSettled(b) && b.active == a.active && |a.calls| <= |b.calls|
      && forall k :: 0 <= k < |b.calls| && (k < |a.calls| ==> a.calls[k].phase.Fresh? || a.calls[k].phase.Up?) ==>
           b.calls[k].phase in {Fresh, Up, Done(ShuttingDown), Done(Disabled)}
    decreases |steps|
  {
    if steps != [] {
      var b := Next(a, steps[0]);
      assert AllSettled(b);
      TrippedForGood(b, steps[1..]);
      TurnedAwayStays(b, steps[1..]);
    }
  }

  lemma {:induction false} TurnedAwayStays(a: Adapter, steps: seq<Step>)
    requires IsRun(a, steps)
    ensures |a.calls| <= |After(a, steps).calls|
    ensures forall k :: 0 <= k < |a.calls| && a.calls[k].phase.Done? ==> After(a, steps).calls[k] == a.calls[k]
    decreases |steps|
  {
    if steps != [] {
      TurnedAwayStays(Next(a, steps[0]), steps[1..]);
    }
  }

  function Rank(p: Phase): nat {
    match p
    case Fresh => 7
    case Up => 6
    case Enabled => 5
    case Admitted => 4
    case Executing => 3
    case Returned => 2
    case Faulting => 1
    case Uncancelled => 1
    case Done(_) => 0
  }

  /** As many steps as one call still takes when its plugin returns in time. */
  function Finishing(n: nat, i: nat): (steps: seq<Step>)
    ensures |steps| == n
  {
    if n == 0 then [] else [Advance(i, false, false)] + Finishing(n - 1, i)
  }

  /** A call in flight can re-arm a tripped breaker: unless it is marked cancelled (or finds eight
      calls outstanding), its normal return clears the count. */
  lemma InFlightRearms(a: Adapter, i: nat)
    requires i < |a.calls| && !Settled(a.calls[i].phase)
    requires a.calls[i].phase.Uncancelled? || a.calls[i].id == "" || a.calls[i].id !in a.cancelled
    requires a.calls[i].phase.Enabled? ==> a.active < 8
    ensures
      var steps := Finishing(Rank(a.calls[i].phase), i);
      IsRun(a, steps) && After(a, steps).faults == 0
    decreases Rank(a.calls[i].phase)
  {
    var b := Next(a, Advance(i, false, false));
    var n := Rank(a.calls[i].phase);
    assert Finishing(n, i)[1..] == Finishing(n - 1, i);
    if !a.calls[i].phase.Uncancelled? {
      InFlightRearms(b, i);
    }
  }

  // ---------------------------------------------------------------------------------------------
  // One call at a time

  /** Faults since the last answered call; refused and cancelled calls do not count. */
  function Streak(history: seq<Outcome>): nat {
    if history == [] then 0
    else
      var last, before := history[|history| - 1], history[..|history| - 1];
      match last
      case Answered => 0
      case Threw => Streak(before) + 1
      case TimedOut => Streak(before) + 1
      case _ => Streak(before)
  }

  /** The plugin was called. */
  predicate Invoked(o: Outcome) { o.Threw? || o.Cancelled? || o.TimedOut? || o.Answered? }

  /** How a call ends that has the adapter to itself. */
  function Alone(shutdown: bool, faults: nat, cancelled: set<string>, id: string, threw: bool, slow: bool): Outcome {
    if shutdown then ShuttingDown
    else if faults >= MAX_FAULTS then Disabled
    else if threw then Threw
    else if id != "" && id in cancelled then Cancelled
    else if slow then TimedOut
    else Answered
  }

  /** Where a call that has the adapter to itself stands, in terms of what it found. */
  ghost predicate OnItsWay(a: Adapter, was: Adapter, i: nat, id: string, threw: bool, slow: bool)
    requires i < |a.calls|
  {
    var p := a.calls[i].phase;
    var end := Alone(was.shutdown, was.faults, was.cancelled, id, threw, slow);
    && a.calls[i].id == id && a.shutdown == was.shutdown
    && a.active == (if p.Executing? then 1 else 0)
    && (p.Done? ==> p.outcome == end)
    && (!p.Fresh? && !p.Done? ==> !was.shutdown)
    && (!p.Fresh? && !p.Up? && !p.Done? ==> was.faults < MAX_FAULTS)
    && (p.Faulting? ==> threw) && (p.Returned? || p.Uncancelled? ==> !threw)
    && (p.Uncancelled? ==> id == "" || id !in was.cancelled)
    && a.faults == (if !p.Done? then was.faults else if end.Answered? then 0
                    else if end.Threw? || end.TimedOut? then was.faults + 1 else was.faults)
    && a.cancelled == (if p.Done? && end.Cancelled? then was.cancelled - {id} else was.cancelled)
  }

  class Plugin {
    var faults: nat
    var active: int
    var shutdown: bool
    var cancelled: set<string>
    /** The calls made so far and how far each has come. */
    var calls: seq<Call>
    /** How the calls made through Execute ended. */
    ghost var history: seq<Outcome>

    constructor ()
      ensures View() == INITIAL && history == []
    {
      faults, active, shutdown, cancelled := 0, 0, false, {};
      calls, history := [], [];
    }

    ghost function View(): Adapter
      reads this
    {
      Adapter(faults, active, shutdown, cancelled, calls)
    }

    method CancelRequest(id: string)
      modifies this
      ensures View() == Next(old(View()), Cancel(id)) && history == old(history)
    {
      cancelled := cancelled + {id};
    }

    method Stop()
      modifies this
      ensures View() == Next(old(View()), Step.Shutdown) && history == old(history)
    {
      shutdown := true;
    }

    /** The next atomic access of a call. */
    method Access(i: nat, threw: bool, slow: bool)
      requires i < |calls| && !calls[i].phase.Done?
      modifies this
      ensures View() == Advanced(old(View()), i, threw, slow) && history == old(history)
    {
      var id, next := calls[i].id, calls[i].phase;
      match calls[i].phase {
        case Fresh => next := if shutdown then Done(ShuttingDown) else Up;
        case Up => next := if faults >= MAX_FAULTS then Done(Disabled) else Enabled;
        case Enabled => next := if active >= MAX_CONCURRENT then Done(TooMany) else Admitted;
        case Admitted =>
          active := active + 1;
          next := Executing;
        case Executing =>
          active := active - 1;
          next := if threw then Faulting else Returned;
        case Faulting =>
          faults := faults + 1;
          next := Done(Threw);
        case Returned =>
          if id != "" && id in cancelled {
            cancelled := cancelled - {id};
            next := Done(Cancelled);
          } else {
            next := Uncancelled;
          }
        case Uncancelled =>
          if slow {
            faults := faults + 1;
            next := Done(TimedOut);
          } else {
            faults := 0;
            next := Done(Answered);
          }
      }
      calls := calls[i := Call(id, next)];
    }

    /** Sequential use: nobody is inside, and the count is the streak. */
    ghost predicate Idle()
      reads this
    {
      active == 0 && faults == Streak(history)
    }

    /** One whole call while no other is in flight. It is a run of the step machine; the plugin is
        called exactly when no shutdown was requested and the streak of faults is below three; only
        faults and answers move the count. */
    method Execute(id: string, threw: bool, slow: bool) returns (outcome: Outcome, ghost steps: seq<Step>)
      requires Idle()
      modifies this
      ensures Idle() && history == old(history) + [outcome]
      ensures outcome == Alone(old(shutdown), Streak(old(history)), old(cancelled), id, threw, slow)
      ensures Invoked(outcome) <==> !old(shutdown) && Streak(old(history)) < 3
      ensures IsRun(old(View()), steps) && View() == After(old(View()), steps)
      ensures cancelled == if outcome.Cancelled? then old(cancelled) - {id} else old(cancelled)
    {
      hide Advanced, OnItsWay, Alone, Streak, CanStep;
      ghost var start := View();
      var i := |calls|;
      StartsOnItsWay(start, id, threw, slow);
      Extend(start, [], Begin(id));
      calls := calls + [Call(id, Fresh)];
      steps := [Begin(id)];
      assert [] + steps == steps;
      while !calls[i].phase.Done?
        invariant |calls| == i + 1 && history == old(history)
        invariant OnItsWay(View(), start, i, id, threw, slow)
        invariant IsRun(start, steps) && View() == After(start, steps)
        decreases Rank(calls[i].phase)
      {
        KeepsOnItsWay(View(), start, i, id, threw, slow);
        Extend(start, steps, Advance(i, threw, slow));
        Access(i, threw, slow);
        steps := steps + [Advance(i, threw, slow)];
      }
      outcome := calls[i].phase.outcome;
      EndsItsWay(View(), start, history, i, id, threw, slow);
      history := history + [outcome];
    }
  }

  lemma StartsOnItsWay(a: Adapter, id: string, threw: bool, slow: bool)
    requires a.active == 0
    ensures CanStep(a, Begin(id)) && OnItsWay(Next(a, Begin(id)), a, |a.calls|, id, threw, slow)
  {
  }

  lemma EndsItsWay(a: Adapter, was: Adapter, history: seq<Outcome>, i: nat, id: string, threw: bool, slow: bool)
    requires i < |a.calls| && a.calls[i].phase.Done? && OnItsWay(a, was, i, id, threw, slow)
    requires was.faults == Streak(history)
    ensures
      var o := a.calls[i].phase.outcome;
      && o == Alone(was.shutdown, Streak(history), was.cancelled, id, threw, slow)
      && (Invoked(o) <==> !was.shutdown && Streak(history) < MAX_FAULTS)
      && a.active == 0 && a.faults == Streak(history + [o])
      && a.cancelled == if o.Cancelled? then was.cancelled - {id} else was.cancelled
  {
    var o := a.calls[i].phase.outcome;
    assert (history + [o])[..|history|] == history;
  }

  lemma KeepsOnItsWay(a: Adapter, was: Adapter, i: nat, id: string, threw: bool, slow: bool)
    requires i < |a.calls| && !a.calls[i].phase.Done? && OnItsWay(a, was, i, id, threw, slow)
    ensures
      var b := Advanced(a, i, threw, slow);
      && CanStep(a, Advance(i, threw, slow)) && |b.calls| == |a.calls|
      && OnItsWay(b, was, i, id, threw, slow) && Rank(b.calls[i].phase) < Rank(a.calls[i].phase)
  {
  }

  // ---------------------------------------------------------------------------------------------
  // One call after another

  predicate AllDone(calls: seq<Call>) { forall k :: 0 <= k < |calls| ==> calls[k].phase.Done? }

  /** No call begins before the one before has ended; marks and a shutdown may come at any time. */
  ghost predicate OneAtATime(a: Adapter, steps: seq<Step>)
    requires IsRun(a, steps)
    decreases |steps|
  {
    steps == [] || ((steps[0].Begin? ==> AllDone(a.calls)) && OneAtATime(Next(a, steps[0]), steps[1..]))
  }

  /** How the calls that have ended did end, in order. */
  function History(calls: seq<Call>): seq<Outcome> {
    if calls == [] then []
    else
      var last := calls[|calls| - 1].phase;
      History(calls[..|calls| - 1]) + if last.Done? then [last.outcome] else []
  }

  /** The call got past the fault check. */
  predicate PastCheck(p: Phase) { !p.Fresh? && !p.Up? && (p.Done? ==> Invoked(p.outcome) || p.outcome.TooMany?) }

  /** Where a call stands and how it ends, from the faults that came before it. */
  ghost predicate Answers(p: Phase, streak: nat) {
    && (PastCheck(p) ==> streak < 3)
    && (p == Done(Disabled) ==> streak >= 3)
    && p != Done(TooMany)
  }

  ghost predicate InTurn(a: Adapter) {
    && (forall k :: 0 <= k < |a.calls| - 1 ==> a.calls[k].phase.Done?)
    && a.faults == Streak(History(a.calls))
    && a.active == (if a.calls != [] && a.calls[|a.calls| - 1].phase.Executing? then 1 else 0)
    && (forall k :: 0 <= k < |a.calls| ==> Answers(a.calls[k].phase, Streak(History(a.calls[..k]))))
  }

  lemma HistorySnoc(calls: seq<Call>, c: Call)
    ensures History(calls + [c]) == History(calls) + if c.phase.Done? then [c.phase.outcome] else []
  {
    assert (calls + [c])[..|calls|] == calls;
  }

  lemma StreakSnoc(history: seq<Outcome>, o: Outcome)
    ensures Streak(history + [o]) ==
      if o.Answered? then 0 else if o.Threw? || o.TimedOut? then Streak(history) + 1 else Streak(history)
  {
    assert (history + [o])[..|history|] == history;
  }

  /** The last call makes its next access, to phase `p`. */
  lemma LastMoves(calls: seq<Call>, p: Phase)
    requires calls != [] && !calls[|calls| - 1].phase.Done?
    ensures
      var n := |calls| - 1;
      var moved := calls[n := calls[n].(phase := p)];
      && History(calls) == History(calls[..n])
      && History(moved) == History(calls[..n]) + (if p.Done? then [p.outcome] else [])
      && forall k :: 0 <= k <= n ==> moved[..k] == calls[..k]
  {
    var n := |calls| - 1;
    var moved := calls[n := calls[n].(phase := p)];
    assert moved[..n] == calls[..n];
    assert History(calls[..n]) + [] == History(calls[..n]);
  }

  lemma InTurnAdvance(a: Adapter, i: nat, threw: bool, slow: bool)
    requires InTurn(a) && CanStep(a, Advance(i, threw, slow))
    ensures InTurn(Next(a, Advance(i, threw, slow)))
  {
    hide History, Streak;
    var b, n := Next(a, Advance(i, threw, slow)), |a.calls| - 1;
    assert i == n;
    var p := b.calls[n].phase;
    LastMoves(a.calls, p);
    var before := History(a.calls[..n]);
    assert Answers(a.calls[n].phase, Streak(before));
    if p.Done? {
      StreakSnoc(before, p.outcome);
    } else {
      assert before + [] == before;
    }
    assert b.calls == a.calls[n := a.calls[n].(phase := p)];
    forall k | 0 <= k < |b.calls| ensures Answers(b.calls[k].phase, Streak(History(b.calls[..k]))) {
      assert b.calls[..k] == a.calls[..k];
      assert Answers(a.calls[k].phase, Streak(History(a.calls[..k])));
    }
  }

  lemma InTurnStep(a: Adapter, s: Step)
    requires InTurn(a) && CanStep(a, s) && (s.Begin? ==> AllDone(a.calls))
    ensures InTurn(Next(a, s))
  {
    hide History, Streak;
    match s
    case Begin(id) =>
      var b := Next(a, s);
      HistorySnoc(a.calls, Call(id, Fresh));
      assert History(a.calls) + [] == History(a.calls);
      forall k | 0 <= k < |b.calls| ensures Answers(b.calls[k].phase, Streak(History(b.calls[..k]))) {
        if k < |a.calls| {
          assert b.calls[..k] == a.calls[..k];
          assert Answers(a.calls[k].phase, Streak(History(a.calls[..k])));
        }
      }
    case Advance(i, threw, slow) => InTurnAdvance(a, i, threw, slow);
    case _ =>
  }

  lemma {:induction false} InTurnRun(a: Adapter, steps: seq<Step>)
    requires InTurn(a) && IsRun(a, steps) && OneAtATime(a, steps)
    ensures InTurn(After(a, steps))
    decreases |steps|
  {
    hide InTurn, Next, CanStep;
    if steps != [] {
      InTurnStep(a, steps[0]);
      InTurnRun(Next(a, steps[0]), steps[1..]);
    }
  }

  /** In every run of calls one after another, the plugin is called exactly when there was no
      shutdown and fewer than three faults since the last answer; after three it is not called
      again, and cancelled or refused calls in between leave the count alone. */
  lemma ThreeFaultsDisable(steps: seq<Step>)
    requires IsRun(INITIAL, steps) && OneAtATime(INITIAL, steps)
    ensures
      var a := After(INITIAL, steps);
      && a.faults == Streak(History(a.calls))
      && forall k :: 0 <= k < |a.calls| ==>
           var p, streak := a.calls[k].phase, Streak(History(a.calls[..k]));
           && (PastCheck(p) ==> streak < 3)
           && (p.Done? && !p.outcome.ShuttingDown? ==> (Invoked(p.outcome) <==> streak < 3))
           && (p.Done? && streak >= 3 ==> p.outcome.ShuttingDown? || p.outcome.Disabled?)
  {
    InTurnRun(INITIAL, steps);
    var a := After(INITIAL, steps);
    forall k | 0 <= k < |a.calls| ensures Answers(a.calls[k].phase, Streak(History(a.calls[..k]))) {
    }
  }

  // ---------------------------------------------------------------------------------------------
  // Cancellation marks

  /** A cancellation mark outlives the call it was meant for. In any run it stays until a call with
      that id is reported cancelled for it, be it a later call that nobody cancelled. */
  lemma {:induction false} MarkStays(a: Adapter, steps: seq<Step>, id: string)
    requires IsRun(a, steps) && id in a.cancelled
    ensures
      || id in After(a, steps).cancelled
      || exists k :: 0 <= k < |After(a, steps).calls| && After(a, steps).calls[k] == Call(id, Done(Cancelled))
                     && (k < |a.calls| ==> !a.calls[k].phase.Done?)
    decreases |steps|
  {
    if steps != [] {
      var s, b := steps[0], Next(a, steps[0]);
      TurnedAwayStays(b, steps[1..]);
      if id in b.cancelled {
        MarkStays(b, steps[1..], id);
      } else {
        assert b.calls[s.call] == Call(id, Done(Cancelled));
      }
    }
  }

  /** The transport over lines passes no id where the adapter looks for one, so its calls all have the
      empty id.  Then no call of any run is reported cancelled, and no mark is ever taken away. */
  lemma {:induction false} EmptyIdsNeverCancelled(a: Adapter, steps: seq<Step>)
    requires IsRun(a, steps) && forall k :: 0 <= k < |steps| && steps[k].Begin? ==> steps[k].id == ""
    requires forall k :: 0 <= k < |a.calls| ==> a.calls[k].id == "" && a.calls[k].phase != Done(Cancelled)
    ensures
      var b := After(a, steps);
      && a.cancelled <= b.cancelled
      && forall k :: 0 <= k < |b.calls| ==> b.calls[k].id == "" && b.calls[k].phase != Done(Cancelled)
    decreases |steps|
  {
    if steps != [] {
      assert forall k :: 0 <= k < |steps[1..]| ==> steps[1..][k] == steps[k + 1];
      EmptyIdsNeverCancelled(Next(a, steps[0]), steps[1..]);
    }
  }

  /** The HTTP path may pass an id, but never cancels.  Then, too, no call of any run is reported
      cancelled, whatever ids the calls have. */
  lemma {:induction false} NoCancelNoneCancelled(a: Adapter, steps: seq<Step>)
    requires IsRun(a, steps) && a.cancelled == {} && forall k :: 0 <= k < |steps| ==> !steps[k].Cancel?
    requires forall k :: 0 <= k < |a.calls| ==> a.calls[k].phase != Done(Cancelled)
    ensures
      var b := After(a, steps);
      b.cancelled == {} && forall k :: 0 <= k < |b.calls| ==> b.calls[k].phase != Done(Cancelled)
    decreases |steps|
  {
    if steps != [] {
      assert forall k :: 0 <= k < |steps[1..]| ==> steps[1..][k] == steps[k + 1];
      assert !steps[0].Cancel?;
      NoCancelNoneCancelled(Next(a, steps[0]), steps[1..]);
    }
  }

  /** A marked call that passes the checks and whose plugin returns is reported cancelled. */
  lemma {:induction false} MarkedCallCancelled(a: Adapter, i: nat)
    requires i < |a.calls| && a.calls[i].id != "" && a.calls[i].id in a.cancelled
    requires !Settled(a.calls[i].phase) || a.calls[i].phase.Fresh? || a.calls[i].phase.Up?
    requires !a.calls[i].phase.Uncancelled? && !a.shutdown && a.faults < 3 && a.active < 8
    ensures
      var steps := Finishing(Rank(a.calls[i].phase) - 1, i);
      && IsRun(a, steps) && |After(a, steps).calls| == |a.calls|
      && After(a, steps).calls[i].phase == Done(Cancelled)
      && After(a, steps).cancelled == a.cancelled - {a.calls[i].id}
    decreases Rank(a.calls[i].phase)
  {
    var b := Next(a, Advance(i, false, false));
    var n := Rank(a.calls[i].phase) - 1;
    assert Finishing(n, i)[1..] == Finishing(n - 1, i);
    if !a.calls[i].phase.Returned? {
      if a.calls[i].phase.Admitted? {
        var c := Next(b, Advance(i, false, false));
        assert Finishing(n - 1, i)[1..] == Finishing(n - 2, i);
        MarkedCallCancelled(c, i);
      } else {
        MarkedCallCancelled(b, i);
      }
    }
  }

  /** So for a caller that both passes ids and cancels: cancelled after it was answered, a call leaves a mark that
      cancels the next call with its id, which nobody cancelled. */
  lemma MarkHitsNextCall(id: string)
    requires id != ""
    ensures
      var first := [Begin(id)] + Finishing(7, 0);
      var second := [Cancel(id), Begin(id)] + Finishing(6, 1);
      && IsRun(INITIAL, first) && After(INITIAL, first).calls == [Call(id, Done(Answered))]
      && IsRun(After(INITIAL, first), second)
      && After(After(INITIAL, first), second).calls == [Call(id, Done(Answered)), Call(id, Done(Cancelled))]
  {
    var a := Next(INITIAL, Begin(id));
    var first := [Begin(id)] + Finishing(7, 0);
    assert first[1..] == Finishing(7, 0);
    AnsweredAlone(a);
    var b := After(INITIAL, first);
    var second := [Cancel(id), Begin(id)] + Finishing(6, 1);
    var c := Next(Next(b, Cancel(id)), Begin(id));
    assert second[1..][1..] == Finishing(6, 1);
    MarkedCallCancelled(c, 1);
    TurnedAwayStays(c, Finishing(6, 1));
    SameIds(c, Finishing(6, 1), 1);
  }

  /** A call that is alone with a new adapter is answered and leaves the adapter as it was. */
  lemma AnsweredAlone(a: Adapter)
    requires |a.calls| == 1 && a.calls[0].phase == Fresh && a == INITIAL.(calls := a.calls)
    ensures IsRun(a, Finishing(7, 0))
    ensures After(a, Finishing(7, 0)) == INITIAL.(calls := [Call(a.calls[0].id, Done(Answered))])
  {
    AloneFinishes(a, a.calls[0].id);
  }

  lemma {:induction false} AloneFinishes(a: Adapter, id: string)
    requires |a.calls| == 1 && a.calls[0].id == id && !a.calls[0].phase.Faulting?
    requires a.calls[0].phase.Done? ==> a.calls[0].phase.outcome == Answered
    requires a == INITIAL.(active := if a.calls[0].phase.Executing? then 1 else 0, calls := a.calls)
    ensures IsRun(a, Finishing(Rank(a.calls[0].phase), 0))
    ensures After(a, Finishing(Rank(a.calls[0].phase), 0)) == INITIAL.(calls := [Call(id, Done(Answered))])
    decreases Rank(a.calls[0].phase)
  {
    var n := Rank(a.calls[0].phase);
    if n == 0 {
      assert a.calls == [a.calls[0]];
    } else {
      var b := Next(a, Advance(0, false, false));
      FinishingStep(n, 0);
      AloneFinishes(b, id);
    }
  }

  lemma FinishingStep(n: nat, i: nat)
    requires n > 0
    ensures Finishing(n, i)[0] == Advance(i, false, false) && Finishing(n, i)[1..] == Finishing(n - 1, i)
  {
  }

  lemma {:induction false} SameIds(a: Adapter, steps: seq<Step>, k: nat)
    requires IsRun(a, steps) && k < |a.calls|
    ensures |a.calls| <= |After(a, steps).calls| && After(a, steps).calls[k].id == a.calls[k].id
    decreases |steps|
  {
    if steps != [] {
      SameIds(Next(a, steps[0]), steps[1..], k);
    }
  }

  lemma Extend(a: Adapter, steps: seq<Step>, s: Step)
    requires IsRun(a, steps) && CanStep(After(a, steps), s)
    ensures IsRun(a, steps + [s]) && After(a, steps + [s]) == Next(After(a, steps), s)
    decreases |steps|
  {
    if steps != [] {
      assert (steps + [s])[1..] == steps[1..] + [s];
      Extend(Next(a, steps[0]), steps[1..], s);
    } else {
      assert ([] + [s])[1..] == [];
    }
  }

  // ---------------------------------------------------------------------------------------------
  // What decides each access

  lemma {:induction false} ShutdownStays(a: Adapter, steps: seq<Step>)
    requires IsRun(a, steps)
    ensures After(a, steps).shutdown <==> a.shutdown || Step.Shutdown in steps
    decreases |steps|
  {
    if steps != [] {
      ShutdownStays(Next(a, steps[0]), steps[1..]);
      assert steps == [steps[0]] + steps[1..];
    }
  }

  /** How a call ends, in any run: turned away after a shutdown, at three faults, or when eight calls are
      inside; a fault when the plugin threw or took too long; cancelled for a mark; answered otherwise. */
  lemma AccessDecides(steps: seq<Step>, i: nat, threw: bool, slow: bool)
    requires IsRun(INITIAL, steps) && CanStep(After(INITIAL, steps), Advance(i, threw, slow))
    ensures
      var a := After(INITIAL, steps);
      var b := Next(a, Advance(i, threw, slow));
      var id, p, q := a.calls[i].id, a.calls[i].phase, b.calls[i].phase;
      var marked := id != "" && id in a.cancelled;
      && (q == Done(ShuttingDown) <==> p == Fresh && Step.Shutdown in steps)
      && (q == Done(Disabled) <==> p == Up && a.faults >= 3)
      && (q == Done(TooMany) <==> p == Enabled && CountExecuting(a.calls) >= 8)
      && (q == Faulting <==> p == Executing && threw)
      && (q == Done(Threw) <==> p == Faulting)
      && (q == Done(Cancelled) <==> p == Returned && marked)
      && (q == Done(TimedOut) <==> p == Uncancelled && slow)
      && (q == Done(Answered) <==> p == Uncancelled && !slow)
      && (q == Executing <==> p == Admitted)
      && b.faults == (if q == Done(Threw) || q == Done(TimedOut) then a.faults + 1
                      else if q == Done(Answered) then 0 else a.faults)
      && b.cancelled == (if q == Done(Cancelled) then a.cancelled - {id} else a.cancelled)
      && b.calls == a.calls[i := Call(id, q)] && b.shutdown == a.shutdown
  {
    hide CountExecuting, Next, CanStep, Advanced;
    NobodyInside();
    ActiveCountsExecuting(INITIAL, steps);
    ShutdownStays(INITIAL, steps);
    AdvanceDecides(After(INITIAL, steps), i, threw, slow);
    AdvanceChanges(After(INITIAL, steps), i, threw, slow);
  }

  lemma NobodyInside()
    ensures INITIAL.active == CountExecuting(INITIAL.calls)
  {
  }

  lemma AdvanceDecides(a: Adapter, i: nat, threw: bool, slow: bool)
    requires CanStep(a, Advance(i, threw, slow))
    ensures i < |a.calls| && i < |Next(a, Advance(i, threw, slow)).calls|
    ensures
      var b := Next(a, Advance(i, threw, slow));
      var id, p, q := a.calls[i].id, a.calls[i].phase, b.calls[i].phase;
      && (q == Done(ShuttingDown) <==> p == Fresh && a.shutdown)
      && (q == Done(Disabled) <==> p == Up && a.faults >= 3)
      && (q == Done(TooMany) <==> p == Enabled && a.active >= 8)
      && (q == Faulting <==> p == Executing && threw)
      && (q == Done(Threw) <==> p == Faulting)
      && (q == Done(Cancelled) <==> p == Returned && id != "" && id in a.cancelled)
      && (q == Done(TimedOut) <==> p == Uncancelled && slow)
      && (q == Done(Answered) <==> p == Uncancelled && !slow)
      && (q == Executing <==> p == Admitted)
  {
  }

  lemma AdvanceChanges(a: Adapter, i: nat, threw: bool, slow: bool)
    requires CanStep(a, Advance(i, threw, slow))
    ensures i < |a.calls| && i < |Next(a, Advance(i, threw, slow)).calls|
    ensures
      var b := Next(a, Advance(i, threw, slow));
      var id, q := a.calls[i].id, b.calls[i].phase;
      && b.faults == (if q == Done(Threw) || q == Done(TimedOut) then a.faults + 1
                      else if q == Done(Answered) then 0 else a.faults)
      && b.cancelled == (if q == Done(Cancelled) then a.cancelled - {id} else a.cancelled)
      && b.calls == a.calls[i := Call(id, q)] && b.shutdown == a.shutdown
  {
  }

  /** An id is marked exactly when a cancellation for it came and no call was reported cancelled since;
      so a cancellation is never lost before it is used. */
  lemma {:induction false} MarksExact(a: Adapter, steps: seq<Step>, id: string)
    requires IsRun(a, steps)
    ensures id in After(a, steps).cancelled <==> Marked(a, steps, id, id in a.cancelled)
    decreases |steps|
  {
    if steps != [] {
      MarksExact(Next(a, steps[0]), steps[1..], id);
    }
  }

  ghost predicate Marked(a: Adapter, steps: seq<Step>, id: string, was: bool)
    requires IsRun(a, steps)
    decreases |steps|
  {
    if steps == [] then was
    else
      var s, b := steps[0], Next(a, steps[0]);
      Marked(b, steps[1..], id,
        (was || s == Cancel(id))
        && !(s.Advance? && a.calls[s.call].phase == Returned && b.calls[s.call] == Call(id, Done(Cancelled))))
  }
}
