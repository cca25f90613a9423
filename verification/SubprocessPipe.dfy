/** Reading a child's output line by line.

    The child writes some text, fixed but unknown, in pieces of any size at any time; `unread` is
    the part that has not been read yet.  A call polls the child until its time runs out: what each
    poll finds, how many bytes and whether the child is alive, is an input. */
module SubprocessPipe {
  import opened Lines

  const LF := '\n'
  const CR := '\r'
  const CHUNK := 4096

  function TextLines(s: string): seq<string> { Split(s, LF, CR) }

  /** What one poll of the child finds: bytes to be read, and whether it is alive. */
  datatype Poll = Poll(bytes: nat, alive: bool)

  function Least(a: nat, b: nat): nat { if a < b then a else b }

  /** How many bytes of `unread` the first `k` polls have read, at most a buffer's worth each. */
  function Got(unread: string, polls: seq<Poll>, k: nat): (n: nat)
    requires k <= |polls|
    ensures n <= |unread|
  {
    if k == 0 then 0
    else
      var g := Got(unread, polls, k - 1);
      g + Least(Least(polls[k - 1].bytes, 4096), |unread| - g)
  }

  /** Poll `k` reads nothing and finds the child dead. */
  predicate IsGone(unread: string, polls: seq<Poll>, k: nat)
    requires k < |polls|
  {
    Got(unread, polls, k + 1) == Got(unread, polls, k) && !polls[k].alive
  }

  /** Before some poll a line feed has been read, or some poll finds the child gone and there is text
      left. */
  ghost predicate Delivers(buffer: string, unread: string, polls: seq<Poll>) {
    exists k :: 0 <= k < |polls| && DeliversAt(buffer, unread, polls, k)
  }

  ghost predicate DeliversAt(buffer: string, unread: string, polls: seq<Poll>, k: nat)
    requires k < |polls|
  {
    LF in buffer + unread[..Got(unread, polls, k)] || (IsGone(unread, polls, k) && buffer + unread != [])
  }

  ghost predicate SeesGone(unread: string, polls: seq<Poll>) {
    exists k :: 0 <= k < |polls| && IsGone(unread, polls, k)
  }

  /** A poll that has nothing to read and finds the child dead, whatever there is to be read. */
  predicate SeesExit(polls: seq<Poll>) { Poll(0, false) in polls }

  lemma ExitSeen(unread: string, polls: seq<Poll>)
    requires SeesExit(polls)
    ensures SeesGone(unread, polls)
  {
    var k :| 0 <= k < |polls| && polls[k] == Poll(0, false);
    assert IsGone(unread, polls, k);
  }

  class Pipe {
    var readBuffer: string
    var unread: string
    /** The bytes behind the lines delivered so far. */
    ghost var taken: string

    constructor (output: string)
      ensures readBuffer == [] && unread == output && taken == []
    {
      readBuffer, unread, taken := [], output, [];
    }

    /** Everything not delivered yet. */
    ghost function Pending(): string
      reads this
    {
      readBuffer + unread
    }

    /** All the child ever writes, wherever it is now. */
    ghost function Stream(): string
      reads this
    {
      taken + readBuffer + unread
    }

    /** One read of at most `bytes` bytes, of what is there and of a buffer's worth. */
    method AppendStdout(bytes: nat) returns (n: nat)
      modifies this
      ensures taken == old(taken) && Pending() == old(Pending()) && Stream() == old(Stream())
      ensures n == Least(Least(bytes, 4096), |old(unread)|)
      ensures readBuffer == old(readBuffer) + old(unread)[..n] && unread == old(unread)[n..]
    {
      n := Least(Least(bytes, CHUNK), |unread|);
      if n > 0 {
        assert unread == unread[..n] + unread[n..];
        readBuffer := readBuffer + unread[..n];
        unread := unread[n..];
      }
    }

    /** Reads that block until there is something, to the end of what the child wrote. */
    method Drain()
      modifies this
      ensures taken == old(taken) && Pending() == old(Pending()) && Stream() == old(Stream())
      ensures unread == []
    {
      var m := 1;
      while m > 0
        invariant Stream() == old(Stream()) && Pending() == old(Pending()) && taken == old(taken)
        invariant m == 0 ==> unread == []
        decreases |unread|, m
      {
        var bytes :| bytes > 0;
        m := AppendStdout(bytes);
      }
    }

    method TakeLine() returns (ok: bool, line: string)
      modifies this
      ensures unread == old(unread) && Stream() == old(Stream()) && (ok <==> LF in old(readBuffer))
      ensures ok ==> TextLines(old(Pending())) == [line] + TextLines(Pending())
      ensures ok ==> |Pending()| < |old(Pending())| && Complete(old(taken), taken, line)
      ensures !ok ==> line == [] && readBuffer == old(readBuffer) && taken == old(taken)
    {
      hide Split, Complete;
      var pos := IndexOf(readBuffer, LF);
      if pos == |readBuffer| {
        return false, [];
      }
      assert LF in readBuffer;
      CutBuffer(readBuffer, unread, pos);
      CompleteLine(taken, readBuffer, pos);
      line := readBuffer[..pos];
      if line != [] && line[|line| - 1] == CR {
        line := line[..|line| - 1];
      }
      assert readBuffer == readBuffer[..pos + 1] + readBuffer[pos + 1..];
      taken := taken + readBuffer[..pos + 1];
      readBuffer := readBuffer[pos + 1..];
      ok := true;
    }

    method TakeRemainder() returns (ok: bool, line: string)
      requires unread == [] && LF !in readBuffer
      modifies this
      ensures unread == [] && readBuffer == [] && Stream() == old(Stream())
      ensures ok <==> old(Pending()) != []
      ensures ok ==> TextLines(old(Pending())) == [line]
      ensures !ok ==> line == [] && taken == old(taken)
    {
      if readBuffer == [] {
        return false, [];
      }
      line := readBuffer;
      SplitStep(readBuffer, |readBuffer|, LF, CR);
      assert readBuffer[..|readBuffer|] == readBuffer;
      assert readBuffer + unread == readBuffer;
      if line[|line| - 1] == CR {
        line := line[..|line| - 1];
      }
      taken := taken + readBuffer;
      readBuffer := [];
      ok := true;
    }

    /** One line, or nothing when time runs out first or the child is gone and nothing is left.

        A line comes exactly when one is complete before some poll, or some poll finds the child gone
        with text left.  It is the first line of what was pending, whatever the chunks were; nothing
        else is lost, and a call without a line loses nothing.  A line without its line feed is
        delivered only when the child has exited and nothing follows. */
    method ReadLine(polls: seq<Poll>) returns (ok: bool, line: string)
      modifies this
      ensures Stream() == old(Stream())
      ensures ok <==> Delivers(old(readBuffer), old(unread), polls)
      ensures ok ==> TextLines(old(Pending())) == [line] + TextLines(Pending()) && |Pending()| < |old(Pending())|
      ensures ok ==> Complete(old(taken), taken, line) || (SeesGone(old(unread), polls) && Pending() == [])
      ensures !ok ==> line == [] && Pending() == old(Pending()) && taken == old(taken)
    {
      hide Delivers, SeesGone, Split, Complete, Got, IsGone, DeliversAt, Least;
      ghost var buffer0, unread0 := readBuffer, unread;
      var k := 0;
      GotNothing(unread0, polls);
      assert unread0[0..] == unread0 && unread0[..0] == [];
      while k < |polls|
        invariant 0 <= k <= |polls| && Stream() == old(Stream()) && taken == old(taken)
        invariant readBuffer == buffer0 + unread0[..Got(unread0, polls, k)]
        invariant unread == unread0[Got(unread0, polls, k)..]
        invariant forall j :: 0 <= j < k ==> !DeliversAt(buffer0, unread0, polls, j)
      {
        PendingSame(buffer0, unread0, Got(unread0, polls, k));
        ok, line := TakeLine();
        DeliversStep(buffer0, unread0, polls, k);
        if ok {
          DeliveredAt(buffer0, unread0, polls, k);
          return;
        }
        ghost var g := Got(unread0, polls, k);
        var n := AppendStdout(polls[k].bytes);
        GotMore(unread0, polls, k, n);
        if n == 0 && !polls[k].alive {
          GoneAt(unread0, polls, k);
          ok, line := LastLine();
          if buffer0 + unread0 != [] {
            DeliveredAt(buffer0, unread0, polls, k);
          } else {
            NothingDelivered(buffer0, unread0, polls);
          }
          return;
        }
        k := k + 1;
      }
      PendingSame(buffer0, unread0, Got(unread0, polls, k));
      NotDelivered(buffer0, unread0, polls);
      return false, [];
    }

    /** The child is gone: what is left is drained, and its first line taken, complete or not. */
    method LastLine() returns (ok: bool, line: string)
      modifies this
      ensures Stream() == old(Stream()) && (ok <==> old(Pending()) != [])
      ensures ok ==> TextLines(old(Pending())) == [line] + TextLines(Pending()) && |Pending()| < |old(Pending())|
      ensures ok ==> Complete(old(taken), taken, line) || Pending() == []
      ensures !ok ==> line == [] && Pending() == old(Pending()) && taken == old(taken)
    {
      hide Split, Complete;
      Drain();
      ok, line := TakeLine();
      if ok {
        return;
      }
      assert Pending() == readBuffer;
      ghost var left := Pending();
      ok, line := TakeRemainder();
      SplitNothing(LF, CR);
      assert Pending() == [] && (ok ==> TextLines(left) == [line] + TextLines(Pending()));
    }

    /** Appends lines to `output` until a call gives none or the cap is passed; the `k`th call finds the
        polls `env(k)`. A child seen dead by every call is read to its end. */
    method AppendLines(output: string, cap: nat, env: nat -> seq<Poll>) returns (r: string, ghost lines: seq<string>)
      modifies this
      ensures Stream() == old(Stream())
      ensures r == output + Unlines(lines, LF)
      ensures TextLines(old(Pending())) == lines + TextLines(Pending())
      ensures forall j :: 0 < j < |lines| ==> |output + Unlines(lines[..j], LF)| <= cap
      ensures |r| <= cap ==> GaveNothing(Pending(), env(|lines|))
      ensures |r| <= cap && (forall k :: SeesExit(env(k))) ==> Pending() == [] && lines == TextLines(old(Pending()))
    {
      hide GaveNothing, Delivers, SeesGone, Split, Unlines, SeesExit;
      r, lines := output, [];
      NoLines();
      var k := 0;
      while true
        invariant Stream() == old(Stream()) && k == |lines|
        invariant r == output + Unlines(lines, LF)
        invariant TextLines(old(Pending())) == lines + TextLines(Pending())
        invariant forall j :: 0 < j <= |lines| ==> |output + Unlines(lines[..j], LF)| <= cap
        decreases |Pending()|
      {
        ghost var buffer0, unread0 := readBuffer, unread;
        var ok, line := ReadLine(env(k));
        if !ok {
          SplitNothing(LF, CR);
          NothingGiven(buffer0, unread0, env(k));
          if SeesExit(env(k)) {
            ExitSeen(unread0, env(k));
            GoneDelivers(buffer0, unread0, env(k));
          }
          break;
        }
        UnlinesSnoc(lines, line, LF);
        ghost var before := lines;
        r := r + line + [LF];
        lines := lines + [line];
        k := k + 1;
        assert lines[..|lines|] == lines;
        assert forall j :: 0 <= j <= |before| ==> lines[..j] == before[..j];
        if |r| > cap {
          break;
        }
      }
    }

    /** Rounds of AppendLines until the deadline, the cap or the child's end, and one more round for
        what is left. The output is lines of the child's text from the start, and all of them when
        every call of some round that is reached finds the child dead, the last round included. */
    method Collect(running: seq<bool>, cap: nat, env: (nat, nat) -> seq<Poll>)
      returns (r: string, ghost lines: seq<string>)
      modifies this
      ensures Stream() == old(Stream()) && r == Unlines(lines, LF)
      ensures TextLines(old(Pending())) == lines + TextLines(Pending())
      ensures |r| <= cap && (FindsDead(env, |running|) || ReachesDead(running, env, |running|)) ==>
        Pending() == [] && lines == TextLines(old(Pending()))
    {
      hide Split, Unlines, SeesExit, FindsDead, ReachesDead;
      r, lines := [], [];
      NoLines();
      NoneBefore(running, env);
      var round := 0;
      while round < |running|
        invariant 0 <= round <= |running|
        invariant Stream() == old(Stream()) && r == Unlines(lines, LF)
        invariant TextLines(old(Pending())) == lines + TextLines(Pending())
        invariant forall j :: 0 <= j < round ==> running[j]
        invariant |r| <= cap && ReachesDead(running, env, round) ==> Pending() == []
      {
        var n := round;
        r, lines := Round(r, lines, old(Pending()), cap, env, n);
        DeadRound(running, env, n);
        if |r| > cap || !running[round] {
          NoneReached(running, env, n);
          break;
        }
        round := round + 1;
      }
      r, lines := Round(r, lines, old(Pending()), cap, env, |running|);
      if Pending() == [] {
        SplitNothing(LF, CR);
        assert lines + [] == lines;
      }
    }

    /** One round, in which the `k`th call finds the polls `env(n, k)`. */
    method Round(output: string, ghost before: seq<string>, ghost text: string, cap: nat,
        env: (nat, nat) -> seq<Poll>, n: nat) returns (r: string, ghost lines: seq<string>)
      requires output == Unlines(before, LF) && TextLines(text) == before + TextLines(Pending())
      modifies this
      ensures Stream() == old(Stream()) && r == Unlines(lines, LF) && |output| <= |r|
      ensures TextLines(text) == lines + TextLines(Pending())
      ensures old(Pending()) == [] ==> Pending() == []
      ensures |r| <= cap && FindsDead(env, n) ==> Pending() == []
    {
      hide Split, Unlines, SeesExit;
      ghost var more;
      r, more := AppendLines(output, cap, (k: nat) => env(n, k));
      UnlinesConcat(before, more, LF);
      assert before + (more + TextLines(Pending())) == before + more + TextLines(Pending());
      lines := before + more;
      if old(Pending()) == [] {
        SplitNothing(LF, CR);
        NoLinesNoText(Pending());
      }
    }
  }

  /** Every call of round `n` finds the child dead. */
  ghost predicate FindsDead(env: (nat, nat) -> seq<Poll>, n: nat) { forall k: nat :: SeesExit(env(n, k)) }

  /** So does every call of one of the first `m` rounds that is reached. */
  ghost predicate ReachesDead(running: seq<bool>, env: (nat, nat) -> seq<Poll>, m: nat)
    requires m <= |running|
  {
    exists n :: 0 <= n < m && FindsDead(env, n) && forall j :: 0 <= j < n ==> running[j]
  }

  lemma NoneBefore(running: seq<bool>, env: (nat, nat) -> seq<Poll>)
    ensures !ReachesDead(running, env, 0)
  {
  }

  lemma DeadRound(running: seq<bool>, env: (nat, nat) -> seq<Poll>, m: nat)
    requires m < |running|
    ensures ReachesDead(running, env, m + 1) ==> ReachesDead(running, env, m) || FindsDead(env, m)
  {
    hide FindsDead;
  }

  lemma NoneReached(running: seq<bool>, env: (nat, nat) -> seq<Poll>, m: nat)
    requires m < |running|
    ensures !running[m] && ReachesDead(running, env, |running|) ==> ReachesDead(running, env, m + 1)
  {
    hide FindsDead;
  }

  lemma NoLinesNoText(s: string)
    requires TextLines(s) == []
    ensures s == []
  {
    if s != [] {
      SplitStep(s, IndexOf(s, LF), LF, CR);
    }
  }

  lemma PendingSame(buffer: string, unread: string, g: nat)
    requires g <= |unread|
    ensures buffer + unread[..g] + unread[g..] == buffer + unread
  {
    assert unread == unread[..g] + unread[g..];
  }

  lemma GotNothing(unread: string, polls: seq<Poll>)
    ensures Got(unread, polls, 0) == 0
  {
  }

  lemma GotMore(unread: string, polls: seq<Poll>, k: nat, n: nat)
    requires k < |polls| && n == Least(Least(polls[k].bytes, 4096), |unread[Got(unread, polls, k)..]|)
    ensures Got(unread, polls, k + 1) == Got(unread, polls, k) + n
    ensures
      var g := Got(unread, polls, k);
      g + n <= |unread| && unread[..g + n] == unread[..g] + unread[g..][..n] && unread[g + n..] == unread[g..][n..]
  {
    var g := Got(unread, polls, k);
    assert unread[..g + n] == unread[..g] + unread[g..][..n];
    assert unread[g + n..] == unread[g..][n..];
  }

  lemma DeliversStep(buffer: string, unread: string, polls: seq<Poll>, k: nat)
    requires k < |polls|
    ensures
      DeliversAt(buffer, unread, polls, k) <==>
        || LF in buffer + unread[..Got(unread, polls, k)]
        || (Got(unread, polls, k + 1) == Got(unread, polls, k) && !polls[k].alive && buffer + unread != [])
  {
    hide Got;
  }

  /** A poll that finds bytes reads them, up to a buffer's worth, until all is read. */
  lemma PollReads(unread: string, polls: seq<Poll>, k: nat)
    requires k < |polls|
    ensures
      var g, after := Got(unread, polls, k), Got(unread, polls, k + 1);
      && g <= after <= g + polls[k].bytes && after <= g + 4096
      && (after < |unread| ==> after == g + polls[k].bytes || after == g + 4096)
  {
    hide Got;
    GotMore(unread, polls, k, Least(Least(polls[k].bytes, 4096), |unread[Got(unread, polls, k)..]|));
  }

  /** Some way to split `pending` between the buffer and the child makes a call with these polls fail. */
  ghost predicate GaveNothing(pending: string, polls: seq<Poll>) {
    exists buffer: string, unread: string :: pending == buffer + unread && !Delivers(buffer, unread, polls)
  }

  lemma NothingGiven(buffer: string, unread: string, polls: seq<Poll>)
    requires !Delivers(buffer, unread, polls)
    ensures GaveNothing(buffer + unread, polls)
  {
  }

  lemma DeliveredAt(buffer: string, unread: string, polls: seq<Poll>, k: nat)
    requires k < |polls| && DeliversAt(buffer, unread, polls, k)
    ensures Delivers(buffer, unread, polls)
  {
  }

  lemma NotDelivered(buffer: string, unread: string, polls: seq<Poll>)
    requires forall j :: 0 <= j < |polls| ==> !DeliversAt(buffer, unread, polls, j)
    ensures !Delivers(buffer, unread, polls)
  {
  }

  lemma NothingDelivered(buffer: string, unread: string, polls: seq<Poll>)
    requires buffer + unread == []
    ensures !Delivers(buffer, unread, polls)
  {
    assert buffer == [] && unread == [];
  }

  lemma GoneAt(unread: string, polls: seq<Poll>, k: nat)
    requires k < |polls| && Got(unread, polls, k + 1) == Got(unread, polls, k) && !polls[k].alive
    ensures SeesGone(unread, polls)
  {
    assert IsGone(unread, polls, k);
  }

  lemma GoneDelivers(buffer: string, unread: string, polls: seq<Poll>)
    requires SeesGone(unread, polls)
    ensures buffer + unread != [] ==> Delivers(buffer, unread, polls)
  {
    if buffer + unread != [] {
      var k :| 0 <= k < |polls| && IsGone(unread, polls, k);
      assert DeliversAt(buffer, unread, polls, k);
    }
  }

  /** A line already in the buffer is delivered by any call that polls at all. */
  lemma BufferedLineComes(buffer: string, unread: string, polls: seq<Poll>)
    requires polls != [] && LF in buffer
    ensures Delivers(buffer, unread, polls)
  {
    assert DeliversAt(buffer, unread, polls, 0);
  }

  /** A call gives no line exactly when either there is nothing at all to give, or before every poll the
      bytes read hold no line feed and every poll reads bytes or finds the child alive. */
  lemma NoLineMeans(buffer: string, unread: string, polls: seq<Poll>)
    ensures
      !Delivers(buffer, unread, polls) <==>
        || buffer + unread == []
        || forall k :: 0 <= k < |polls| ==>
             && LF !in buffer + unread[..Got(unread, polls, k)]
             && (polls[k].alive || Got(unread, polls, k) < Got(unread, polls, k + 1))
  {
    if buffer + unread == [] {
      NothingDelivered(buffer, unread, polls);
    } else if Delivers(buffer, unread, polls) {
      var k :| 0 <= k < |polls| && DeliversAt(buffer, unread, polls, k);
      GotGrows(unread, polls, k);
    } else {
      forall k | 0 <= k < |polls|
        ensures LF !in buffer + unread[..Got(unread, polls, k)]
        ensures polls[k].alive || Got(unread, polls, k) < Got(unread, polls, k + 1)
      {
        assert !DeliversAt(buffer, unread, polls, k);
        GotGrows(unread, polls, k);
      }
    }
  }

  lemma GotGrows(unread: string, polls: seq<Poll>, k: nat)
    requires k < |polls|
    ensures Got(unread, polls, k) <= Got(unread, polls, k + 1)
  {
  }

  /** What was taken for `line` is the line, perhaps a carriage return, and its line feed. */
  ghost predicate Complete(before: string, after: string, line: string) {
    && before <= after && |after| > |before| && after[|after| - 1] == LF
    && StripLast(after[|before|..|after| - 1], CR) == line
  }

  lemma NoLines()
    ensures Unlines<char>([], LF) == []
  {
  }

  lemma CompleteLine(before: string, buffer: string, pos: nat)
    requires pos < |buffer| && buffer[pos] == LF
    ensures Complete(before, before + buffer[..pos + 1], StripLast(buffer[..pos], CR))
  {
    var after := before + buffer[..pos + 1];
    assert after[|before|..|after| - 1] == buffer[..pos];
  }

  lemma CutBuffer(buffer: string, rest: string, pos: nat)
    requires pos < |buffer| && buffer[pos] == LF && Free(buffer[..pos], LF)
    ensures TextLines(buffer + rest) == [StripLast(buffer[..pos], CR)] + TextLines(buffer[pos + 1..] + rest)
  {
    var s := buffer + rest;
    assert s[..pos] == buffer[..pos] && s[pos + 1..] == buffer[pos + 1..] + rest;
    SplitStep(s, pos, LF, CR);
  }
}
