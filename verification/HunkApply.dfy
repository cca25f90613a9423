/** The editor's loop: hunks bottom-up, each checked against the working copy and spliced into it. */
module HunkApply {
  import opened Lines
  import opened LineHash
  import opened Hashline
  import opened Hunks
  import opened Options

  datatype EditError =
    | EmptyHunks
    | Overlapping
    | InvalidStart
    | EndBeforeStart
    | MissingStart(line: int)
    | StaleStart(line: int, expected: seq<byte>, actual: seq<byte>)
    | StaleEnd(line: int)

  /** Hunks always have an end line where they have an end hash: the caller parses both from one
      anchor. Without it the splice could reach past the end of the file. */
  ghost predicate Anchored(hunks: seq<Hunk>) {
    forall k :: 0 <= k < |hunks| && hunks[k].endHash == [] ==> hunks[k].endLine <= 0
  }

  /** What an error says is true of the original lines. */
  ghost predicate Explains(lines: seq<Line>, hunks: seq<Hunk>, e: EditError) {
    match e
    case EmptyHunks => hunks == []
    case Overlapping =>
      exists i, j :: 0 <= i < |hunks| && 0 <= j < |hunks| && i != j
                     && hunks[i].startLine <= hunks[j].startLine <= End(hunks[i])
    case InvalidStart => exists h :: h in hunks && h.startLine <= 0
    case EndBeforeStart => exists h :: h in hunks && End(h) < h.startLine
    case MissingStart(n) => n > |lines| && exists h :: h in hunks && h.startLine == n
    case StaleStart(n, expected, actual) =>
      && 0 < n <= |lines| && lines[n - 1].hash == actual != expected
      && exists h :: h in hunks && h.startLine == n && h.startHash == expected
    case StaleEnd(n) =>
      exists h :: h in hunks && End(h) == n != h.startLine && h.endHash != [] && n > 0
               && (n <= |lines| ==> lines[n - 1].hash != h.endHash)
  }

  function Renumber(lines: seq<Line>): (r: seq<Line>)
    ensures |r| == |lines|
    ensures forall k :: 0 <= k < |lines| ==> r[k] == lines[k].(number := k + 1)
  {
    seq(|lines|, k requires 0 <= k < |lines| => lines[k].(number := k + 1))
  }

  predicate InOrder(a: Hunk, b: Hunk, descending: bool) {
    if descending then a.startLine >= b.startLine else a.startLine <= b.startLine
  }

  ghost predicate Sorted(hunks: seq<Hunk>, descending: bool) {
    forall i, j :: 0 <= i < j < |hunks| ==> InOrder(hunks[i], hunks[j], descending)
  }

  method InsertSorted(sorted: seq<Hunk>, h: Hunk, descending: bool) returns (r: seq<Hunk>)
    requires Sorted(sorted, descending)
    ensures multiset(r) == multiset(sorted) + multiset{h} && Sorted(r, descending)
  {
    var at := 0;
    while at < |sorted| && InOrder(sorted[at], h, descending)
      invariant 0 <= at <= |sorted|
      invariant forall k :: 0 <= k < at ==> InOrder(sorted[k], h, descending)
    {
      at := at + 1;
    }
    r := sorted[..at] + [h] + sorted[at..];
    assert sorted == sorted[..at] + sorted[at..];
    InsertionSorted(sorted, h, at, descending);
  }

  lemma InsertionSorted(sorted: seq<Hunk>, h: Hunk, at: nat, descending: bool)
    requires Sorted(sorted, descending) && at <= |sorted|
    requires forall k :: 0 <= k < at ==> InOrder(sorted[k], h, descending)
    requires at < |sorted| ==> !InOrder(sorted[at], h, descending)
    ensures Sorted(sorted[..at] + [h] + sorted[at..], descending)
  {
    var r := sorted[..at] + [h] + sorted[at..];
    forall i, j | 0 <= i < j < |r| ensures InOrder(r[i], r[j], descending) {
      if i == at {
        assert r[j] == sorted[j - 1];
      } else if j == at {
        assert r[i] == sorted[i];
      } else {
        var i', j' := if i < at then i else i - 1, if j < at then j else j - 1;
        assert r[i] == sorted[i'] && r[j] == sorted[j'];
      }
    }
  }

  /** std::sort by start line. Callers know only that the result is a sorted reordering, which is
      all that std::sort promises about equal start lines. */
  method SortByStart(hunks: seq<Hunk>, descending: bool) returns (sorted: seq<Hunk>)
    ensures multiset(sorted) == multiset(hunks) && Sorted(sorted, descending)
  {
    sorted := [];
    for n := 0 to |hunks|
      invariant multiset(sorted) == multiset(hunks[..n]) && Sorted(sorted, descending)
    {
      assert hunks[..n + 1] == hunks[..n] + [hunks[n]];
      sorted := InsertSorted(sorted, hunks[n], descending);
    }
    assert hunks[..|hunks|] == hunks;
  }

  /** Looks for an adjacent pair, in order of start lines, whose ranges meet. */
  method FindOverlap(byStart: seq<Hunk>) returns (found: bool)
    requires Sorted(byStart, false)
    ensures found ==> exists i :: 0 < i < |byStart| && byStart[i].startLine <= End(byStart[i - 1])
    ensures !found ==> forall i, j :: 0 <= i < j < |byStart| ==> End(byStart[i]) < byStart[j].startLine
  {
    var i := 1;
    while i < |byStart|
      invariant forall k :: 0 < k < i && k < |byStart| ==> End(byStart[k - 1]) < byStart[k].startLine
    {
      if byStart[i].startLine <= End(byStart[i - 1]) {
        return true;
      }
      i := i + 1;
    }
    forall i, j | 0 <= i < j < |byStart| ensures End(byStart[i]) < byStart[j].startLine {
      assert End(byStart[i + 1 - 1]) < byStart[i + 1].startLine;
    }
    return false;
  }

  function LinesFrom(texts: seq<seq<byte>>, first: int): (r: seq<Line>)
    ensures |r| == |texts|
  {
    seq(|texts|, k requires 0 <= k < |texts| => Line(first + k, HashOf(texts[k]), texts[k]))
  }

  lemma LinesFromSnoc(texts: seq<seq<byte>>, t: seq<byte>, first: int)
    ensures LinesFrom(texts + [t], first) == LinesFrom(texts, first) + [Line(first + |texts|, HashOf(t), t)]
  {
    hide HashOf;
  }

  method Flush(num: int, cur: seq<byte>) returns (l: Line)
    ensures l == Line(num, HashOf(StripLast(cur, CR)), StripLast(cur, CR))
  {
    var text := cur;
    if text != [] && text[|text| - 1] == CR {
      text := text[..|text| - 1];
    }
    var hash := Hash(text);
    l := Line(num, hash, text);
  }

  /** After `i` bytes of the content: the lines cut off so far, and the one begun. */
  ghost predicate CutUpTo(content: seq<byte>, i: nat, texts: seq<seq<byte>>, cur: seq<byte>)
    requires i <= |content|
  {
    && Free(cur, LF)
    && (if i == 0 then cur == [] else cur == [] <==> content[i - 1] == LF)
    && TextLines(content) == texts + TextLines(cur + content[i..])
  }

  lemma CutBegins(content: seq<byte>)
    ensures CutUpTo(content, 0, [], [])
  {
    hide Split;
    assert [] + content[0..] == content;
    assert [] + TextLines(content) == TextLines(content);
  }

  lemma CutGoesOn(content: seq<byte>, i: nat, texts: seq<seq<byte>>, cur: seq<byte>)
    requires i < |content| && CutUpTo(content, i, texts, cur)
    ensures content[i] == LF ==> CutUpTo(content, i + 1, texts + [StripLast(cur, CR)], [])
    ensures content[i] != LF ==> CutUpTo(content, i + 1, texts, cur + [content[i]])
  {
    hide Split, StripLast;
    if content[i] == LF {
      CutAtLineFeed(cur, content, i);
      var rest := TextLines([] + content[i + 1..]);
      assert texts + ([StripLast(cur, CR)] + rest) == texts + [StripLast(cur, CR)] + rest;
    } else {
      assert cur + content[i..] == cur + [content[i]] + content[i + 1..];
    }
  }

  lemma CutEnds(content: seq<byte>, texts: seq<seq<byte>>, cur: seq<byte>)
    requires CutUpTo(content, |content|, texts, cur)
    ensures
      TextLines(content) ==
        if content != [] && content[|content| - 1] != LF then texts + [StripLast(cur, CR)] else texts
  {
    hide Split, StripLast;
    assert cur + content[|content|..] == cur;
    if content != [] && content[|content| - 1] != LF {
      CutAtEnd(cur);
    } else {
      SplitNothing<byte>(LF, CR);
      assert texts + [] == texts;
    }
  }

  /** The replacement lines, built byte by byte. */
  method Inserted(h: Hunk) returns (inserted: seq<Line>)
    ensures inserted == LinesFrom(TextLines(h.content), h.startLine)
  {
    hide HashOf, StripLast, LinesFrom, CutUpTo, TextLines;
    inserted := [];
    var cur: seq<byte> := [];
    var num := h.startLine;
    ghost var texts: seq<seq<byte>> := [];
    CutBegins(h.content);
    LinesFromNothing(h.startLine);
    for i := 0 to |h.content|
      invariant num == h.startLine + |texts| && inserted == LinesFrom(texts, h.startLine)
      invariant CutUpTo(h.content, i, texts, cur)
    {
      var c := h.content[i];
      CutGoesOn(h.content, i, texts, cur);
      if c == LF {
        LinesFromSnoc(texts, StripLast(cur, CR), h.startLine);
        var l := Flush(num, cur);
        inserted := inserted + [l];
        texts := texts + [StripLast(cur, CR)];
        num := num + 1;
        cur := [];
      } else {
        cur := cur + [c];
      }
    }
    CutEnds(h.content, texts, cur);
    if h.content != [] && h.content[|h.content| - 1] != LF {
      LinesFromSnoc(texts, StripLast(cur, CR), h.startLine);
      var l := Flush(num, cur);
      inserted := inserted + [l];
    }
  }

  lemma LinesFromNothing(first: int)
    ensures LinesFrom([], first) == []
  {
  }

  lemma CutAtLineFeed(cur: seq<byte>, content: seq<byte>, i: nat)
    requires i < |content| && content[i] == LF && Free(cur, LF)
    ensures TextLines(cur + content[i..]) == [StripLast(cur, CR)] + TextLines([] + content[i + 1..])
  {
    var rest := cur + content[i..];
    assert rest[..|cur|] == cur && rest[|cur| + 1..] == content[i + 1..] == [] + content[i + 1..];
    SplitStep(rest, |cur|, LF, CR);
  }

  lemma CutAtEnd(cur: seq<byte>)
    requires cur != [] && Free(cur, LF)
    ensures TextLines(cur) == [StripLast(cur, CR)]
  {
    assert cur[..|cur|] == cur;
    SplitStep(cur, |cur|, LF, CR);
  }

  ghost predicate Passes(working: seq<Line>, h: Hunk) {
    && WellFormed(h) && h.startLine <= |working| && working[h.startLine - 1].hash == h.startHash
    && (h.endHash != [] && End(h) != h.startLine ==> End(h) <= |working| && working[End(h) - 1].hash == h.endHash)
  }

  /** Which check `e` says failed. */
  ghost predicate Refuses(working: seq<Line>, h: Hunk, e: EditError) {
    match e
    case InvalidStart => h.startLine <= 0
    case EndBeforeStart => 0 < h.startLine && End(h) < h.startLine
    case MissingStart(n) => WellFormed(h) && n == h.startLine > |working|
    case StaleStart(n, expected, actual) =>
      && WellFormed(h) && n == h.startLine <= |working|
      && expected == h.startHash && actual == working[n - 1].hash != expected
    case StaleEnd(n) =>
      && WellFormed(h) && n == End(h) != h.startLine && h.endHash != []
      && (n <= |working| ==> working[n - 1].hash != h.endHash)
    case _ => false
  }

  /** The checks on one hunk, against the working copy. */
  method CheckHunk(working: seq<Line>, h: Hunk) returns (e: Option<EditError>)
    requires IsNumbered(working)
    ensures e.None? <==> Passes(working, h)
    ensures e.Some? ==> Refuses(working, h, e.value)
  {
    if h.startLine <= 0 {
      return Some(InvalidStart);
    }
    var end := if h.endLine > 0 then h.endLine else h.startLine;
    if end < h.startLine {
      return Some(EndBeforeStart);
    }
    var start := FindLine(working, h.startLine);
    if start.None? {
      return Some(MissingStart(h.startLine));
    }
    if start.value.hash != h.startHash {
      return Some(StaleStart(h.startLine, h.startHash, start.value.hash));
    }
    if h.endHash != [] && end != h.startLine {
      var el := FindLine(working, end);
      if el.None? || el.value.hash != h.endHash {
        return Some(StaleEnd(end));
      }
    }
    return None;
  }

  /** A line by its number; the line stored there must carry that number. */
  function FindLine(lines: seq<Line>, number: int): (r: Option<Line>)
    ensures r.Some? ==> 0 < number <= |lines| && r.value == lines[number - 1] && r.value.number == number
    ensures r.None? ==> 0 < number <= |lines| ==> lines[number - 1].number != number
  {
    if number <= 0 || number > |lines| then None
    else if lines[number - 1].number != number then None
    else Some(lines[number - 1])
  }

  /** Erases the range, inserts the content's lines in its place and renumbers. */
  method Splice(before: seq<Line>, h: Hunk) returns (working: seq<Line>)
    requires InFile(before, h)
    ensures working == Renumber(before[..h.startLine - 1] + ContentLines(h) + before[End(h)..])
  {
    hide HashOf, Split;
    var inserted := Inserted(h);
    working := before[..h.startLine - 1] + before[End(h)..];
    working := working[..h.startLine - 1] + inserted + working[h.startLine - 1..];
    ghost var target := before[..h.startLine - 1] + ContentLines(h) + before[End(h)..];
    assert |working| == |target|;
    assert forall k :: 0 <= k < |target| ==> working[k].(number := 0) == target[k].(number := 0);
    for i := 0 to |working|
      invariant |working| == |target|
      invariant forall k :: 0 <= k < i ==> working[k] == target[k].(number := k + 1)
      invariant forall k :: i <= k < |target| ==> working[k].(number := 0) == target[k].(number := 0)
    {
      assert working[i].(number := i + 1) == working[i].(number := 0).(number := i + 1);
      working := working[i := working[i].(number := i + 1)];
    }
  }

  // ---------------------------------------------------------------------------------------------
  // The loop against the simultaneous replacement

  /** The whole answer to an accepted batch. The code ends every file with a line feed, also the
      empty one. */
  function FileOf(lines: seq<Line>): seq<byte> {
    if lines == [] then [LF] else Print(Texts(lines))
  }

  /** What overlap-freedom in start order gives for two well-formed hunks of the descending order. */
  lemma Separated(byStart: seq<Hunk>, ordered: seq<Hunk>, p: nat, k: nat)
    requires multiset(byStart) == multiset(ordered) && Sorted(ordered, true)
    requires forall i, j :: 0 <= i < j < |byStart| ==> End(byStart[i]) < byStart[j].startLine
    requires p < k < |ordered| && WellFormed(ordered[p]) && WellFormed(ordered[k])
    ensures End(ordered[k]) < ordered[p].startLine
  {
    var x, y := PairInPermutation(ordered, byStart, p, k);
    assert InOrder(ordered[p], ordered[k], true);
  }

  lemma OverlapRefused(lines: seq<Line>, hunks: seq<Hunk>, byStart: seq<Hunk>, i: nat)
    requires multiset(byStart) == multiset(hunks) && Sorted(byStart, false)
    requires 0 < i < |byStart| && byStart[i].startLine <= End(byStart[i - 1])
    ensures !Acceptable(lines, hunks) && Explains(lines, hunks, Overlapping)
  {
    var p, q := PairInPermutation(byStart, hunks, i - 1, i);
    assert InOrder(byStart[i - 1], byStart[i], false);
    assert hunks[p].startLine <= hunks[q].startLine <= End(hunks[p]);
    assert WellFormed(hunks[q]) ==> !Disjoint(hunks[p], hunks[q]) && !Disjoint(hunks[q], hunks[p]);
    assert AnchorsMatch(lines, hunks[q]) ==> WellFormed(hunks[q]);
  }

  /** Above the last splice the working copy still is the original. */
  ghost predicate Untouched(lines: seq<Line>, working: seq<Line>, lo: nat) {
    lo <= |lines| && lo <= |working| && forall i :: 0 <= i < lo ==> working[i] == lines[i]
  }

  /** So checking the working copy is checking the original. */
  lemma ChecksOriginal(lines: seq<Line>, hunks: seq<Hunk>, working: seq<Line>, lo: nat, h: Hunk)
    requires h in hunks && Anchored(hunks) && Untouched(lines, working, lo)
    requires WellFormed(h) ==> End(h) <= lo || working == lines
    ensures Passes(working, h) <==> AnchorsMatch(lines, h)
    ensures forall e :: Refuses(working, h, e) ==> Explains(lines, hunks, e) && Refuses(lines, h, e)
  {
    if WellFormed(h) {
      assert h.endHash == [] ==> End(h) == h.startLine;
      assert End(h) <= lo ==>
        working[h.startLine - 1] == lines[h.startLine - 1] && working[End(h) - 1] == lines[End(h) - 1];
    }
  }

  lemma RenumberIgnoresNumbers(a: seq<Line>, b: seq<Line>)
    requires |a| == |b| && forall k :: 0 <= k < |a| ==> a[k].(number := 0) == b[k].(number := 0)
    ensures Renumber(a) == Renumber(b)
  {
    forall k | 0 <= k < |a| ensures Renumber(a)[k] == Renumber(b)[k] {
      assert a[k].(number := k + 1) == a[k].(number := 0).(number := k + 1);
      assert b[k].(number := k + 1) == b[k].(number := 0).(number := k + 1);
    }
  }

  lemma {:induction false} HunkAtSnoc(hunks: seq<Hunk>, h: Hunk, l: int)
    ensures HunkAt(hunks + [h], l) ==
      if HunkAt(hunks, l).Some? then HunkAt(hunks, l) else if h.startLine == l then Some(h) else None
  {
    if hunks != [] {
      assert (hunks + [h])[1..] == hunks[1..] + [h];
      HunkAtSnoc(hunks[1..], h, l);
    }
  }

  /** One more hunk: from line index `lo` down to the start of `h`. */
  lemma ReplaceOneMore(lines: seq<Line>, done: seq<Hunk>, lo: nat, h: Hunk)
    requires lo <= |lines| && AllInFile(lines, done) && InFile(lines, h) && End(h) <= lo
    requires forall g :: g in done ==> lo < g.startLine
    ensures AllInFile(lines, done + [h])
    ensures Replace(lines, done + [h], h.startLine - 1)
         == ContentLines(h) + lines[End(h)..lo] + Replace(lines, done, lo)
  {
    hide ContentLines;
    var more := done + [h];
    HunkAtSnoc(done, h, h.startLine);
    forall l | lo < l ensures HunkAt(more, l) == HunkAt(done, l) {
      HunkAtSnoc(done, h, l);
    }
    ReplaceAgrees(lines, more, done, lo);
    ReplaceCopies(lines, more, End(h), lo);
    assert Replace(lines, more, h.startLine - 1) == ContentLines(h) + Replace(lines, more, End(h));
  }

  /** The loop invariant: above `lo` the original, below it the finished replacement. */
  ghost predicate DoneTo(lines: seq<Line>, done: seq<Hunk>, lo: nat, working: seq<Line>) {
    && lo <= |lines| && AllInFile(lines, done)
    && (forall g :: g in done ==> lo < g.startLine)
    && working == Renumber(lines[..lo] + Replace(lines, done, lo))
  }

  lemma SpliceExtends(lines: seq<Line>, done: seq<Hunk>, lo: nat, before: seq<Line>, h: Hunk, working: seq<Line>)
    requires DoneTo(lines, done, lo, before) && InFile(lines, h) && End(h) <= lo
    requires working == Renumber(before[..h.startLine - 1] + ContentLines(h) + before[End(h)..])
    ensures DoneTo(lines, done + [h], h.startLine - 1, working)
  {
    hide ContentLines, Replace;
    ReplaceOneMore(lines, done, lo, h);
    var i, e := h.startLine - 1, End(h);
    var tail := Replace(lines, done, lo);
    var was := lines[..lo] + tail;
    var a := before[..i] + ContentLines(h) + before[e..];
    var b := lines[..i] + (ContentLines(h) + lines[e..lo] + tail);
    assert |a| == |b|;
    forall k | 0 <= k < |a| ensures a[k].(number := 0) == b[k].(number := 0) {
      var c := |ContentLines(h)|;
      if k < i {
        assert a[k] == before[k] && b[k] == lines[k] == was[k];
      } else if k < i + c {
        assert a[k] == ContentLines(h)[k - i] == b[k];
      } else {
        var j := k - c - i + e;
        assert a[k] == before[j] && b[k] == was[j];
      }
    }
    RenumberIgnoresNumbers(a, b);
  }

  lemma AcceptedInOrder(lines: seq<Line>, byStart: seq<Hunk>, ordered: seq<Hunk>, hunks: seq<Hunk>)
    requires hunks != [] && multiset(byStart) == multiset(ordered) == multiset(hunks) && Sorted(ordered, true)
    requires forall i, j :: 0 <= i < j < |byStart| ==> End(byStart[i]) < byStart[j].startLine
    requires forall k :: 0 <= k < |ordered| ==> AnchorsMatch(lines, ordered[k])
    ensures Acceptable(lines, ordered) && Acceptable(lines, hunks)
  {
    SameLength(ordered, hunks);
    forall p, k | 0 <= p < k < |ordered| ensures Disjoint(ordered[p], ordered[k]) {
      assert AnchorsMatch(lines, ordered[p]) && AnchorsMatch(lines, ordered[k]);
      Separated(byStart, ordered, p, k);
    }
    AcceptablePermuted(lines, ordered, hunks);
  }

  method Join(working: seq<Line>) returns (out: seq<byte>)
    ensures out + [LF] == FileOf(working)
  {
    out := [];
    for i := 0 to |working|
      invariant i < |working| ==> out == Print(Texts(working)[..i])
      invariant i == |working| ==> out + [LF] == FileOf(working)
    {
      assert Texts(working)[..i + 1] == Texts(working)[..i] + [working[i].text];
      UnlinesSnoc(Texts(working)[..i], working[i].text, LF);
      assert i + 1 == |working| ==> Texts(working)[..i + 1] == Texts(working);
      out := out + working[i].text;
      if i + 1 < |working| {
        out := out + [LF];
      }
    }
  }

  lemma EmptyExplained(lines: seq<Line>, hunks: seq<Hunk>)
    requires hunks == []
    ensures Explains(lines, hunks, EmptyHunks) && !Acceptable(lines, hunks)
  {
  }

  lemma StartsDone(lines: seq<Line>)
    requires IsNumbered(lines)
    ensures DoneTo(lines, [], |lines|, lines)
  {
    assert lines[..|lines|] + [] == lines;
    assert forall k :: 0 <= k < |lines| ==> lines[k] == lines[k].(number := k + 1);
  }

  lemma ReachesOnlyOriginal(lines: seq<Line>, byStart: seq<Hunk>, ordered: seq<Hunk>, k: nat)
    requires multiset(byStart) == multiset(ordered) && Sorted(ordered, true)
    requires forall i, j :: 0 <= i < j < |byStart| ==> End(byStart[i]) < byStart[j].startLine
    requires k < |ordered| && forall p :: 0 <= p < k ==> AnchorsMatch(lines, ordered[p])
    ensures k > 0 && WellFormed(ordered[k]) ==> End(ordered[k]) < ordered[k - 1].startLine
  {
    if k > 0 && WellFormed(ordered[k]) {
      assert AnchorsMatch(lines, ordered[k - 1]);
      Separated(byStart, ordered, k - 1, k);
    }
  }

  lemma DoneUntouched(lines: seq<Line>, done: seq<Hunk>, lo: nat, working: seq<Line>)
    requires IsNumbered(lines) && DoneTo(lines, done, lo, working)
    ensures Untouched(lines, working, lo) && IsNumbered(working)
  {
    var all := lines[..lo] + Replace(lines, done, lo);
    assert forall i :: 0 <= i < lo ==> all[i] == lines[i] && lines[i] == lines[i].(number := i + 1);
  }

  lemma RefusedNotAcceptable(lines: seq<Line>, hunks: seq<Hunk>, h: Hunk)
    requires h in hunks && !AnchorsMatch(lines, h)
    ensures !Acceptable(lines, hunks)
  {
  }

  lemma AnchorsInFile(lines: seq<Line>, h: Hunk)
    requires AnchorsMatch(lines, h)
    ensures InFile(lines, h)
  {
  }

  lemma NothingAbove(lines: seq<Line>, done: seq<Hunk>, lo: nat, working: seq<Line>)
    requires DoneTo(lines, done, lo, working)
    ensures working == Renumber(Replace(lines, done, 0))
  {
    ReplaceCopies(lines, done, 0, lo);
    assert lines[0..lo] == lines[..lo];
  }

  lemma FileIgnoresNumbers(lines: seq<Line>)
    ensures FileOf(Renumber(lines)) == FileOf(lines)
  {
    assert Texts(Renumber(lines)) == Texts(lines);
  }

  lemma AcceptedHasLines(lines: seq<Line>, hunks: seq<Hunk>)
    requires Acceptable(lines, hunks)
    ensures lines != []
  {
    assert AnchorsMatch(lines, hunks[0]);
  }

  /** The checks run from the bottom of the file up: the hunk an error is about fails, and every hunk
      that starts below it passes. */
  ghost predicate Blames(lines: seq<Line>, hunks: seq<Hunk>, e: EditError) {
    e == EmptyHunks || e == Overlapping ||
    exists h :: h in hunks && Refuses(lines, h, e)
                && forall g :: g in hunks && g.startLine > h.startLine ==> AnchorsMatch(lines, g)
  }

  lemma NothingToBlame(lines: seq<Line>, hunks: seq<Hunk>)
    ensures Blames(lines, hunks, EmptyHunks) && Blames(lines, hunks, Overlapping)
  {
  }

  lemma RefusalIsNone(working: seq<Line>, h: Hunk, e: EditError)
    requires Refuses(working, h, e)
    ensures e != EmptyHunks && e != Overlapping
  {
  }

  lemma FirstBlamed(lines: seq<Line>, hunks: seq<Hunk>, ordered: seq<Hunk>, k: nat, e: EditError)
    requires multiset(ordered) == multiset(hunks) && Sorted(ordered, true) && k < |ordered|
    requires forall p :: 0 <= p < k ==> AnchorsMatch(lines, ordered[p])
    requires Refuses(lines, ordered[k], e)
    ensures Blames(lines, hunks, e)
  {
    hide AnchorsMatch, Refuses;
    var h := ordered[k];
    assert h in multiset(hunks);
    forall g | g in hunks && g.startLine > h.startLine ensures AnchorsMatch(lines, g) {
      assert g in multiset(ordered);
      var p :| 0 <= p < |ordered| && ordered[p] == g;
      assert k < p ==> InOrder(h, g, true);
    }
  }

  ghost predicate Forward(hunks: seq<Hunk>) { forall k :: 0 <= k < |hunks| ==> hunks[k].startLine <= End(hunks[k]) }

  lemma OverlapMeans(hunks: seq<Hunk>, byStart: seq<Hunk>, i: nat)
    requires multiset(byStart) == multiset(hunks) && Sorted(byStart, false)
    requires 0 < i < |byStart| && byStart[i].startLine <= End(byStart[i - 1])
    ensures Forward(hunks) ==> !PairwiseDisjoint(hunks)
  {
    var p, q := PairInPermutation(byStart, hunks, i - 1, i);
    assert InOrder(byStart[i - 1], byStart[i], false);
    if Forward(hunks) {
      assert !Disjoint(hunks[p], hunks[q]) && !Disjoint(hunks[q], hunks[p]);
    }
  }

  lemma ApartMeans(hunks: seq<Hunk>, byStart: seq<Hunk>)
    requires multiset(byStart) == multiset(hunks)
    requires forall i, j :: 0 <= i < j < |byStart| ==> End(byStart[i]) < byStart[j].startLine
    ensures PairwiseDisjoint(hunks)
  {
    forall i, j | 0 <= i < j < |hunks| ensures Disjoint(hunks[i], hunks[j]) {
      var p, q := PairInPermutation(hunks, byStart, i, j);
      assert p < q || q < p;
    }
  }

  /** Applies a batch of hunks. It succeeds exactly on the batches that are acceptable for the
      original lines; then the new content is the original with all ranges replaced at once. A
      failure returns no content and an error that is true of the original lines: overlaps first, then
      the first failing check from the bottom of the file up. */
  method ApplyHunks(lines: seq<Line>, hunks: seq<Hunk>) returns (content: seq<byte>, error: Option<EditError>)
    requires IsNumbered(lines) && Anchored(hunks)
    ensures error.None? <==> Acceptable(lines, hunks)
    ensures error.None? ==> AllInFile(lines, hunks) && content == FileOf(Replace(lines, hunks, 0))
    ensures error.Some? ==> content == [] && Explains(lines, hunks, error.value) && Blames(lines, hunks, error.value)
    ensures error == Some(EmptyHunks) <==> hunks == []
    ensures hunks != [] && Forward(hunks) ==> (error == Some(Overlapping) <==> !PairwiseDisjoint(hunks))
  {
    hide ContentLines, Replace, AnchorsMatch, Explains, FileOf, DoneTo, Sorted, Blames, PairwiseDisjoint, Forward;
    hide Passes, Refuses, Acceptable, Anchored, Untouched, IsNumbered, End;
    NothingToBlame(lines, hunks);
    if hunks == [] {
      EmptyExplained(lines, hunks);
      return [], Some(EmptyHunks);
    }
    var ordered := SortByStart(hunks, true);
    var byStart := SortByStart(hunks, false);
    var overlap := FindOverlap(byStart);
    if overlap {
      ghost var i :| 0 < i < |byStart| && byStart[i].startLine <= End(byStart[i - 1]);
      OverlapRefused(lines, hunks, byStart, i);
      OverlapMeans(hunks, byStart, i);
      return [], Some(Overlapping);
    }
    ApartMeans(hunks, byStart);
    SameLength(ordered, hunks);
    var working := lines;
    ghost var lo: nat := |lines|;
    StartsDone(lines);
    for k := 0 to |ordered|
      invariant forall p :: 0 <= p < k ==> AnchorsMatch(lines, ordered[p])
      invariant lo == if k == 0 then |lines| else ordered[k - 1].startLine - 1
      invariant k == 0 ==> working == lines
      invariant DoneTo(lines, ordered[..k], lo, working)
    {
      var h := ordered[k];
      assert h in multiset(hunks);
      ReachesOnlyOriginal(lines, byStart, ordered, k);
      DoneUntouched(lines, ordered[..k], lo, working);
      ChecksOriginal(lines, hunks, working, lo, h);
      var e := CheckHunk(working, h);
      if e.Some? {
        RefusedNotAcceptable(lines, hunks, h);
        FirstBlamed(lines, hunks, ordered, k, e.value);
        RefusalIsNone(working, h, e.value);
        return [], e;
      }
      AnchorsInFile(lines, h);
      ghost var before := working;
      working := Splice(working, h);
      SpliceExtends(lines, ordered[..k], lo, before, h, working);
      assert ordered[..k + 1] == ordered[..k] + [h];
      lo := h.startLine - 1;
    }
    assert ordered[..|ordered|] == ordered;
    AcceptedInOrder(lines, byStart, ordered, hunks);
    ReplacePermuted(lines, ordered, hunks, 0);
    NothingAbove(lines, ordered, lo, working);
    content := Join(working);
    error := None;
    if lines != [] {
      content := content + [LF];
    }
    FileIgnoresNumbers(Replace(lines, hunks, 0));
    AcceptedHasLines(lines, hunks);
  }
}
