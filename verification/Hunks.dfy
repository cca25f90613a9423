/** What a batch of hunks means: every hunk is checked against the original lines and all ranges
    are replaced at once. */
module Hunks {
  import opened LineHash
  import opened Hashline
  import opened Options

  /** Replace lines `startLine` to `endLine`; an `endLine` of zero means the start line alone. */
  datatype Hunk = Hunk(startLine: int, startHash: seq<byte>, endLine: int, endHash: seq<byte>, content: seq<byte>)

  function End(h: Hunk): int { if h.endLine > 0 then h.endLine else h.startLine }

  /** The lines the content becomes; none for an empty content, which deletes the range. */
  function ContentLines(h: Hunk): seq<Line> { Number(TextLines(h.content)) }

  predicate Disjoint(a: Hunk, b: Hunk) { End(a) < b.startLine || End(b) < a.startLine }

  predicate WellFormed(h: Hunk) { 0 < h.startLine <= End(h) }

  /** The range lies in the file. */
  predicate InFile(lines: seq<Line>, h: Hunk) { WellFormed(h) && End(h) <= |lines| }

  /** The start anchor, and the end anchor of a longer range when one is given, match `lines`. */
  predicate AnchorsMatch(lines: seq<Line>, h: Hunk) {
    && InFile(lines, h)
    && lines[h.startLine - 1].hash == h.startHash
    && (h.endHash != [] && End(h) != h.startLine ==> lines[End(h) - 1].hash == h.endHash)
  }

  ghost predicate PairwiseDisjoint(hunks: seq<Hunk>) {
    forall i, j :: 0 <= i < j < |hunks| ==> Disjoint(hunks[i], hunks[j])
  }

  /** The batches the editor takes, told from the original lines alone. */
  ghost predicate Acceptable(lines: seq<Line>, hunks: seq<Hunk>) {
    && hunks != []
    && (forall i :: 0 <= i < |hunks| ==> AnchorsMatch(lines, hunks[i]))
    && PairwiseDisjoint(hunks)
  }

  ghost predicate AllInFile(lines: seq<Line>, hunks: seq<Hunk>) {
    forall i :: 0 <= i < |hunks| ==> InFile(lines, hunks[i])
  }

  /** The first hunk of the list that starts at a line. */
  function HunkAt(hunks: seq<Hunk>, line: int): (r: Option<Hunk>)
    ensures r.Some? ==> r.value in hunks && r.value.startLine == line
    ensures r.None? ==> forall h :: h in hunks ==> h.startLine != line
  {
    if hunks == [] then None
    else if hunks[0].startLine == line then Some(hunks[0])
    else HunkAt(hunks[1..], line)
  }

  /** Simultaneous replacement from line index `i` on: reading the original top to bottom, a range
      gives its content's lines and a line outside every range gives itself. */
  ghost function Replace(lines: seq<Line>, hunks: seq<Hunk>, i: nat): seq<Line>
    requires i <= |lines| && AllInFile(lines, hunks)
    decreases |lines| - i
  {
    if i == |lines| then []
    else
      match HunkAt(hunks, i + 1)
      case Some(h) => ContentLines(h) + Replace(lines, hunks, End(h))
      case None => [lines[i]] + Replace(lines, hunks, i + 1)
  }

  /** The replacement looks at the hunks only through `HunkAt`. */
  lemma {:induction false} ReplaceAgrees(lines: seq<Line>, a: seq<Hunk>, b: seq<Hunk>, i: nat)
    requires i <= |lines| && AllInFile(lines, a) && AllInFile(lines, b)
    requires forall l :: i < l ==> HunkAt(a, l) == HunkAt(b, l)
    ensures Replace(lines, a, i) == Replace(lines, b, i)
    decreases |lines| - i
  {
    if i < |lines| {
      match HunkAt(a, i + 1)
      case Some(h) => ReplaceAgrees(lines, a, b, End(h));
      case None => ReplaceAgrees(lines, a, b, i + 1);
    }
  }

  /** Lines no hunk starts at are copied. */
  lemma {:induction false} ReplaceCopies(lines: seq<Line>, hunks: seq<Hunk>, i: nat, j: nat)
    requires i <= j <= |lines| && AllInFile(lines, hunks)
    requires forall h :: h in hunks ==> !(i < h.startLine <= j)
    ensures Replace(lines, hunks, i) == lines[i..j] + Replace(lines, hunks, j)
    decreases j - i
  {
    hide AllInFile, HunkAt, Replace;
    if i < j {
      ReplaceCopies(lines, hunks, i + 1, j);
      assert HunkAt(hunks, i + 1).None?;
      ReplaceFreeLine(lines, hunks, i);
      assert lines[i..j] == [lines[i]] + lines[i + 1..j];
      var rest := Replace(lines, hunks, j);
      assert [lines[i]] + (lines[i + 1..j] + rest) == [lines[i]] + lines[i + 1..j] + rest;
    } else {
      assert lines[i..j] == [];
    }
  }

  lemma ReplaceFreeLine(lines: seq<Line>, hunks: seq<Hunk>, i: nat)
    requires i < |lines| && AllInFile(lines, hunks) && HunkAt(hunks, i + 1).None?
    ensures Replace(lines, hunks, i) == [lines[i]] + Replace(lines, hunks, i + 1)
  {
  }

  lemma HunkAtUnique(hunks: seq<Hunk>, h: Hunk)
    requires PairwiseDisjoint(hunks) && h in hunks
    requires forall i :: 0 <= i < |hunks| ==> WellFormed(hunks[i])
    ensures HunkAt(hunks, h.startLine) == Some(h)
  {
    var r := HunkAt(hunks, h.startLine).value;
    var i :| 0 <= i < |hunks| && hunks[i] == h;
    var j :| 0 <= j < |hunks| && hunks[j] == r;
    assert i < j ==> Disjoint(h, r);
    assert j < i ==> Disjoint(r, h);
  }

  lemma WithoutOne<T>(a: seq<T>, i: nat)
    requires i < |a|
    ensures multiset(a[..i] + a[i + 1..]) == multiset(a) - multiset{a[i]}
  {
    assert a == a[..i] + [a[i]] + a[i + 1..];
  }

  /** Two positions of a list are, in any reordering of it, two positions again. */
  lemma PairInPermutation<T>(a: seq<T>, b: seq<T>, i: nat, j: nat) returns (p: nat, q: nat)
    requires multiset(a) == multiset(b) && i < j < |a|
    ensures p < |b| && q < |b| && p != q && b[p] == a[i] && b[q] == a[j]
  {
    assert a[i] in multiset(b);
    p :| p < |b| && b[p] == a[i];
    var restA, restB := a[..i] + a[i + 1..], b[..p] + b[p + 1..];
    WithoutOne(a, i);
    WithoutOne(b, p);
    assert restA[j - 1] == a[j];
    assert a[j] in multiset(restA);
    assert a[j] in multiset(restB);
    var r :| 0 <= r < |restB| && restB[r] == a[j];
    q := if r < p then r else r + 1;
  }

  /** Acceptance does not depend on the order of the list. */
  lemma AcceptablePermuted(lines: seq<Line>, a: seq<Hunk>, b: seq<Hunk>)
    requires multiset(a) == multiset(b) && Acceptable(lines, a)
    ensures Acceptable(lines, b)
  {
    SameLength(a, b);
    forall k | 0 <= k < |b| ensures AnchorsMatch(lines, b[k]) {
      assert b[k] in multiset(a);
    }
    forall i, j | 0 <= i < j < |b| ensures Disjoint(b[i], b[j]) {
      var p, q := PairInPermutation(b, a, i, j);
      assert p < q ==> Disjoint(a[p], a[q]);
      assert q < p ==> Disjoint(a[q], a[p]);
    }
  }

  lemma SameLength<T>(a: seq<T>, b: seq<T>)
    requires multiset(a) == multiset(b)
    ensures |a| == |b|
  {
    assert |multiset(a)| == |multiset(b)|;
  }

  /** Nor does the result. */
  lemma ReplacePermuted(lines: seq<Line>, a: seq<Hunk>, b: seq<Hunk>, i: nat)
    requires multiset(a) == multiset(b) && Acceptable(lines, a) && i <= |lines|
    ensures AllInFile(lines, a) && AllInFile(lines, b)
    ensures Replace(lines, a, i) == Replace(lines, b, i)
  {
    AcceptablePermuted(lines, a, b);
    assert AllInFile(lines, a) && AllInFile(lines, b);
    forall l: int | i < l ensures HunkAt(a, l) == HunkAt(b, l) {
      SameHunkAt(lines, a, b, l);
    }
    ReplaceAgrees(lines, a, b, i);
  }

  lemma SameHunkAt(lines: seq<Line>, a: seq<Hunk>, b: seq<Hunk>, l: int)
    requires multiset(a) == multiset(b) && Acceptable(lines, a) && Acceptable(lines, b)
    ensures HunkAt(a, l) == HunkAt(b, l)
  {
    match HunkAt(a, l)
    case Some(h) =>
      assert h in multiset(b);
      HunkAtUnique(b, h);
    case None =>
      forall h | h in b ensures h.startLine != l {
        assert h in multiset(a);
      }
  }

  // ---------------------------------------------------------------------------------------------
  // Where every line ends up

  /** How many lines a hunk adds (or, negative, removes). */
  function Growth(h: Hunk): int { |ContentLines(h)| - (End(h) - h.startLine + 1) }

  /** The growth of all hunks that end at or above line index `i`. */
  function Shift(hunks: seq<Hunk>, i: int): int {
    if hunks == [] then 0
    else (if End(hunks[0]) <= i then Growth(hunks[0]) else 0) + Shift(hunks[1..], i)
  }

  /** No range has lines on both sides of the cut before line index `i`. */
  ghost predicate IsCut(hunks: seq<Hunk>, i: int) {
    forall k :: 0 <= k < |hunks| ==> End(hunks[k]) <= i || i < hunks[k].startLine
  }

  lemma {:induction false} ShiftSame(hunks: seq<Hunk>, i: int, j: int)
    requires forall k :: 0 <= k < |hunks| ==> (End(hunks[k]) <= i <==> End(hunks[k]) <= j)
    ensures Shift(hunks, i) == Shift(hunks, j)
  {
    if hunks != [] {
      forall k | 0 <= k < |hunks[1..]| ensures End(hunks[1..][k]) <= i <==> End(hunks[1..][k]) <= j {
        assert hunks[1..][k] == hunks[k + 1];
      }
      assert End(hunks[0]) <= i <==> End(hunks[0]) <= j;
      ShiftSame(hunks[1..], i, j);
    }
  }

  lemma {:induction false} ShiftOver(hunks: seq<Hunk>, i: int, j: int, p: nat)
    requires p < |hunks| && i < End(hunks[p]) <= j
    requires forall k :: 0 <= k < |hunks| && k != p ==> (End(hunks[k]) <= i <==> End(hunks[k]) <= j)
    ensures Shift(hunks, j) == Shift(hunks, i) + Growth(hunks[p])
  {
    var rest := hunks[1..];
    assert forall k :: 0 <= k < |rest| ==> rest[k] == hunks[k + 1];
    if p == 0 {
      forall k | 0 <= k < |rest| ensures End(rest[k]) <= i <==> End(rest[k]) <= j {
        assert rest[k] == hunks[k + 1];
      }
      ShiftSame(rest, i, j);
    } else {
      assert End(hunks[0]) <= i <==> End(hunks[0]) <= j;
      ShiftOver(rest, i, j, p - 1);
    }
  }

  lemma DropPast<T>(a: seq<T>, b: seq<T>, k: nat)
    requires k <= |b|
    ensures (a + b)[|a| + k..] == b[k..]
  {
  }

  lemma BlockAt<T>(a: seq<T>, i: nat, block: seq<T>, rest: seq<T>)
    requires i <= |a| && a[i..] == block + rest
    ensures i + |block| <= |a| && a[i..i + |block|] == block
  {
    assert a[i..i + |block|] == a[i..][..|block|];
  }

  lemma HunkIndex(hunks: seq<Hunk>, h: Hunk) returns (p: nat)
    requires h in hunks
    ensures p < |hunks| && hunks[p] == h
  {
    p :| p < |hunks| && hunks[p] == h;
  }

  /** From a cut, the replacement takes one block, to a cut further down. */
  ghost predicate Block(lines: seq<Line>, hunks: seq<Hunk>, i: nat, next: nat, block: seq<Line>)
    requires AllInFile(lines, hunks)
  {
    && i < next <= |lines| && IsCut(hunks, next)
    && next + Shift(hunks, next) == i + Shift(hunks, i) + |block|
    && Replace(lines, hunks, i) == block + Replace(lines, hunks, next)
  }

  lemma NextBlock(lines: seq<Line>, hunks: seq<Hunk>, i: nat, j: nat) returns (next: nat, block: seq<Line>)
    requires Acceptable(lines, hunks) && AllInFile(lines, hunks) && i < j <= |lines|
    requires IsCut(hunks, i) && IsCut(hunks, j)
    ensures next <= j && Block(lines, hunks, i, next, block)
  {
    hide Shift, ContentLines;
    match HunkAt(hunks, i + 1)
    case Some(h) =>
      var p := HunkIndex(hunks, h);
      assert InFile(lines, hunks[p]) && End(h) <= j;
      CutAfterHunk(hunks, p);
      ShiftPast(hunks, p);
      next, block := End(h), ContentLines(h);
    case None =>
      CutAfterFreeLine(hunks, i);
      next, block := i + 1, [lines[i]];
  }

  /** Between two cuts the result grows by exactly the hunks between them. */
  lemma {:induction false} CutLaw(lines: seq<Line>, hunks: seq<Hunk>, i: nat, j: nat)
    requires Acceptable(lines, hunks) && AllInFile(lines, hunks) && i <= j <= |lines|
    requires IsCut(hunks, i) && IsCut(hunks, j)
    ensures
      var skip := (j + Shift(hunks, j)) - (i + Shift(hunks, i));
      0 <= skip <= |Replace(lines, hunks, i)| && Replace(lines, hunks, i)[skip..] == Replace(lines, hunks, j)
    decreases j - i
  {
    hide Shift, Replace, Acceptable, AllInFile, IsCut;
    if i < j {
      var next, block := NextBlock(lines, hunks, i, j);
      CutLaw(lines, hunks, next, j);
      DropPast(block, Replace(lines, hunks, next), (j + Shift(hunks, j)) - (next + Shift(hunks, next)));
    }
  }

  lemma CutAfterHunk(hunks: seq<Hunk>, p: nat)
    requires p < |hunks| && PairwiseDisjoint(hunks) && forall k :: 0 <= k < |hunks| ==> WellFormed(hunks[k])
    ensures IsCut(hunks, End(hunks[p])) && IsCut(hunks, hunks[p].startLine - 1)
  {
    forall k | 0 <= k < |hunks|
      ensures End(hunks[k]) <= End(hunks[p]) || End(hunks[p]) < hunks[k].startLine
      ensures End(hunks[k]) <= hunks[p].startLine - 1 || hunks[p].startLine - 1 < hunks[k].startLine
    {
      assert k < p ==> Disjoint(hunks[k], hunks[p]);
      assert p < k ==> Disjoint(hunks[p], hunks[k]);
    }
  }

  lemma ShiftPast(hunks: seq<Hunk>, p: nat)
    requires p < |hunks| && PairwiseDisjoint(hunks) && forall k :: 0 <= k < |hunks| ==> WellFormed(hunks[k])
    ensures Shift(hunks, End(hunks[p])) == Shift(hunks, hunks[p].startLine - 1) + Growth(hunks[p])
  {
    var i, j := hunks[p].startLine - 1, End(hunks[p]);
    forall k | 0 <= k < |hunks| && k != p ensures End(hunks[k]) <= i <==> End(hunks[k]) <= j {
      assert k < p ==> Disjoint(hunks[k], hunks[p]);
      assert p < k ==> Disjoint(hunks[p], hunks[k]);
    }
    ShiftOver(hunks, i, j, p);
  }

  lemma CutAfterFreeLine(hunks: seq<Hunk>, i: int)
    requires IsCut(hunks, i) && HunkAt(hunks, i + 1).None?
    requires forall k :: 0 <= k < |hunks| ==> WellFormed(hunks[k])
    ensures IsCut(hunks, i + 1) && Shift(hunks, i + 1) == Shift(hunks, i)
  {
    forall k | 0 <= k < |hunks|
      ensures End(hunks[k]) <= i + 1 || i + 1 < hunks[k].startLine
      ensures End(hunks[k]) <= i <==> End(hunks[k]) <= i + 1
    {
      assert hunks[k].startLine != i + 1;
    }
    ShiftSame(hunks, i, i + 1);
  }

  lemma ShiftAtTop(hunks: seq<Hunk>)
    requires forall k :: 0 <= k < |hunks| ==> WellFormed(hunks[k])
    ensures Shift(hunks, 0) == 0
  {
    if hunks != [] {
      assert forall k :: 0 <= k < |hunks[1..]| ==> hunks[1..][k] == hunks[k + 1];
      ShiftAtTop(hunks[1..]);
    }
  }

  /** The whole result: its length; every line outside all ranges, moved by the growth above it and
      so in the old order; and every range's content, whole and in its place. */
  lemma ReplaceLayout(lines: seq<Line>, hunks: seq<Hunk>)
    requires Acceptable(lines, hunks) && AllInFile(lines, hunks)
    ensures
      var out := Replace(lines, hunks, 0);
      && |out| == |lines| + Shift(hunks, |lines|)
      && (forall i :: 0 <= i < |lines| && Outside(hunks, i) ==>
            0 <= i + Shift(hunks, i) < |out| && out[i + Shift(hunks, i)] == lines[i])
      && (forall p :: 0 <= p < |hunks| ==> Placed(out, hunks, hunks[p]))
  {
    var out := Replace(lines, hunks, 0);
    ShiftAtTop(hunks);
    CutLaw(lines, hunks, 0, |lines|);
    forall i | 0 <= i < |lines| && Outside(hunks, i)
      ensures 0 <= i + Shift(hunks, i) < |out| && out[i + Shift(hunks, i)] == lines[i]
    {
      SurvivorPlaced(lines, hunks, i);
    }
    forall p | 0 <= p < |hunks| ensures Placed(out, hunks, hunks[p]) {
      ContentPlaced(lines, hunks, p);
    }
  }

  /** Line index `i` is in no range. */
  ghost predicate Outside(hunks: seq<Hunk>, i: int) {
    forall k :: 0 <= k < |hunks| ==> !(hunks[k].startLine <= i + 1 <= End(hunks[k]))
  }

  /** The content of `h` stands where its range stood, moved by the growth above it. */
  ghost predicate Placed(out: seq<Line>, hunks: seq<Hunk>, h: Hunk) {
    var at := h.startLine - 1 + Shift(hunks, h.startLine - 1);
    0 <= at <= at + |ContentLines(h)| <= |out| && out[at..at + |ContentLines(h)|] == ContentLines(h)
  }

  lemma SurvivorPlaced(lines: seq<Line>, hunks: seq<Hunk>, i: nat)
    requires Acceptable(lines, hunks) && AllInFile(lines, hunks) && i < |lines| && Outside(hunks, i)
    ensures
      var out := Replace(lines, hunks, 0);
      0 <= i + Shift(hunks, i) < |out| && out[i + Shift(hunks, i)] == lines[i]
  {
    ShiftAtTop(hunks);
    CutLaw(lines, hunks, 0, i);
    var tail := Replace(lines, hunks, i);
    forall k | 0 <= k < |hunks| ensures hunks[k].startLine != i + 1 {
      assert InFile(lines, hunks[k]);
    }
    assert tail[0] == lines[i];
  }

  lemma ReplaceAtHunk(lines: seq<Line>, hunks: seq<Hunk>, p: nat)
    requires Acceptable(lines, hunks) && AllInFile(lines, hunks) && p < |hunks|
    requires InFile(lines, hunks[p])
    ensures Replace(lines, hunks, hunks[p].startLine - 1)
         == ContentLines(hunks[p]) + Replace(lines, hunks, End(hunks[p]))
  {
    hide ContentLines;
    HunkAtUnique(hunks, hunks[p]);
  }

  lemma ContentPlaced(lines: seq<Line>, hunks: seq<Hunk>, p: nat)
    requires Acceptable(lines, hunks) && AllInFile(lines, hunks) && p < |hunks|
    ensures Placed(Replace(lines, hunks, 0), hunks, hunks[p])
  {
    hide Shift, ContentLines, Replace, IsCut;
    var h := hunks[p];
    assert InFile(lines, h);
    CutAfterHunk(hunks, p);
    ShiftAtTop(hunks);
    CutAtTop(lines, hunks);
    CutLaw(lines, hunks, 0, h.startLine - 1);
    ReplaceAtHunk(lines, hunks, p);
    var at := h.startLine - 1 + Shift(hunks, h.startLine - 1);
    BlockAt(Replace(lines, hunks, 0), at, ContentLines(h), Replace(lines, hunks, End(h)));
  }

  lemma CutAtTop(lines: seq<Line>, hunks: seq<Hunk>)
    requires AllInFile(lines, hunks)
    ensures IsCut(hunks, 0)
  {
  }
}
