/** What reading and editing promise together. */
module EditLaws {
  import opened Lines
  import opened LineHash
  import opened Hashline
  import opened Hunks
  import opened Options
  import opened HunkApply
  import opened EditCommand
  import opened EditRequests
  import opened PageReader

  /** Every line carries the hash of its text, and its text has no line feed. */
  ghost predicate Hashed(lines: seq<Line>) {
    forall k :: 0 <= k < |lines| ==> lines[k].hash == HashOf(lines[k].text) && Free(lines[k].text, LF)
  }

  lemma FileLinesHashed(bytes: seq<byte>)
    ensures Hashed(FileLines(bytes))
  {
    hide HashOf, Split;
    SplitFree(bytes, LF, CR);
  }

  lemma {:induction false} ReplaceHashed(lines: seq<Line>, hunks: seq<Hunk>, i: nat)
    requires i <= |lines| && AllInFile(lines, hunks) && Hashed(lines)
    ensures Hashed(Replace(lines, hunks, i))
    decreases |lines| - i
  {
    hide HashOf, Free;
    if i < |lines| {
      match HunkAt(hunks, i + 1)
      case Some(h) =>
        FileLinesHashed(h.content);
        ReplaceHashed(lines, hunks, End(h));
      case None =>
        ReplaceHashed(lines, hunks, i + 1);
    }
  }

  lemma HashedIsNumber(lines: seq<Line>)
    requires Hashed(lines)
    ensures Renumber(lines) == Number(Texts(lines)) && AllFree(Texts(lines), LF)
  {
    hide HashOf, Free;
  }

  /** The written file reads back as the edited lines, renumbered from 1 with fresh hashes, exactly
      when a line is left and no line text ends in a carriage return. (Deleting every line writes a
      lone line feed, which reads as one empty line.) */
  lemma EditedFileReadsBack(lines: seq<Line>)
    requires Hashed(lines)
    ensures FileLines(FileOf(lines)) == Renumber(lines) <==> lines != [] && NoneEndsIn(Texts(lines), CR)
  {
    hide HashOf;
    HashedIsNumber(lines);
    if lines == [] {
      SplitStep([LF], 0, LF, CR);
      assert |FileLines(FileOf(lines))| >= 1;
    } else {
      ParsePrint(Texts(lines));
      NumberKeepsTexts(TextLines(FileOf(lines)), Texts(lines));
    }
  }

  lemma NumberKeepsTexts(a: seq<seq<byte>>, b: seq<seq<byte>>)
    ensures Texts(Number(a)) == a
    ensures Number(a) == Number(b) ==> a == b
  {
    assert Texts(Number(a)) == a && Texts(Number(b)) == b;
  }

  /** An accepted edit leaves a file that reads back as the simultaneous replacement of the lines
      that were read from it. */
  lemma EditThenRead(bytes: seq<byte>, requests: seq<HunkRequest>, hunks: seq<Hunk>)
    requires Editable(bytes, requests, hunks) && AllInFile(FileLines(bytes), hunks)
    ensures
      var out := Replace(FileLines(bytes), hunks, 0);
      FileLines(FileOf(out)) == Renumber(out) <==> out != [] && NoneEndsIn(Texts(out), CR)
  {
    FileLinesHashed(bytes);
    ReplaceHashed(FileLines(bytes), hunks, 0);
    EditedFileReadsBack(Replace(FileLines(bytes), hunks, 0));
  }

  // ---------------------------------------------------------------------------------------------
  // A client that reads a page and edits what it saw

  /** A replacement a client asks for: rows of the page it read, counted from zero, and the new text. */
  datatype Wish = Wish(first: nat, last: nat, content: seq<byte>)

  /** The request, its anchors copied out of the bytes of the page. */
  function RequestFrom(rows: seq<seq<byte>>, w: Wish): HunkRequest
    requires w.first <= w.last < |rows|
  {
    HunkRequest(AnchorIn(rows[w.first]), if w.first == w.last then [] else AnchorIn(rows[w.last]), Some(w.content))
  }

  ghost predicate Fit(wishes: seq<Wish>, n: nat) {
    forall k :: 0 <= k < |wishes| ==> wishes[k].first <= wishes[k].last < n
  }

  ghost predicate Apart(wishes: seq<Wish>) {
    forall i, j :: 0 <= i < j < |wishes| ==> wishes[i].last < wishes[j].first || wishes[j].last < wishes[i].first
  }

  /** The hunk of a wish about a page that starts at line index `from`. */
  function HunkOf(lines: seq<Line>, from: nat, w: Wish): Hunk
    requires w.first <= w.last && from + w.last < |lines|
  {
    var first, last := from + w.first, from + w.last;
    if first == last then Hunk(first + 1, lines[first].hash, 0, [], w.content)
    else Hunk(first + 1, lines[first].hash, last + 1, lines[last].hash, w.content)
  }

  function HunksOf(lines: seq<Line>, from: nat, wishes: seq<Wish>): (r: seq<Hunk>)
    requires from <= |lines| && Fit(wishes, |lines| - from)
    ensures |r| == |wishes| && forall k :: 0 <= k < |wishes| ==> r[k] == HunkOf(lines, from, wishes[k])
  {
    seq(|wishes|, k requires 0 <= k < |wishes| => HunkOf(lines, from, wishes[k]))
  }

  lemma RequestDescribes(bytes: seq<byte>, from: nat, to: nat, w: Wish)
    requires from <= to <= |FileLines(bytes)| <= 2147483647 && w.first <= w.last < to - from
    ensures
      var rows := PageRows(Rows(FileLines(bytes)[from..to], true));
      |rows| == to - from && ParseRequest(RequestFrom(rows, w)) == Good(HunkOf(FileLines(bytes), from, w))
  {
    hide HashOf, Split, HashedRow, PlainRow, Rows, RawLines, IsAnchor, AnchorIn, ParseRequest;
    var lines := FileLines(bytes);
    var rows := PageRows(Rows(lines[from..to], true));
    FilePageReads(bytes, from, to);
    var i, j := from + w.first, from + w.last;
    assert HashedRow(rows[w.first], i + 1, lines[i].hash, lines[i].text);
    assert HashedRow(rows[w.last], j + 1, lines[j].hash, lines[j].text);
    AnchorOfRow(rows[w.first], i + 1, lines[i].hash, lines[i].text);
    AnchorOfRow(rows[w.last], j + 1, lines[j].hash, lines[j].text);
    AnchorNotEmpty(AnchorIn(rows[w.last]), j + 1, lines[j].hash);
    RequestExact(RequestFrom(rows, w), HunkOf(lines, from, w));
  }

  lemma AnchorNotEmpty(a: seq<byte>, line: int, hash: seq<byte>)
    requires IsAnchor(a, line, hash)
    ensures a != []
  {
  }

  lemma WishesAcceptable(lines: seq<Line>, from: nat, wishes: seq<Wish>)
    requires from <= |lines| && wishes != [] && Fit(wishes, |lines| - from) && Apart(wishes)
    ensures Acceptable(lines, HunksOf(lines, from, wishes)) && AllInFile(lines, HunksOf(lines, from, wishes))
  {
    var hunks := HunksOf(lines, from, wishes);
    forall k | 0 <= k < |hunks| ensures AnchorsMatch(lines, hunks[k]) {
      assert hunks[k] == HunkOf(lines, from, wishes[k]);
    }
  }

  // The texts that come out

  /** From line index `i` on: the old texts up to the first wish, its new lines, and so on. */
  function Patched(texts: seq<seq<byte>>, from: nat, wishes: seq<Wish>, i: nat): seq<seq<byte>>
    requires i <= |texts| && TopDown(wishes, from, i, |texts|)
    decreases |wishes|
  {
    if wishes == [] then texts[i..]
    else
      texts[i..from + wishes[0].first] + TextLines(wishes[0].content)
      + Patched(texts, from, wishes[1..], from + wishes[0].last + 1)
  }

  /** The wishes stand in the order of their rows, apart, from line index `i` to `n`. */
  predicate TopDown(wishes: seq<Wish>, from: nat, i: nat, n: nat) {
    wishes == [] ||
    (i <= from + wishes[0].first <= from + wishes[0].last < n
     && TopDown(wishes[1..], from, from + wishes[0].last + 1, n))
  }

  lemma {:induction false} TopDownFits(wishes: seq<Wish>, from: nat, i: nat, n: nat)
    requires TopDown(wishes, from, i, n) && from <= n
    ensures Fit(wishes, n - from) && forall k :: 0 <= k < |wishes| ==> i <= from + wishes[k].first
  {
    if wishes != [] {
      TopDownFits(wishes[1..], from, from + wishes[0].last + 1, n);
      assert forall k :: 0 < k < |wishes| ==> wishes[k] == wishes[1..][k - 1];
    }
  }

  lemma PatchedStep(texts: seq<seq<byte>>, from: nat, wishes: seq<Wish>, i: nat)
    requires i <= |texts| && TopDown(wishes, from, i, |texts|)
    ensures
      if wishes == [] then Patched(texts, from, wishes, i) == texts[i..]
      else
        var w := wishes[0];
        && i <= from + w.first <= from + w.last < |texts|
        && TopDown(wishes[1..], from, from + w.last + 1, |texts|)
        && Patched(texts, from, wishes, i)
           == texts[i..from + w.first] + TextLines(w.content) + Patched(texts, from, wishes[1..], from + w.last + 1)
  {
    hide Split;
  }

  lemma TextsConcat(a: seq<Line>, b: seq<Line>)
    ensures Texts(a + b) == Texts(a) + Texts(b)
  {
  }

  lemma ContentTexts(h: Hunk)
    ensures Texts(ContentLines(h)) == TextLines(h.content)
  {
    hide HashOf, Split;
  }

  lemma {:induction false} ReplaceIsPatched(lines: seq<Line>, from: nat, wishes: seq<Wish>, i: nat)
    requires from <= |lines| && i <= |lines| && TopDown(wishes, from, i, |lines|) && Fit(wishes, |lines| - from)
    requires AllInFile(lines, HunksOf(lines, from, wishes))
    ensures Texts(Replace(lines, HunksOf(lines, from, wishes), i)) == Patched(Texts(lines), from, wishes, i)
    decreases |wishes|
  {
    hide ContentLines, HashOf, Split, Replace, HunkOf, HunksOf, Texts, AllInFile, InFile, Fit, End, Patched, TopDown;
    PatchedStep(Texts(lines), from, wishes, i);
    if wishes == [] {
      ReplaceNothing(lines, i);
      assert HunksOf(lines, from, wishes) == [];
    } else {
      var w, next := wishes[0], from + wishes[0].last + 1;
      TopDownFits(wishes[1..], from, next, |lines|);
      var h, rest := HunkOf(lines, from, w), HunksOf(lines, from, wishes[1..]);
      HunkRange(lines, from, w);
      HunksCons(lines, from, wishes);
      RestBelow(lines, from, wishes);
      ReplaceHead(lines, h, rest, i);
      ReplaceIsPatched(lines, from, wishes[1..], next);
      HeadTexts(lines, h, i, from + w.first, Replace(lines, rest, next));
    }
  }

  lemma HunksCons(lines: seq<Line>, from: nat, wishes: seq<Wish>)
    requires from <= |lines| && wishes != [] && Fit(wishes, |lines| - from) && Fit(wishes[1..], |lines| - from)
    ensures HunksOf(lines, from, wishes) == [HunkOf(lines, from, wishes[0])] + HunksOf(lines, from, wishes[1..])
  {
    hide HunkOf;
  }

  lemma HunkRange(lines: seq<Line>, from: nat, w: Wish)
    requires w.first <= w.last && from + w.last < |lines|
    ensures
      var h := HunkOf(lines, from, w);
      InFile(lines, h) && h.startLine == from + w.first + 1 && End(h) == from + w.last + 1 && h.content == w.content
  {
  }

  lemma RestBelow(lines: seq<Line>, from: nat, wishes: seq<Wish>)
    requires from <= |lines| && wishes != [] && Fit(wishes, |lines| - from) && Fit(wishes[1..], |lines| - from)
    requires forall k :: 0 <= k < |wishes[1..]| ==> from + wishes[0].last + 1 <= from + wishes[1..][k].first
    ensures
      var rest := HunksOf(lines, from, wishes[1..]);
      AllInFile(lines, rest) && forall g :: g in rest ==> from + wishes[0].last + 1 < g.startLine
  {
    hide HunkOf;
    var rest := HunksOf(lines, from, wishes[1..]);
    forall k | 0 <= k < |rest|
      ensures InFile(lines, rest[k]) && from + wishes[0].last + 1 < rest[k].startLine
    {
      HunkRange(lines, from, wishes[1..][k]);
    }
  }

  lemma ReplaceNothing(lines: seq<Line>, i: nat)
    requires i <= |lines|
    ensures Texts(Replace(lines, [], i)) == Texts(lines)[i..]
  {
    ReplaceCopies(lines, [], i, |lines|);
    assert lines[i..|lines|] + [] == lines[i..];
  }

  lemma HeadTexts(lines: seq<Line>, h: Hunk, i: nat, at: nat, tail: seq<Line>)
    requires i <= at <= |lines|
    ensures Texts(lines[i..at] + (ContentLines(h) + tail)) == Texts(lines)[i..at] + TextLines(h.content) + Texts(tail)
  {
    hide ContentLines, Split;
    ContentTexts(h);
    TextsConcat(ContentLines(h), tail);
    TextsConcat(lines[i..at], ContentLines(h) + tail);
    assert Texts(lines[i..at]) == Texts(lines)[i..at];
    assert Texts(lines)[i..at] + (TextLines(h.content) + Texts(tail))
      == Texts(lines)[i..at] + TextLines(h.content) + Texts(tail);
  }

  /** The topmost hunk: the lines above it, its content, and the rest below its range. */
  lemma ReplaceHead(lines: seq<Line>, h: Hunk, rest: seq<Hunk>, i: nat)
    requires InFile(lines, h) && AllInFile(lines, rest) && i < h.startLine
    requires forall g :: g in rest ==> End(h) < g.startLine
    ensures AllInFile(lines, [h] + rest)
    ensures Replace(lines, [h] + rest, i)
         == lines[i..h.startLine - 1] + (ContentLines(h) + Replace(lines, rest, End(h)))
  {
    hide ContentLines;
    var hunks := [h] + rest;
    assert hunks[1..] == rest;
    assert forall k :: 0 < k < |hunks| ==> hunks[k] == rest[k - 1];
    ReplaceCopies(lines, hunks, i, h.startLine - 1);
    ReplaceAgrees(lines, hunks, rest, End(h));
    assert Replace(lines, hunks, h.startLine - 1) == ContentLines(h) + Replace(lines, hunks, End(h));
  }

  /** A list of wishes and its hunks, with one wish and its hunk taken out. */
  lemma TakeOut(lines: seq<Line>, from: nat, a: seq<Wish>, p: nat) returns (c: seq<Wish>)
    requires from <= |lines| && Fit(a, |lines| - from) && p < |a|
    ensures |c| == |a| - 1 && Fit(c, |lines| - from) && multiset(a) == multiset(c) + multiset{a[p]}
    ensures a[p].first <= a[p].last < |lines| - from
    ensures multiset(HunksOf(lines, from, a)) == multiset(HunksOf(lines, from, c)) + multiset{HunkOf(lines, from, a[p])}
  {
    hide HunkOf;
    c := a[..p] + a[p + 1..];
    var y := HunksOf(lines, from, a);
    assert a == a[..p] + [a[p]] + a[p + 1..];
    assert HunksOf(lines, from, c) == y[..p] + y[p + 1..];
    assert y == y[..p] + [y[p]] + y[p + 1..];
  }

  lemma Cancels<T>(a: multiset<T>, b: multiset<T>, x: T)
    requires a + multiset{x} == b + multiset{x}
    ensures a == b
  {
    assert a == (a + multiset{x}) - multiset{x} && b == (b + multiset{x}) - multiset{x};
  }

  lemma {:induction false} HunksPermuted(lines: seq<Line>, from: nat, a: seq<Wish>, b: seq<Wish>)
    requires from <= |lines| && Fit(a, |lines| - from) && Fit(b, |lines| - from) && multiset(a) == multiset(b)
    ensures multiset(HunksOf(lines, from, a)) == multiset(HunksOf(lines, from, b))
    decreases |a|
  {
    hide HunkOf, HunksOf, Fit;
    SameLength(a, b);
    if a == [] {
      assert a == b;
    } else {
      var p := PlaceOf(a, b);
      var c := TakeOut(lines, from, a, 0);
      var d := TakeOut(lines, from, b, p);
      Cancels(multiset(c), multiset(d), a[0]);
      HunksPermuted(lines, from, c, d);
    }
  }

  lemma PlaceOf(a: seq<Wish>, b: seq<Wish>) returns (p: nat)
    requires a != [] && multiset(a) == multiset(b)
    ensures p < |b| && b[p] == a[0]
  {
    assert a[0] in multiset(b);
    p :| p < |b| && b[p] == a[0];
  }

  /** A client reads a page of a file and asks for any disjoint ranges of its rows to be replaced, in
      any order, with anchors copied from the bytes of the page. If the file is unchanged the edit goes
      through, as the hunks of those very lines. */
  lemma ReadThenEdit(bytes: seq<byte>, from: nat, to: nat, page: seq<byte>, wishes: seq<Wish>,
      requests: seq<HunkRequest>)
    requires !LooksBinary(bytes) && from <= to <= |FileLines(bytes)| <= 2147483647
    requires page == Rows(FileLines(bytes)[from..to], true)
    requires wishes != [] && Fit(wishes, to - from) && Apart(wishes)
    requires |PageRows(page)| == to - from ==>
      |requests| == |wishes| && forall k :: 0 <= k < |wishes| ==> requests[k] == RequestFrom(PageRows(page), wishes[k])
    ensures |PageRows(page)| == to - from
    ensures forall hunks :: Editable(bytes, requests, hunks) <==> hunks == HunksOf(FileLines(bytes), from, wishes)
  {
    hide HashOf, Split, ParseRequest, RequestFrom, LooksBinary, HashedRow, PlainRow, Acceptable, AllInFile, Rows,
         RawLines, HunkOf;
    FilePageReads(bytes, from, to);
    var hunks := HunksOf(FileLines(bytes), from, wishes);
    forall k | 0 <= k < |wishes| ensures ParseRequest(requests[k]) == Good(hunks[k]) {
      RequestDescribes(bytes, from, to, wishes[k]);
    }
    WishesAcceptable(FileLines(bytes), from, wishes);
    assert Editable(bytes, requests, hunks);
    forall other | Editable(bytes, requests, other) ensures other == hunks {
      ParsesUnique(requests, hunks, other);
    }
  }

  /** And the file then written is the old lines with the new ones in place of those ranges, or a lone
      line feed when no line is left. */
  lemma WishesWritten(bytes: seq<byte>, from: nat, wishes: seq<Wish>, topDown: seq<Wish>)
    requires from <= |FileLines(bytes)| && wishes != [] && Fit(wishes, |FileLines(bytes)| - from) && Apart(wishes)
    requires multiset(topDown) == multiset(wishes) && TopDown(topDown, from, 0, |TextLines(bytes)|)
    ensures
      var hunks, texts := HunksOf(FileLines(bytes), from, wishes), Patched(TextLines(bytes), from, topDown, 0);
      && AllInFile(FileLines(bytes), hunks)
      && FileOf(Replace(FileLines(bytes), hunks, 0)) == if texts == [] then [10] else Unlines(texts, 10)
  {
    hide HashOf, Split, Acceptable, AllInFile, HunkOf, TopDown, Patched, Replace, Unlines;
    var lines := FileLines(bytes);
    WishesAcceptable(lines, from, wishes);
    TopDownFits(topDown, from, 0, |lines|);
    HunksPermuted(lines, from, wishes, topDown);
    ReplacePermuted(lines, HunksOf(lines, from, wishes), HunksOf(lines, from, topDown), 0);
    ReplaceIsPatched(lines, from, topDown, 0);
    assert Texts(lines) == TextLines(bytes);
  }

  /** If the line a hunk starts at has, in normal form, one byte other than the line its anchor was
      made from, the batch is refused and (EditTarget.Execute) the file keeps every byte. */
  lemma OneByteMakesStale(bytes: seq<byte>, requests: seq<HunkRequest>, hunks: seq<Hunk>, p: nat,
      seen: seq<byte>, k: nat)
    requires Parses(requests, hunks) && p < |hunks|
    requires hunks[p].startHash == HashOf(seen)
    requires 0 < hunks[p].startLine <= |FileLines(bytes)|
    requires OneByteApart(Normalized(FileLines(bytes)[hunks[p].startLine - 1].text), Normalized(seen), k)
    ensures forall other :: !Editable(bytes, requests, other)
  {
    hide HashOf, Normalized, ParseRequest, OneByteApart, Split;
    var lines := FileLines(bytes);
    HashDetectsOneByte(lines[hunks[p].startLine - 1].text, seen, k);
    forall other ensures !Editable(bytes, requests, other) {
      if Parses(requests, other) {
        ParsesUnique(requests, hunks, other);
        assert !AnchorsMatch(lines, hunks[p]);
      }
    }
  }

  /** The same for the line a longer range ends at. */
  lemma OneByteMakesEndStale(bytes: seq<byte>, requests: seq<HunkRequest>, hunks: seq<Hunk>, p: nat,
      seen: seq<byte>, k: nat)
    requires Parses(requests, hunks) && p < |hunks|
    requires End(hunks[p]) != hunks[p].startLine && hunks[p].endHash == HashOf(seen)
    requires 0 < End(hunks[p]) <= |FileLines(bytes)|
    requires OneByteApart(Normalized(FileLines(bytes)[End(hunks[p]) - 1].text), Normalized(seen), k)
    ensures forall other :: !Editable(bytes, requests, other)
  {
    hide HashOf, Normalized, ParseRequest, OneByteApart, Split;
    var lines := FileLines(bytes);
    HashDetectsOneByte(lines[End(hunks[p]) - 1].text, seen, k);
    forall other ensures !Editable(bytes, requests, other) {
      if Parses(requests, other) {
        ParsesUnique(requests, hunks, other);
        assert !AnchorsMatch(lines, hunks[p]);
      }
    }
  }
}
