/** Whole documents: the frontmatter between its two lines of dashes, and the body behind it. */
module YamlDocument {
  import opened Lines
  import opened YamlFrontmatter
  import opened YamlRoundTrip

  datatype Eol = Unix | Dos

  /** What stands before the line feed. */
  function Mark(eol: Eol): string { if eol == Dos then [CR] else [] }

  function Ended(lines: seq<string>, eol: Eol): (r: seq<string>)
    ensures |r| == |lines| && forall k :: 0 <= k < |r| ==> r[k] == lines[k] + Mark(eol)
  {
    seq(|lines|, k requires 0 <= k < |lines| => lines[k] + Mark(eol))
  }

  function Document(lines: seq<string>, body: string, eol: Eol): string {
    Unlines(["---" + Mark(eol)] + Ended(lines, eol), LF) + "---" + Mark(eol) + [LF] + body
  }

  // ---------------------------------------------------------------------------------------------
  // The closing line

  lemma {:induction false} FindClosingLine(l: string, rest: string)
    requires Free(l, LF)
    ensures FindClosing(l + [LF] + rest) ==
      if StartsWith(rest, "---") then |l| else |l| + 1 + FindClosing(rest)
  {
    var s := l + [LF] + rest;
    if l == [] {
      assert s[1..] == rest;
      if |rest| >= 3 {
        assert s[..4] == [LF] + rest[..3];
        assert s[..4][1..] == rest[..3];
        assert "\n---"[1..] == "---";
      }
    } else {
      assert s[1..] == l[1..] + [LF] + rest;
      if |s| >= 4 {
        assert s[..4][0] == l[0];
      }
      FindClosingLine(l[1..], rest);
    }
  }

  /** A line that does not open with three dashes still does not when more follows it. */
  lemma NoDashes(l: string, rest: string)
    requires Free(l, LF) && !StartsWith(l, "---")
    ensures !StartsWith(l + [LF] + rest, "---")
  {
    var s := l + [LF] + rest;
    if |l| >= 3 {
      assert s[..3] == l[..3];
    } else if |s| >= 3 {
      assert s[..3][|l|] == LF;
    }
  }

  /** The first line of dashes after the first line closes the frontmatter. */
  lemma {:induction false} FindClosingLines(first: string, lines: seq<string>, rest: string)
    requires Free(first, LF) && AllFree(lines, LF) && StartsWith(rest, "---")
    requires forall k :: 0 <= k < |lines| ==> !StartsWith(lines[k], "---")
    ensures FindClosing(Unlines([first] + lines, LF) + rest) == |Unlines([first] + lines, LF)| - 1
    decreases |lines|
  {
    hide FindClosing, StartsWith;
    UnlinesCons(first, lines, LF);
    var more := Unlines(lines, LF) + rest;
    assert Unlines([first] + lines, LF) + rest == first + [LF] + more;
    FindClosingLine(first, more);
    if lines == [] {
      assert more == rest;
    } else {
      var l, ls := lines[0], lines[1..];
      assert lines == [l] + ls;
      assert forall k :: 0 <= k < |ls| ==> ls[k] == lines[k + 1];
      UnlinesCons(l, ls, LF);
      assert more == l + [LF] + (Unlines(ls, LF) + rest);
      NoDashes(l, Unlines(ls, LF) + rest);
      FindClosingLines(l, ls, rest);
    }
  }

  // ---------------------------------------------------------------------------------------------
  // The lines between

  /** Lines joined by line feeds, the last one not empty, split back into themselves. */
  lemma SplitJoined(lines: seq<string>, last: string)
    requires AllFree(lines, LF) && Free(last, LF) && last != []
    ensures Split(Unlines(lines, LF) + last, LF, CR) == StripEach(lines, CR) + [StripLast(last, CR)]
  {
    hide Split;
    SplitAfterLines(lines, last, LF, CR);
    assert last[..|last|] == last;
    SplitStep(last, |last|, LF, CR);
    assert [StripLast(last, CR)] + [] == [StripLast(last, CR)];
  }

  lemma StripMark(l: string, eol: Eol)
    requires l == [] || l[|l| - 1] != CR
    ensures StripLast(l + Mark(eol), CR) == l
  {
    assert l + [] == l;
  }

  lemma EndedFree(lines: seq<string>, eol: Eol)
    requires AllFree(lines, LF)
    ensures AllFree(Ended(lines, eol), LF)
  {
  }

  lemma SplitWithoutLast(lines: seq<string>)
    requires AllFree(lines, LF) && lines != [] && lines[|lines| - 1] != []
    ensures
      var text := Unlines(lines, LF);
      text != [] && Split(text[..|text| - 1], LF, CR) == StripEach(lines, CR)
  {
    hide Split;
    var n := |lines| - 1;
    var init, last := lines[..n], lines[n];
    assert lines == init + [last];
    UnlinesSnoc(init, last, LF);
    var text := Unlines(lines, LF);
    assert text[..|text| - 1] == Unlines(init, LF) + last;
    SplitJoined(init, last);
    forall k | 0 <= k <= n ensures StripEach(lines, CR)[k] == (StripEach(init, CR) + [StripLast(last, CR)])[k] {
      StripEachAt(lines, CR, k);
      if k < n {
        StripEachAt(init, CR, k);
      }
    }
  }

  /** Lines with their marks, stripped, are the lines. */
  lemma StripEnded(lines: seq<string>, eol: Eol)
    requires AllFront(lines)
    ensures StripEach(Ended(lines, eol), CR) == lines
  {
    hide Mark, StartsWith;
    forall k | 0 <= k < |lines| ensures StripEach(Ended(lines, eol), CR)[k] == lines[k] {
      StripEachAt(Ended(lines, eol), CR, k);
      assert FrontLine(lines[k]);
      StripMark(lines[k], eol);
    }
  }

  lemma StripEachCons(l: string, lines: seq<string>)
    ensures StripEach([l] + lines, CR) == [StripLast(l, CR)] + StripEach(lines, CR)
  {
    assert ([l] + lines)[1..] == lines;
  }

  lemma FrontFree(lines: seq<string>, eol: Eol)
    requires AllFront(lines)
    ensures AllFree(Ended(lines, eol), LF)
    ensures forall k :: 0 <= k < |lines| ==> Ended(lines, eol)[k] != []
  {
    hide StartsWith;
    forall k | 0 <= k < |lines| ensures Free(lines[k], LF) && lines[k] != [] {
      assert FrontLine(lines[k]);
    }
    EndedFree(lines, eol);
  }

  /** The frontmatter without its last line feed, cut into lines again. */
  lemma SplitFront(lines: seq<string>, eol: Eol)
    requires AllFront(lines) && lines != []
    ensures
      var text := Unlines([Mark(eol)] + Ended(lines, eol), LF);
      text != [] && Split(text[..|text| - 1], LF, CR) == [[]] + lines
  {
    hide Split, Mark, AllFront, Ended, StripEach, StripLast, Unlines, Free, AllFree, StartsWith;
    var ended := Ended(lines, eol);
    var all := [Mark(eol)] + ended;
    MarkFree(eol);
    FrontFree(lines, eol);
    AllFreeCons(Mark(eol), ended, LF);
    assert all[|all| - 1] == ended[|lines| - 1];
    SplitWithoutLast(all);
    StripMark([], eol);
    assert [] + Mark(eol) == Mark(eol);
    StripEachCons(Mark(eol), ended);
    StripEnded(lines, eol);
  }

  lemma MarkFree(eol: Eol)
    ensures Free(Mark(eol), LF) && !StartsWith(Mark(eol), "---")
  {
  }

  lemma SplitNoFront(eol: Eol)
    ensures Fold(START, Split(Mark(eol), LF, CR)) == START
  {
    SplitNothing(LF, CR);
    if eol == Dos {
      SplitStep([CR], 1, LF, CR);
      assert [CR][..1] == [CR];
      var blank: string := [];
      assert Split([CR], LF, CR) == [blank] + [];
      FoldCons(START, blank, []);
    }
  }

  /** The blank rest of the first line changes nothing. */
  lemma FoldFront(lines: seq<string>, eol: Eol)
    requires AllFront(lines)
    ensures
      var text := Unlines([Mark(eol)] + Ended(lines, eol), LF);
      text != [] && Fold(START, Split(text[..|text| - 1], LF, CR)) == Fold(START, lines)
  {
    hide Split, Mark;
    if lines == [] {
      UnlinesCons(Mark(eol), [], LF);
      var text := Unlines([Mark(eol)] + Ended(lines, eol), LF);
      assert [Mark(eol)] + Ended(lines, eol) == [Mark(eol)] + [];
      assert text == Mark(eol) + [LF];
      assert text[..|text| - 1] == Mark(eol);
      SplitNoFront(eol);
    } else {
      SplitFront(lines, eol);
      FoldCons(START, [], lines);
    }
  }

  // ---------------------------------------------------------------------------------------------
  // The body

  lemma BodyBehind(eol: Eol, body: string)
    ensures BodyAfter(Mark(eol) + [LF] + body) == SkipBreaks(body)
  {
    var s, n := Mark(eol) + [LF] + body, |Mark(eol)|;
    assert s[..n] == Mark(eol);
    IndexOfUnique(s, LF, n);
    assert s[n + 1..] == body;
  }

  /** Exactly the bodies that open with a line break lose something. */
  lemma SkipBreaksKeeps(body: string)
    ensures SkipBreaks(body) == body <==> body == [] || (body[0] != LF && body[0] != CR)
  {
    if body != [] && (body[0] == LF || body[0] == CR) {
      SkipBreaksShortens(body[1..]);
    }
  }

  lemma {:induction false} SkipBreaksShortens(body: string)
    ensures |SkipBreaks(body)| <= |body|
  {
    if body != [] {
      SkipBreaksShortens(body[1..]);
    }
  }

  // ---------------------------------------------------------------------------------------------
  // Printing and parsing

  /** The dashes, what lies between, and what stands behind the second dashes. */
  lemma DocumentParts(lines: seq<string>, body: string, eol: Eol)
    ensures
      var text := Document(lines, body, eol);
      && |text| >= 3 && text[0] == '-' && StartsWith(text, "---")
      && text[3..] == Unlines([Mark(eol)] + Ended(lines, eol), LF) + ("---" + (Mark(eol) + [LF] + body))
  {
    hide Mark, Ended;
    var text := Document(lines, body, eol);
    var front := Unlines([Mark(eol)] + Ended(lines, eol), LF);
    UnlinesCons("---" + Mark(eol), Ended(lines, eol), LF);
    UnlinesCons(Mark(eol), Ended(lines, eol), LF);
    assert text == "---" + front + "---" + (Mark(eol) + [LF] + body);
    assert text[..3] == "---";
  }

  /** Lines between two lines of dashes are read one by one; the body comes back without the line
      breaks in front of it. */
  lemma ParseDocument(lines: seq<string>, body: string, eol: Eol)
    requires AllFront(lines)
    ensures Parse(Document(lines, body, eol)) == Frontmatter(Fold(START, lines).fields, SkipBreaks(body))
  {
    hide Split, Mark, Fold, FindClosing, SkipBreaks, BodyAfter;
    hide Document, Ended, Unlines, StartsWith, WithoutBom, AllFront;
    var text := Document(lines, body, eol);
    var front := Unlines([Mark(eol)] + Ended(lines, eol), LF);
    var behind := Mark(eol) + [LF] + body;
    DocumentParts(lines, body, eol);
    var rest := text[3..];
    NotBom(text);
    ClosingAt(lines, eol, behind);
    FoldFront(lines, eol);
    assert rest[..|front| - 1] == front[..|front| - 1];
    assert rest[|front| + 3..] == behind;
    BodyBehind(eol, body);
  }

  lemma NotBom(text: string)
    requires text != [] && text[0] == '-'
    ensures WithoutBom(text) == text
  {
    if |text| >= 3 {
      assert text[..3][0] == '-' != BOM[0];
    }
  }

  lemma ClosingAt(lines: seq<string>, eol: Eol, behind: string)
    requires AllFront(lines)
    ensures
      var front := Unlines([Mark(eol)] + Ended(lines, eol), LF);
      FindClosing(front + ("---" + behind)) == |front| - 1
  {
    hide FindClosing;
    MarkFree(eol);
    var ended := Ended(lines, eol);
    assert ("---" + behind)[..3] == "---";
    forall k | 0 <= k < |ended| ensures Free(ended[k], LF) && !StartsWith(ended[k], "---") {
      assert FrontLine(lines[k]);
      assert ended[k] == lines[k] + Mark(eol);
      NoDashesMarked(lines[k], eol);
    }
    FindClosingLines(Mark(eol), ended, "---" + behind);
  }

  lemma NoDashesMarked(l: string, eol: Eol)
    requires !StartsWith(l, "---")
    ensures !StartsWith(l + Mark(eol), "---")
  {
    var s := l + Mark(eol);
    if |l| >= 3 {
      assert s[..3] == l[..3];
    } else if |s| >= 3 {
      assert s[..3][|l|] == CR;
    }
  }

  /** Printed entries come back: every key with its value, list or map, and no other key; the
      body whole unless it opens with a line break; the same for both line endings. */
  lemma ParsePrinted(entries: seq<Entry>, body: string, eol: Eol)
    requires GoodEntries(entries)
    ensures
      var p := Parse(Document(FrontLines(entries), body, eol));
      && p.Frontmatter?
      && HoldsExactly(p.fields, entries)
      && p.body == SkipBreaks(body)
      && (p.body == body <==> body == [] || (body[0] != LF && body[0] != CR))
      && p == Parse(Document(FrontLines(entries), body, Unix))
  {
    hide GoodEntry, Document, Parse, FrontLines, Fold, SkipBreaks, HoldsExactly, AddEntries;
    FrontLinesFront(entries);
    ParseDocument(FrontLines(entries), body, eol);
    ParseDocument(FrontLines(entries), body, Unix);
    EntriesAll(START, entries);
    AddEntriesExact(entries);
    SkipBreaksKeeps(body);
  }

  /** A byte order mark in front changes nothing, unless a second one follows it. */
  lemma BomIgnored(text: string)
    requires !StartsWith(text, BOM)
    ensures Parse(BOM + text) == Parse(text)
  {
    hide Fold, Split, FindClosing, BodyAfter;
    assert (BOM + text)[..3] == BOM && (BOM + text)[3..] == text;
  }
}
