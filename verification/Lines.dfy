/** Splitting a text into lines.

    Four places in the program cut a text at line feeds: ParseFile, the replacement content of a
    hunk, the pipe reader and std::getline in the frontmatter parser.  All four agree on one
    function, stated here for any alphabet: cut at every `lf`, drop one `cr` from the end of each
    line, and do not report an extra empty line after a final `lf`. */
module Lines {

  /** The index of the first `x` in `s`, or `|s|` when there is none. */
  function IndexOf<T(==)>(s: seq<T>, x: T): (i: nat)
    ensures i <= |s|
    ensures forall k :: 0 <= k < i ==> s[k] != x
    ensures i < |s| ==> s[i] == x
  {
    if s == [] || s[0] == x then 0 else 1 + IndexOf(s[1..], x)
  }

  /** `s` without one `x` at its end. */
  function StripLast<T(==)>(s: seq<T>, x: T): seq<T> {
    if s != [] && s[|s| - 1] == x then s[..|s| - 1] else s
  }

  function StripEach<T(==)>(lines: seq<seq<T>>, x: T): (r: seq<seq<T>>)
    ensures |r| == |lines|
  {
    if lines == [] then [] else [StripLast(lines[0], x)] + StripEach(lines[1..], x)
  }

  lemma StripEachAt<T>(lines: seq<seq<T>>, x: T, k: nat)
    requires k < |lines|
    ensures StripEach(lines, x)[k] == StripLast(lines[k], x)
  {
    if k > 0 {
      StripEachAt(lines[1..], x, k - 1);
    }
  }

  /** The pieces of `s` between line feeds, line endings otherwise kept. */
  function RawLines<T(==)>(s: seq<T>, lf: T): seq<seq<T>> {
    if s == [] then []
    else
      var i := IndexOf(s, lf);
      if i == |s| then [s] else [s[..i]] + RawLines(s[i + 1..], lf)
  }

  /** The lines of `s`. */
  function Split<T(==)>(s: seq<T>, lf: T, cr: T): seq<seq<T>> {
    if s == [] then []
    else
      var i := IndexOf(s, lf);
      if i == |s| then [StripLast(s, cr)]
      else [StripLast(s[..i], cr)] + Split(s[i + 1..], lf, cr)
  }

  /** Every line followed by a line feed. */
  function Unlines<T>(lines: seq<seq<T>>, lf: T): seq<T> {
    if lines == [] then [] else lines[0] + [lf] + Unlines(lines[1..], lf)
  }

  ghost predicate Free<T>(s: seq<T>, x: T) {
    forall k :: 0 <= k < |s| ==> s[k] != x
  }

  ghost predicate AllFree<T>(lines: seq<seq<T>>, x: T) {
    forall k :: 0 <= k < |lines| ==> Free(lines[k], x)
  }

  /** No line ends in `cr`, so stripping changes nothing. */
  ghost predicate NoneEndsIn<T>(lines: seq<seq<T>>, cr: T) {
    forall k :: 0 <= k < |lines| ==> lines[k] == [] || lines[k][|lines[k]| - 1] != cr
  }

  lemma IndexOfUnique<T>(s: seq<T>, x: T, i: nat)
    requires i <= |s| && Free(s[..i], x) && (i < |s| ==> s[i] == x)
    ensures IndexOf(s, x) == i
  {
    assert forall k :: 0 <= k < i ==> s[..i][k] == s[k];
  }

  /** One step of the split, at the line feed found at `i` or at the end. */
  lemma SplitStep<T>(s: seq<T>, i: nat, lf: T, cr: T)
    requires s != [] && i <= |s| && Free(s[..i], lf) && (i < |s| ==> s[i] == lf)
    ensures Split(s, lf, cr) == [StripLast(s[..i], cr)] + if i < |s| then Split(s[i + 1..], lf, cr) else []
  {
    IndexOfUnique(s, lf, i);
    assert s[..|s|] == s;
  }

  lemma SplitNothing<T>(lf: T, cr: T)
    ensures Split([], lf, cr) == []
  {
  }

  lemma SplitStripsRaw<T>(s: seq<T>, lf: T, cr: T)
    ensures Split(s, lf, cr) == StripEach(RawLines(s, lf), cr)
  {
    if s != [] {
      var i := IndexOf(s, lf);
      if i < |s| {
        SplitStripsRaw(s[i + 1..], lf, cr);
        var tail := RawLines(s[i + 1..], lf);
        assert ([s[..i]] + tail)[1..] == tail;
      }
    }
  }

  lemma AllFreeCons<T>(l: seq<T>, lines: seq<seq<T>>, x: T)
    requires Free(l, x) && AllFree(lines, x)
    ensures AllFree([l] + lines, x)
  {
  }

  lemma {:induction false} RawLinesFree<T>(s: seq<T>, lf: T)
    ensures AllFree(RawLines(s, lf), lf)
  {
    if s != [] {
      var i := IndexOf(s, lf);
      if i < |s| {
        RawLinesFree(s[i + 1..], lf);
        AllFreeCons(s[..i], RawLines(s[i + 1..], lf), lf);
      }
    }
  }

  lemma UnlinesCons<T>(l: seq<T>, lines: seq<seq<T>>, lf: T)
    ensures Unlines([l] + lines, lf) == l + [lf] + Unlines(lines, lf)
  {
    assert ([l] + lines)[1..] == lines;
  }

  lemma {:induction false} UnlinesConcat<T>(a: seq<seq<T>>, b: seq<seq<T>>, lf: T)
    ensures Unlines(a + b, lf) == Unlines(a, lf) + Unlines(b, lf)
  {
    if a == [] {
      assert a + b == b;
    } else {
      assert a + b == [a[0]] + (a[1..] + b);
      UnlinesCons(a[0], a[1..] + b, lf);
      UnlinesConcat(a[1..], b, lf);
    }
  }

  lemma UnlinesSnoc<T>(lines: seq<seq<T>>, l: seq<T>, lf: T)
    ensures Unlines(lines + [l], lf) == Unlines(lines, lf) + l + [lf]
  {
    UnlinesConcat(lines, [l], lf);
    assert [l] == [l] + [];
    UnlinesCons(l, [], lf);
  }

  /** Cutting loses nothing: the raw pieces, each followed by a line feed, give the text back, with
      one more line feed exactly when the text did not end in one. */
  lemma {:induction false} RawLinesExact<T>(s: seq<T>, lf: T)
    ensures Unlines(RawLines(s, lf), lf) == if s == [] || s[|s| - 1] == lf then s else s + [lf]
  {
    hide Unlines, RawLines, IndexOf;
    RawLinesStep(s, lf);
    UnlinesNothing(lf);
    if s != [] {
      var i := IndexOf(s, lf);
      if i == |s| {
        UnlinesCons(s, [], lf);
        assert [s] + [] == [s];
        assert s[|s| - 1] != lf;
        assert s + [lf] + [] == s + [lf];
      } else {
        var l, rest := s[..i], s[i + 1..];
        RawLinesExact(rest, lf);
        UnlinesCons(l, RawLines(rest, lf), lf);
        assert s == l + [lf] + rest;
        assert rest != [] ==> rest[|rest| - 1] == s[|s| - 1];
        assert l + [lf] + (rest + [lf]) == (l + [lf] + rest) + [lf];
      }
    }
  }

  lemma RawLinesStep<T>(s: seq<T>, lf: T)
    ensures
      var i := IndexOf(s, lf);
      RawLines(s, lf) == if s == [] then [] else if i == |s| then [s] else [s[..i]] + RawLines(s[i + 1..], lf)
  {
    hide IndexOf;
  }

  lemma UnlinesNothing<T>(lf: T)
    ensures Unlines([], lf) == []
  {
  }

  /** Splitting works front to back: printed lines come out first, stripped, then the rest. */
  lemma {:induction false} SplitAfterLines<T>(lines: seq<seq<T>>, rest: seq<T>, lf: T, cr: T)
    requires AllFree(lines, lf)
    ensures Split(Unlines(lines, lf) + rest, lf, cr) == StripEach(lines, cr) + Split(rest, lf, cr)
  {
    if lines == [] {
      assert Unlines(lines, lf) + rest == rest;
      assert StripEach(lines, cr) + Split(rest, lf, cr) == Split(rest, lf, cr);
    } else {
      var l := lines[0];
      var more := Unlines(lines[1..], lf) + rest;
      var s := Unlines(lines, lf) + rest;
      assert s == l + [lf] + more;
      assert s[..|l|] == l && s[|l| + 1..] == more;
      IndexOfUnique(s, lf, |l|);
      assert AllFree(lines[1..], lf) by {
        forall k | 0 <= k < |lines[1..]| ensures Free(lines[1..][k], lf) {
          assert lines[1..][k] == lines[k + 1];
        }
      }
      SplitAfterLines(lines[1..], rest, lf, cr);
      assert [StripLast(l, cr)] + (StripEach(lines[1..], cr) + Split(rest, lf, cr))
          == StripEach(lines, cr) + Split(rest, lf, cr);
    }
  }

  lemma StripNothing<T>(lines: seq<seq<T>>, cr: T)
    requires NoneEndsIn(lines, cr)
    ensures StripEach(lines, cr) == lines
  {
    forall k | 0 <= k < |lines| ensures StripEach(lines, cr)[k] == lines[k] {
      StripEachAt(lines, cr, k);
    }
  }

  /** Printing lines and splitting them again gives the same lines back exactly when no line ends
      in `cr`. */
  lemma SplitUnlines<T>(lines: seq<seq<T>>, lf: T, cr: T)
    requires AllFree(lines, lf)
    ensures Split(Unlines(lines, lf), lf, cr) == StripEach(lines, cr)
    ensures Split(Unlines(lines, lf), lf, cr) == lines <==> NoneEndsIn(lines, cr)
  {
    SplitAfterLines(lines, [], lf, cr);
    assert Unlines(lines, lf) + [] == Unlines(lines, lf);
    assert StripEach(lines, cr) + Split<T>([], lf, cr) == StripEach(lines, cr);
    if NoneEndsIn(lines, cr) {
      StripNothing(lines, cr);
    } else {
      var k :| 0 <= k < |lines| && lines[k] != [] && lines[k][|lines[k]| - 1] == cr;
      StripEachAt(lines, cr, k);
      assert |StripLast(lines[k], cr)| < |lines[k]|;
    }
  }

  /** No line a split returns contains a line feed. */
  lemma SplitFree<T>(s: seq<T>, lf: T, cr: T)
    ensures AllFree(Split(s, lf, cr), lf)
  {
    RawLinesFree(s, lf);
    SplitStripsRaw(s, lf, cr);
    var raw := RawLines(s, lf);
    forall k | 0 <= k < |raw| ensures Free(StripEach(raw, cr)[k], lf) {
      StripEachAt(raw, cr, k);
      assert Free(raw[k], lf);
    }
  }
}
