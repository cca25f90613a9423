/** Frontmatter lines and files of any shape, not only printed ones. */
module YamlLines {
  import opened Lines
  import opened YamlFrontmatter
  import opened YamlRoundTrip

  // ---------------------------------------------------------------------------------------------
  // Blanks and quotes

  predicate Blank(c: char) { c == ' ' || 9 <= c as int <= 13 }

  ghost predicate AllBlank(s: string) { forall k :: 0 <= k < |s| ==> Blank(s[k]) }

  ghost predicate Bare(s: string) { s != [] ==> !Blank(s[0]) && !Blank(s[|s| - 1]) }

  lemma {:induction false} TrimLeftDrops(front: string, s: string)
    requires AllBlank(front)
    ensures TrimLeft(front + s) == TrimLeft(s)
  {
    if front == [] {
      assert front + s == s;
    } else {
      assert (front + s)[1..] == front[1..] + s;
      TrimLeftDrops(front[1..], s);
    }
  }

  lemma {:induction false} TrimRightDrops(s: string, back: string)
    requires AllBlank(back)
    ensures TrimRight(s + back) == TrimRight(s)
  {
    if back == [] {
      assert s + back == s;
    } else {
      var n := |back| - 1;
      assert (s + back)[..|s| + n] == s + back[..n];
      TrimRightDrops(s, back[..n]);
    }
  }

  /** Trimming takes the blanks at both ends and nothing else. */
  lemma TrimExact(front: string, t: string, back: string)
    requires AllBlank(front) && Bare(t) && AllBlank(back)
    ensures Trim(front + t + back) == t
  {
    assert front + t + back == front + (t + back);
    TrimLeftDrops(front, t + back);
    if t == [] {
      assert t + back == back + [];
      TrimLeftDrops(back, []);
    } else {
      assert (t + back)[0] == t[0];
      TrimRightDrops(t, back);
    }
  }

  /** One pair of equal quotes around a trimmed text is taken off. */
  lemma UnquoteExact(front: string, t: string, back: string)
    requires AllBlank(front) && Bare(t) && AllBlank(back)
    ensures
      Unquote(front + t + back) ==
        if |t| >= 2 && t[0] == t[|t| - 1] && t[0] in {'"', '\''} then t[1..|t| - 1] else t
  {
    TrimExact(front, t, back);
  }

  // ---------------------------------------------------------------------------------------------
  // One line

  predicate Nested(front: string) { front != [] && (front[0] == ' ' || front[0] == '\t') }

  lemma IndentIs(front: string, t: string, back: string)
    requires AllBlank(front) && Bare(t) && t != []
    ensures IndentOf(front + t + back) > 0 <==> Nested(front)
  {
    var s := front + t + back;
    assert s[0] == if front == [] then t[0] else front[0];
  }

  /** Blank lines, comments, and lines without a colon that are no list items say nothing. */
  ghost predicate Silent(t: string) { t == [] || t[0] == '#' || (':' !in t && !IsItem(t)) }

  predicate IsItem(t: string) { |t| >= 2 && t[0] == '-' && t[1] == ' ' }

  lemma SilentLine(st: State, front: string, t: string, back: string)
    requires AllBlank(front) && Bare(t) && AllBlank(back) && Silent(t)
    ensures Next(st, front + t + back) == st
  {
    hide Trim, IndentOf, Unquote;
    TrimExact(front, t, back);
    assert IndexOf(t, ':') < |t| ==> t[IndexOf(t, ':')] in t;
  }

  /** Wherever such a line is put in, the frontmatter says what it said. */
  lemma SilentAnywhere(st: State, before: seq<string>, front: string, t: string, back: string, after: seq<string>)
    requires AllBlank(front) && Bare(t) && AllBlank(back) && Silent(t)
    ensures Fold(st, before + [front + t + back] + after) == Fold(st, before + after)
  {
    hide Next, Silent;
    var l := front + t + back;
    SilentLine(Fold(st, before), front, t, back);
    assert before + [l] + after == before + ([l] + after);
    FoldConcat(st, before, [l] + after);
    FoldCons(Fold(st, before), l, after);
    FoldConcat(st, before, after);
  }

  /** A list item is added to the list of the key above it, at any depth; if that key holds something
      else, a new list takes its place, and without a key the item is lost. */
  lemma ItemLineExact(st: State, front: string, t: string, back: string)
    requires AllBlank(front) && Bare(t) && AllBlank(back) && IsItem(t)
    ensures
      Next(st, front + t + back) ==
        if st.currentKey == [] then st
        else
          var key := st.currentKey;
          var items := if key in st.fields && st.fields[key].List? then st.fields[key].items else [];
          State(st.fields[key := List(items + [Unquote(t[2..])])], key, InList)
  {
    hide Trim, IndentOf, Unquote;
    TrimExact(front, t, back);
    var item := [Unquote(t[2..])];
    assert [] + item == item;
  }

  /** A line with a colon: under a key that opened a map, an indented one is an entry of that map;
      otherwise one without a value opens a map or a list, and one with a value is a field. */
  lemma KeyLineExact(st: State, front: string, k: string, v: string, back: string)
    requires AllBlank(front) && Bare(k + ":" + v) && AllBlank(back)
    requires ':' !in k && !Silent(k + ":" + v) && !IsItem(k + ":" + v)
    ensures
      Next(st, front + (k + ":" + v) + back) ==
        if Nested(front) && st.currentKey != [] && st.mode == InMap then
          var key := st.currentKey;
          var entries := if key in st.fields && st.fields[key].Map? then st.fields[key].entries else map[];
          st.(fields := st.fields[key := Map(entries[Trim(k) := Unquote(Trim(v))])])
        else if Trim(v) == [] then State(st.fields, Trim(k), InMap)
        else State(st.fields[Trim(k) := Str(Unquote(Trim(v)))], Trim(k), Top)
  {
    hide Trim, IndentOf, Unquote;
    var t := k + ":" + v;
    TrimExact(front, t, back);
    IndentIs(front, t, back);
    assert t[..|k|] == k && t[|k| + 1..] == v;
    assert forall i :: 0 <= i < |k| ==> k[i] in k;
    IndexOfUnique(t, ':', |k|);
  }

  // ---------------------------------------------------------------------------------------------
  // Whole files

  /** A line feed with three dashes behind it stands at `i`. */
  predicate Closes(s: string, i: nat) {
    i + 4 <= |s| && s[i] == '\n' && s[i + 1] == '-' && s[i + 2] == '-' && s[i + 3] == '-'
  }

  lemma ClosesStart(s: string)
    ensures StartsWith(s, "\n---") <==> Closes(s, 0)
  {
    var p := "\n---";
    if Closes(s, 0) {
      assert s[..4] == p;
    }
    if StartsWith(s, p) {
      assert s[..4][0] == p[0] && s[..4][1] == p[1] && s[..4][2] == p[2] && s[..4][3] == p[3];
    }
  }

  lemma {:induction false} FindClosingFirst(s: string)
    ensures
      var i := FindClosing(s);
      (i < |s| ==> Closes(s, i)) && forall k: nat :: k < i ==> !Closes(s, k)
  {
    hide StartsWith;
    if s != [] {
      ClosesStart(s);
      if !Closes(s, 0) {
        FindClosingFirst(s[1..]);
        forall k: nat | k < FindClosing(s) ensures !Closes(s, k) {
          assert k > 0 ==> (Closes(s, k) <==> Closes(s[1..], k - 1));
        }
      }
    }
  }

  /** The line breaks in front are dropped, all of them and nothing else. */
  lemma {:induction false} SkipBreaksExact(s: string) returns (n: nat)
    ensures n <= |s| && SkipBreaks(s) == s[n..]
    ensures forall k :: 0 <= k < n ==> s[k] == '\n' || s[k] == '\r'
    ensures n < |s| ==> s[n] != '\n' && s[n] != '\r'
  {
    n := 0;
    if s != [] && (s[0] == LF || s[0] == CR) {
      var m := SkipBreaksExact(s[1..]);
      n := m + 1;
      assert forall k :: 0 < k < |s| ==> s[k] == s[1..][k - 1];
    }
  }

  /** Which files have a frontmatter: three dashes first, perhaps behind a byte order mark, and a line
      that opens with three more; its lines are those before the first such line, and the body begins
      on the next line, whatever else the closing line holds. */
  lemma ParseExact(content: string)
    ensures
      var text := if |content| >= 3 && content[0] == '\U{EF}' && content[1] == '\U{BB}' && content[2] == '\U{BF}'
                  then content[3..] else content;
      var dashed := |text| >= 3 && text[0] == '-' && text[1] == '-' && text[2] == '-';
      && (Parse(content) == NoFrontmatter <==> !dashed)
      && (Parse(content) == Unclosed <==> dashed && forall i: nat :: i >= 3 ==> !Closes(text, i))
      && (Parse(content).Frontmatter? ==>
            exists i: nat ::
              && 3 <= i < |text| && Closes(text, i) && (forall k: nat :: 3 <= k < i ==> !Closes(text, k))
              && Parse(content).fields == Fold(START, Split(text[3..i], '\n', '\r')).fields
              && Parse(content).body == BodyAfter(text[i + 4..]))
  {
    hide Fold, Split, BodyAfter, FindClosing;
    BomStart(content);
    var text := WithoutBom(content);
    DashesStart(text);
    if StartsWith(text, "---") {
      var rest := text[3..];
      FindClosingFirst(rest);
      var c := FindClosing(rest);
      assert forall k: nat :: k + 3 <= |text| ==> (Closes(rest, k) <==> Closes(text, k + 3));
      assert forall k: nat :: k >= 3 ==> (Closes(text, k) ==> Closes(rest, k - 3));
      assert rest[..c] == text[3..c + 3];
      if c < |rest| {
        assert rest[c + 4..] == text[c + 3 + 4..];
        assert Closes(text, c + 3);
      }
    }
  }

  lemma BomStart(s: string)
    ensures StartsWith(s, BOM) <==> |s| >= 3 && s[0] == '\U{EF}' && s[1] == '\U{BB}' && s[2] == '\U{BF}'
  {
    if |s| >= 3 {
      assert s[..3] == [s[0], s[1], s[2]];
    }
  }

  lemma DashesStart(s: string)
    ensures StartsWith(s, "---") <==> |s| >= 3 && s[0] == '-' && s[1] == '-' && s[2] == '-'
  {
    if |s| >= 3 {
      assert s[..3] == [s[0], s[1], s[2]];
      assert "---" == ['-', '-', '-'];
    }
  }

  /** The body: nothing when the closing line is the last, and otherwise what follows it, less the line
      breaks in front. */
  lemma BodyExact(tail: string, rest: string)
    requires '\n' !in tail
    ensures BodyAfter(tail) == [] && BodyAfter(tail + ['\n'] + rest) == SkipBreaks(rest)
  {
    var s := tail + ['\n'] + rest;
    assert forall k :: 0 <= k < |tail| ==> tail[k] in tail;
    assert s[..|tail|] == tail && s[|tail| + 1..] == rest;
    IndexOfUnique(s, '\n', |tail|);
    assert tail[..|tail|] == tail;
    IndexOfUnique(tail, '\n', |tail|);
  }
}
