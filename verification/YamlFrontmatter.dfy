/** The frontmatter of a SKILL.md file: a parser for a small part of YAML. */
module YamlFrontmatter {
  import opened Lines

  const LF := '\n'
  const CR := '\r'

  /** The UTF-8 byte order mark, one character a byte. */
  const BOM := ['\U{EF}', '\U{BB}', '\U{BF}']

  /** std::isspace in the C locale. */
  predicate IsSpace(c: char) { c == ' ' || '\t' <= c <= '\r' }

  function TrimLeft(s: string): string { if s != [] && IsSpace(s[0]) then TrimLeft(s[1..]) else s }

  function TrimRight(s: string): string { if s != [] && IsSpace(s[|s| - 1]) then TrimRight(s[..|s| - 1]) else s }

  function Trim(s: string): string { TrimRight(TrimLeft(s)) }

  predicate Wrapped(s: string, q: char) { |s| >= 2 && s[0] == q && s[|s| - 1] == q }

  function Unquote(s: string): string {
    var t := Trim(s);
    if Wrapped(t, '"') || Wrapped(t, '\'') then t[1..|t| - 1] else t
  }

  function IndentOf(line: string): nat {
    if line == [] then 0
    else if line[0] == ' ' then 1 + IndentOf(line[1..])
    else if line[0] == '\t' then 2 + IndentOf(line[1..])
    else 0
  }

  datatype Field = Str(text: string) | List(items: seq<string>) | Map(entries: map<string, string>)

  type Fields = map<string, Field>

  datatype Mode = Top | InMap | InList

  datatype State = State(fields: Fields, currentKey: string, mode: Mode)

  const START := State(map[], [], Top)

  function PushItem(fields: Fields, key: string, item: string): Fields {
    if key in fields && fields[key].List? then fields[key := List(fields[key].items + [item])]
    else fields[key := List([item])]
  }

  function SetEntry(fields: Fields, key: string, k: string, v: string): Fields {
    if key in fields && fields[key].Map? then fields[key := Map(fields[key].entries[k := v])]
    else fields[key := Map(map[k := v])]
  }

  /** What one line does. */
  function Next(st: State, line: string): State {
    var trimmed := Trim(line);
    if trimmed == [] || trimmed[0] == '#' then st
    else if |trimmed| >= 2 && trimmed[0] == '-' && trimmed[1] == ' ' then
      if st.currentKey == [] then st
      else State(PushItem(st.fields, st.currentKey, Unquote(trimmed[2..])), st.currentKey, InList)
    else
      var colon := IndexOf(trimmed, ':');
      if colon == |trimmed| then st
      else
        var key, value := Trim(trimmed[..colon]), Trim(trimmed[colon + 1..]);
        if IndentOf(line) > 0 && st.currentKey != [] && st.mode == InMap then
          st.(fields := SetEntry(st.fields, st.currentKey, key, Unquote(value)))
        else if value == [] then State(st.fields, key, InMap)
        else State(st.fields[key := Str(Unquote(value))], key, Top)
  }

  function Fold(st: State, lines: seq<string>): State
    decreases |lines|
  {
    if lines == [] then st else Fold(Next(st, lines[0]), lines[1..])
  }

  predicate StartsWith(s: string, p: string) { |p| <= |s| && s[..|p|] == p }

  /** Where the first line feed with three dashes behind it stands, or `|s|`. */
  function FindClosing(s: string): (i: nat)
    ensures i <= |s| && (i < |s| ==> i + 4 <= |s|)
  {
    if s == [] then 0
    else if StartsWith(s, "\n---") then 0
    else 1 + FindClosing(s[1..])
  }

  function SkipBreaks(s: string): string {
    if s != [] && (s[0] == LF || s[0] == CR) then SkipBreaks(s[1..]) else s
  }

  datatype Parsed = NoFrontmatter | Unclosed | Frontmatter(fields: Fields, body: string)

  function WithoutBom(content: string): string { if StartsWith(content, BOM) then content[3..] else content }

  /** The text behind the line that closes the frontmatter. */
  function BodyAfter(rest: string): string {
    var i := IndexOf(rest, LF);
    if i == |rest| then [] else SkipBreaks(rest[i + 1..])
  }

  function Parse(content: string): Parsed {
    var text := WithoutBom(content);
    if !StartsWith(text, "---") then NoFrontmatter
    else
      var closing := FindClosing(text[3..]);
      if closing == |text[3..]| then Unclosed
      else Frontmatter(Fold(START, Split(text[3..][..closing], LF, CR)).fields, BodyAfter(text[3..][closing + 4..]))
  }

  // ---------------------------------------------------------------------------------------------
  // The parser

  /** The body of the line loop. */
  method ReadLine(st: State, line: string) returns (r: State)
    ensures r == Next(st, line)
  {
    r := st;
    var trimmed := Trim(line);
    if trimmed == [] {
      return;
    }
    var indent := IndentOf(line);
    if trimmed[0] == '#' {
      return;
    }
    if |trimmed| >= 2 && trimmed[0] == '-' && trimmed[1] == ' ' {
      var item := Unquote(trimmed[2..]);
      if st.currentKey == [] {
        return;
      }
      r := r.(fields := PushItem(st.fields, st.currentKey, item), mode := InList);
      return;
    }
    var colon := IndexOf(trimmed, ':');
    if colon == |trimmed| {
      return;
    }
    var key := Trim(trimmed[..colon]);
    var value := Trim(trimmed[colon + 1..]);
    if indent > 0 && st.currentKey != [] && st.mode == InMap {
      r := r.(fields := SetEntry(st.fields, st.currentKey, key, Unquote(value)));
      return;
    }
    r := r.(currentKey := key);
    if value == [] {
      r := r.(mode := InMap);
      return;
    }
    r := r.(mode := Top, fields := r.fields[key := Str(Unquote(value))]);
  }

  /** The first line of a text is read first. */
  lemma FoldStep(st: State, s: string)
    requires s != []
    ensures
      var n := IndexOf(s, LF);
      Fold(st, Split(s, LF, CR)) ==
        Fold(Next(st, StripLast(s[..n], CR)), if n < |s| then Split(s[n + 1..], LF, CR) else [])
  {
    hide Next, Split, Fold, StripLast;
    var n := IndexOf(s, LF);
    SplitStep(s, n, LF, CR);
    FoldCons(st, StripLast(s[..n], CR), if n < |s| then Split(s[n + 1..], LF, CR) else []);
  }

  lemma FoldNone(st: State)
    ensures Fold(st, []) == st && Fold(st, Split([], LF, CR)) == st
  {
    SplitNothing(LF, CR);
  }

  /** The line loop. */
  method ReadLines(yaml: string) returns (st: State)
    ensures st == Fold(START, Split(yaml, LF, CR))
  {
    hide Next, Split, Fold;
    st := START;
    var pos := 0;
    assert yaml[0..] == yaml;
    while pos < |yaml|
      invariant 0 <= pos <= |yaml|
      invariant Fold(START, Split(yaml, LF, CR)) == Fold(st, Split(yaml[pos..], LF, CR))
    {
      var n := IndexOf(yaml[pos..], LF);
      var line := yaml[pos..][..n];
      FoldStep(st, yaml[pos..]);
      if line != [] && line[|line| - 1] == CR {
        line := line[..|line| - 1];
      }
      st := ReadLine(st, line);
      if pos + n < |yaml| {
        assert yaml[pos..][n + 1..] == yaml[pos + n + 1..];
        pos := pos + n + 1;
      } else {
        pos := |yaml|;
      }
      assert yaml[|yaml|..] == [];
      FoldNone(st);
    }
    assert yaml[|yaml|..] == [];
    FoldNone(st);
  }

  method ParseYamlFrontmatter(content: string) returns (r: Parsed)
    ensures r == Parse(content)
  {
    hide Split, Fold;
    var text := content;
    if StartsWith(text, BOM) {
      text := text[3..];
    }
    if !StartsWith(text, "---") {
      return NoFrontmatter;
    }
    var rest := text[3..];
    var closing := FindClosing(rest);
    if closing == |rest| {
      return Unclosed;
    }
    var behind := rest[closing + 4..];
    var bodyStart := IndexOf(behind, LF);
    var body := if bodyStart == |behind| then [] else behind[bodyStart + 1..];
    while body != [] && (body[0] == LF || body[0] == CR)
      invariant SkipBreaks(body) == BodyAfter(behind)
      decreases |body|
    {
      body := body[1..];
    }
    var st := ReadLines(rest[..closing]);
    r := Frontmatter(st.fields, body);
  }

  lemma FoldCons(st: State, line: string, rest: seq<string>)
    ensures Fold(st, [line] + rest) == Fold(Next(st, line), rest)
  {
    assert ([line] + rest)[1..] == rest;
  }
}
