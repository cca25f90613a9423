/** Command skills: values are quoted for the shell, then put into the command template. */
module SkillShell {
  import opened SkillTemplate

  /** The value between its quotes; a quote in it closes, escapes itself and opens again. */
  function Body(v: string): string {
    if v == [] then [] else (if v[0] == '\'' then "'\\''" else [v[0]]) + Body(v[1..])
  }

  function Escaped(v: string): string { "'" + Body(v) + "'" }

  lemma {:induction false} BodySnoc(v: string, c: char)
    ensures Body(v + [c]) == Body(v) + (if c == '\'' then "'\\''" else [c])
  {
    if v == [] {
      assert [c][1..] == [];
    } else {
      assert (v + [c])[1..] == v[1..] + [c];
      BodySnoc(v[1..], c);
    }
  }

  /** The POSIX branch: appends character by character. */
  method ShellEscape(value: string) returns (escaped: string)
    ensures escaped == Escaped(value)
  {
    escaped := "'";
    for i := 0 to |value|
      invariant escaped == "'" + Body(value[..i])
    {
      assert value[..i + 1] == value[..i] + [value[i]];
      BodySnoc(value[..i], value[i]);
      if value[i] == '\'' {
        escaped := escaped + "'\\''";
      } else {
        escaped := escaped + [value[i]];
      }
    }
    assert value[..|value|] == value;
    escaped := escaped + "'";
  }

  // ---------------------------------------------------------------------------------------------
  // Cleaning and quoting commute

  lemma HalvePeel(x: char, s: string, c: char)
    requires x != c || s == [] || s[0] != c
    ensures Halve([x] + s, c) == [x] + Halve(s, c)
  {
    var t := [x] + s;
    assert t[1..] == s;
  }

  lemma {:induction false} HalveSnoc(s: string, x: char, c: char)
    requires x != c
    ensures Halve(s + [x], c) == Halve(s, c) + [x]
    decreases |s|
  {
    if s == [] {
      assert [x][1..] == [];
    } else if |s| > 1 && s[0] == c && s[1] == c {
      assert (s + [x])[2..] == s[2..] + [x];
      HalveSnoc(s[2..], x, c);
    } else {
      assert (s + [x])[1..] == s[1..] + [x];
      HalveSnoc(s[1..], x, c);
    }
  }

  lemma {:induction false} HalveBody(v: string, c: char)
    requires c != '\'' && c != '\\'
    ensures Halve(Body(v), c) == Body(Halve(v, c))
    decreases |v|
  {
    if v == [] {
    } else if |v| > 1 && v[0] == c && v[1] == c {
      HalveBody(v[2..], c);
      PairBody(v, c);
    } else {
      HalveBody(v[1..], c);
      var b, h := Body(v[1..]), Halve(v[1..], c);
      assert ([v[0]] + h)[1..] == h;
      if v[0] == '\'' {
        HalvePeel('\'', b, c);
        HalvePeel('\'', ['\''] + b, c);
        HalvePeel('\\', ['\''] + (['\''] + b), c);
        HalvePeel('\'', ['\\'] + (['\''] + (['\''] + b)), c);
        assert "'\\''" + b == ['\''] + (['\\'] + (['\''] + (['\''] + b)));
        assert "'\\''" + Halve(b, c) == ['\''] + (['\\'] + (['\''] + (['\''] + Halve(b, c))));
      } else {
        BodyHead(v[1..], c);
        HalvePeel(v[0], b, c);
      }
    }
  }

  lemma BodyHead(v: string, c: char)
    requires c != '\''
    ensures Body(v) != [] && Body(v)[0] == c ==> v != [] && v[0] == c
  {
  }

  lemma PairBody(v: string, c: char)
    requires |v| > 1 && v[0] == c && v[1] == c && c != '\''
    ensures Halve(Body(v), c) == Halve(Body(v[2..]), c)
  {
    var rest := Body(v[2..]);
    assert v[1..][1..] == v[2..];
    assert Body(v) == [c] + ([c] + rest);
    assert Body(v)[2..] == rest;
  }

  lemma HalveEscaped(v: string, c: char)
    requires c != '\'' && c != '\\'
    ensures Halve(Escaped(v), c) == Escaped(Halve(v, c))
  {
    HalveBody(v, c);
    HalveSnoc(Body(v), '\'', c);
    HalvePeel('\'', Body(v) + ['\''], c);
    assert Escaped(v) == ['\''] + (Body(v) + ['\'']);
  }

  /** Cleaning a quoted value is quoting the cleaned value, for every value. */
  lemma SanitizeEscapeCommute(v: string)
    ensures Sanitized(Escaped(v)) == Escaped(Sanitized(v))
  {
    HalveEscaped(v, '{');
    HalveEscaped(Halve(v, '{'), '}');
  }

  // ---------------------------------------------------------------------------------------------
  // What the shell reads

  /** Characters that stand for themselves outside quotes. */
  predicate Plain(c: char) { IsWord(c) || c in "-./:,+@" }

  predicate Blank(c: char) { c == ' ' || c == '\t' }

  datatype Words = Broken | Words(words: seq<string>)

  /** The words of a simple command (sections 2.2 and 2.3 of the POSIX.1-2017 Shell Command
      Language): `cur` holds the word being read, if one is. Any character that could mean more than
      itself, and an open quote at the end, make the command Broken. */
  function Lex(s: string, cur: seq<string>): Words
    decreases |s|
  {
    if s == [] then Words(cur)
    else if Blank(s[0]) then Then(cur, Lex(s[1..], []))
    else if s[0] == '\'' then Quoted(s[1..], Word(cur))
    else if s[0] == '\\' then
      if |s| == 1 || s[1] == '\n' then Broken else Lex(s[2..], [Word(cur) + [s[1]]])
    else if Plain(s[0]) then Lex(s[1..], [Word(cur) + [s[0]]])
    else Broken
  }

  /** Inside single quotes every character is literal (section 2.2.2). */
  function Quoted(s: string, word: string): Words
    decreases |s|
  {
    if s == [] then Broken
    else if s[0] == '\'' then Lex(s[1..], [word])
    else Quoted(s[1..], word + [s[0]])
  }

  function Word(cur: seq<string>): string { if cur == [] then [] else cur[0] }

  function Then(done: seq<string>, rest: Words): Words {
    if rest.Broken? then Broken else Words(done + rest.words)
  }

  lemma QuoteInside(more: string, word: string)
    ensures Quoted("'\\''" + more, word) == Quoted(more, word + ['\''])
  {
    var s3 := "'" + more;
    var s2 := "\\'" + s3;
    var s1 := "'\\''" + more;
    assert s1[1..] == s2 && s2[2..] == s3 && s3[1..] == more;
    assert Quoted(s1, word) == Lex(s2, [word]);
    assert Lex(s2, [word]) == Lex(s3, [word + ['\'']]);
  }

  lemma QuoteEnds(rest: string, word: string)
    ensures Quoted("'" + rest, word) == Lex(rest, [word])
  {
    assert ("'" + rest)[1..] == rest;
  }

  lemma QuoteTakes(c: char, more: string, word: string)
    requires c != '\''
    ensures Quoted([c] + more, word) == Quoted(more, word + [c])
  {
    assert ([c] + more)[1..] == more;
  }

  lemma BodyCons(v: string)
    ensures Body(v) == if v == [] then [] else (if v[0] == '\'' then "'\\''" else [v[0]]) + Body(v[1..])
  {
  }

  lemma {:induction false} BodyReads(v: string, rest: string, word: string)
    ensures Quoted(Body(v) + "'" + rest, word) == Lex(rest, [word + v])
    decreases |v|
  {
    hide Quoted, Lex, Body;
    BodyCons(v);
    if v == [] {
      assert Body(v) + "'" + rest == "'" + rest;
      QuoteEnds(rest, word);
      assert word + v == word;
    } else {
      var more := Body(v[1..]) + "'" + rest;
      assert word + v == word + [v[0]] + v[1..];
      BodyReads(v[1..], rest, word + [v[0]]);
      if v[0] == '\'' {
        assert Body(v) + "'" + rest == "'\\''" + more;
        QuoteInside(more, word);
      } else {
        assert Body(v) + "'" + rest == [v[0]] + more;
        QuoteTakes(v[0], more, word);
      }
    }
  }

  /** A quoted value, wherever it stands in a word, adds exactly its own characters to that word. */
  lemma EscapedReads(v: string, rest: string, cur: seq<string>)
    ensures Lex(Escaped(v) + rest, cur) == Lex(rest, [Word(cur) + v])
  {
    var s := Escaped(v) + rest;
    assert s[1..] == Body(v) + "'" + rest;
    BodyReads(v, rest, Word(cur));
  }

  /** On its own it is one word: the value. */
  lemma EscapedIsOneWord(v: string)
    ensures Lex(Escaped(v), []) == Words([v])
  {
    EscapedReads(v, [], []);
    assert Escaped(v) + [] == Escaped(v);
    assert Word([]) + v == v;
  }

  // ---------------------------------------------------------------------------------------------
  // From template to words

  /** String values are quoted; other JSON values go in as they are dumped. */
  function EscapedValue(v: Value): Value { if v.Text? then Text(Escaped(v.text)) else v }

  ghost function EscapedVariables(vars: Variables): Variables {
    map k | k in vars :: EscapedValue(vars[k])
  }

  method EscapeVariables(vars: Variables) returns (escaped: Variables)
    ensures escaped == EscapedVariables(vars) && escaped.Keys == vars.Keys
    ensures forall k :: k in vars ==>
      escaped[k] == if vars[k].Text? then Text(Escaped(vars[k].text)) else Dumped(vars[k].text)
  {
    escaped := map[];
    var todo := vars.Keys;
    while todo != {}
      invariant todo <= vars.Keys && escaped.Keys == vars.Keys - todo
      invariant forall k :: k in escaped ==> escaped[k] == EscapedValue(vars[k])
      decreases todo
    {
      var key :| key in todo;
      if vars[key].Text? {
        var e := ShellEscape(vars[key].text);
        escaped := escaped[key := Text(e)];
      } else {
        escaped := escaped[key := vars[key]];
      }
      todo := todo - {key};
    }
  }

  datatype Command = MissingVariable(name: string) | EmptyCommand | Run(command: string)

  /** The command a skill runs: escape, then render, then refuse an empty result. */
  method BuildCommand(required: seq<string>, templ: string, vars: Variables) returns (c: Command)
    ensures c.MissingVariable? <==> exists k :: 0 <= k < |required| && required[k] !in vars
    ensures c.MissingVariable? ==> exists k :: 0 <= k < |required| && required[k] == c.name && c.name !in vars
                                               && forall j :: 0 <= j < k ==> required[j] in vars
    ensures c.Run? ==> c.command != [] && c.command == Evaluate(Segments(templ), EscapedVariables(vars))
    ensures c.EmptyCommand? ==> Evaluate(Segments(templ), EscapedVariables(vars)) == []
  {
    var escaped := EscapeVariables(vars);
    var r := StaticRenderPrompt(required, templ, escaped);
    if r.Missing? {
      return MissingVariable(r.name);
    }
    if r.text == [] {
      return EmptyCommand;
    }
    return Run(r.text);
  }

  /** Where the shell stands between two characters: outside quotes, with the word begun there, if one is,
      or inside single quotes, with the word so far. */
  datatype Reading = Outside(cur: seq<string>) | Inside(word: string)

  function Resume(r: Reading, s: string): Words {
    match r
    case Outside(cur) => Lex(s, cur)
    case Inside(word) => Quoted(s, word)
  }

  /** Whether the shell is inside quotes behind `text`. */
  predicate QuotedBehind(text: string, quoted: bool) {
    if text == [] then quoted else QuotedBehind(text[1..], quoted != (text[0] == '\''))
  }

  function Quotes(text: string): nat {
    if text == [] then 0 else (if text[0] == '\'' then 1 else 0) + Quotes(text[1..])
  }

  /** Outside quotes plain characters, blanks and quotes; inside, any character. */
  predicate Readable(text: string, quoted: bool) {
    text == [] ||
    ((quoted || Plain(text[0]) || Blank(text[0]) || text[0] == '\'')
     && Readable(text[1..], quoted != (text[0] == '\'')))
  }

  /** Passing `text`: the words it completes, and where the shell stands behind it. */
  function Passed(text: string, r: Reading): (seq<string>, Reading)
    decreases |text|
  {
    if text == [] then ([], r)
    else
      match r
      case Inside(word) =>
        Passed(text[1..], if text[0] == '\'' then Outside([word]) else Inside(word + [text[0]]))
      case Outside(cur) =>
        if Blank(text[0]) then var p := Passed(text[1..], Outside([])); (cur + p.0, p.1)
        else Passed(text[1..], if text[0] == '\'' then Inside(Word(cur)) else Outside([Word(cur) + [text[0]]]))
  }

  lemma ThenThen(a: seq<string>, b: seq<string>, rest: Words)
    ensures Then(a, Then(b, rest)) == Then(a + b, rest) && Then([], rest) == rest
  {
    if rest.Words? {
      assert a + (b + rest.words) == a + b + rest.words && [] + rest.words == rest.words;
    }
  }

  lemma ResumeStep(r: Reading, c: char, more: string)
    requires r.Outside? ==> Plain(c) || Blank(c) || c == '\''
    ensures
      Resume(r, [c] + more) ==
        if r.Inside? then Resume(if c == '\'' then Outside([r.word]) else Inside(r.word + [c]), more)
        else if Blank(c) then Then(r.cur, Resume(Outside([]), more))
        else Resume(if c == '\'' then Inside(Word(r.cur)) else Outside([Word(r.cur) + [c]]), more)
  {
    assert ([c] + more)[1..] == more;
    assert !Plain('\'') && !Plain('\\') && !Plain(' ') && !Plain('\t');
  }

  /** The shell reads such a text character by character, whatever follows. */
  lemma {:induction false} TextReads(text: string, r: Reading, rest: string)
    requires Readable(text, r.Inside?)
    ensures Resume(r, text + rest) == Then(Passed(text, r).0, Resume(Passed(text, r).1, rest))
    ensures Passed(text, r).1.Inside? == QuotedBehind(text, r.Inside?)
    decreases |text|
  {
    hide Resume, Then;
    if text == [] {
      assert text + rest == rest;
      ThenThen([], [], Resume(r, rest));
    } else {
      var c, more := text[0], text[1..] + rest;
      assert text + rest == [c] + more;
      ResumeStep(r, c, more);
      BlankNoQuote(c);
      if r.Inside? {
        TextReads(text[1..], if c == '\'' then Outside([r.word]) else Inside(r.word + [c]), rest);
      } else if Blank(c) {
        TextReads(text[1..], Outside([]), rest);
        var p := Passed(text[1..], Outside([]));
        ThenThen(r.cur, p.0, Resume(p.1, rest));
      } else {
        TextReads(text[1..], if c == '\'' then Inside(Word(r.cur)) else Outside([Word(r.cur) + [c]]), rest);
      }
    }
  }

  lemma BlankNoQuote(c: char)
    ensures Blank(c) ==> c != '\''
  {
  }

  lemma {:induction false} QuotedByParity(text: string, quoted: bool)
    ensures QuotedBehind(text, quoted) <==> (Quotes(text) % 2 == 1) != quoted
    decreases |text|
  {
    if text != [] {
      QuotedByParity(text[1..], quoted != (text[0] == '\''));
    }
  }

  /** Behind any such text, a quoted value is one literal piece of the word it stands in when the number
      of quotes before it is even.  When it is odd, its first quote closes what the template opened, and
      the value itself is read as shell text. */
  lemma LiteralByParity(text: string, v: string, rest: string, cur: seq<string>)
    requires Readable(text, false)
    ensures
      var (done, r) := Passed(text, Outside(cur));
      && (r.Outside? <==> Quotes(text) % 2 == 0)
      && Lex(text + Escaped(v) + rest, cur) ==
           if Quotes(text) % 2 == 0 then Then(done, Lex(rest, [Word(r.cur) + v]))
           else Then(done, Lex(Body(v) + "'" + rest, [r.word]))
  {
    hide Lex, Quoted, Body, Passed, Readable, QuotedBehind, Quotes, Then;
    var (done, r) := Passed(text, Outside(cur));
    assert text + Escaped(v) + rest == text + (Escaped(v) + rest);
    TextReads(text, Outside(cur), Escaped(v) + rest);
    QuotedByParity(text, false);
    if r.Outside? {
      EscapedReads(v, rest, r.cur);
    } else {
      assert Escaped(v) + rest == "'" + (Body(v) + "'" + rest);
      QuoteEnds(Body(v) + "'" + rest, r.word);
    }
  }

  /** So a placeholder between quotes is not one word any more. */
  lemma QuotedPlaceholderSplits()
    ensures Lex("'" + Escaped("a b") + "'", []) == Words(["a", "b"])
  {
    BodyOfPlain();
    assert "'" + Escaped("a b") + "'" == "'" + ("'" + "a b''");
    QuoteOpens("'" + "a b''");
    QuoteEnds("a b''", []);
    SplitReads();
  }

  lemma BodyOfPlain()
    ensures Body("a b") == "a b"
  {
    assert "a b"[1..] == " b" && " b"[1..] == "b" && "b"[1..] == [];
    assert Body("b") == "b" && Body(" b") == " b";
  }

  lemma QuoteOpens(rest: string)
    ensures Lex("'" + rest, []) == Quoted(rest, [])
  {
    assert ("'" + rest)[1..] == rest;
  }

  lemma SplitReads()
    ensures Lex("a b''", [[]]) == Words(["a", "b"])
  {
    assert "a b''"[1..] == " b''" && " b''"[1..] == "b''" && "b''"[1..] == "''" && "''"[1..] == "'" && "'"[1..] == [];
    assert Quoted("'", "b") == Words(["b"]);
    assert Lex("''", ["b"]) == Words(["b"]);
    assert [] + ['b'] == "b" && [] + ['a'] == "a";
    assert Lex("b''", []) == Words(["b"]);
    assert ["a"] + ["b"] == ["a", "b"];
  }

  // ---------------------------------------------------------------------------------------------
  // Whole templates

  /** What a number, a boolean or null is dumped to: characters that stand for themselves. */
  ghost predicate PlainDump(v: Value) {
    v.Dumped? && v.text != [] && forall i :: 0 <= i < |v.text| ==> Plain(v.text[i])
  }

  /** Command templates of plain words, blanks and single-quoted text, whose placeholders stand outside
      the quotes and name given strings, numbers, booleans or nulls. */
  ghost predicate WellQuoted(segments: seq<Segment>, vars: Variables, quoted: bool) {
    if segments == [] then !quoted
    else if segments[0].Literal? then
      && Readable(segments[0].text, quoted) && '{' !in segments[0].text
      && WellQuoted(segments[1..], vars, QuotedBehind(segments[0].text, quoted))
    else !quoted && GivenPlain(segments[0].name, vars) && WellQuoted(segments[1..], vars, false)
  }

  ghost predicate GivenPlain(name: string, vars: Variables) {
    IsName(name) && name in vars && (vars[name].Text? || PlainDump(vars[name]))
  }

  /** The words the author of the template had in mind: blanks outside quotes separate words, and a
      placeholder puts its cleaned value, whole, into the word it stands in. */
  ghost function Intended(segments: seq<Segment>, vars: Variables, r: Reading): seq<string>
    requires WellQuoted(segments, vars, r.Inside?)
    decreases |segments|
  {
    if segments == [] then r.cur
    else if segments[0].Literal? then
      var (done, behind) := Passed(segments[0].text, r);
      TextReads(segments[0].text, r, []);
      done + Intended(segments[1..], vars, behind)
    else Intended(segments[1..], vars, Outside([Word(r.cur) + Sanitized(vars[segments[0].name].text)]))
  }

  lemma PlainTaken(c: char, more: string, cur: seq<string>)
    requires Plain(c)
    ensures Lex([c] + more, cur) == Lex(more, [Word(cur) + [c]])
  {
    assert ([c] + more)[1..] == more;
    assert !Plain(' ') && !Plain('\t') && !Plain('\'') && !Plain('\\');
  }

  lemma {:induction false} PlainReads(text: string, tail: string, cur: seq<string>)
    requires text != [] && forall i :: 0 <= i < |text| ==> Plain(text[i])
    ensures Lex(text + tail, cur) == Lex(tail, [Word(cur) + text])
    decreases |text|
  {
    hide Lex, Plain;
    var next := [Word(cur) + [text[0]]];
    assert text + tail == [text[0]] + (text[1..] + tail);
    PlainTaken(text[0], text[1..] + tail, cur);
    if |text| == 1 {
      assert text == [text[0]] && text[1..] + tail == tail;
    } else {
      PlainReads(text[1..], tail, next);
      assert Word(next) + text[1..] == Word(cur) + text;
    }
  }

  /** Cleaning leaves such a dump alone. */
  lemma PlainSanitized(text: string)
    requires forall i :: 0 <= i < |text| ==> Plain(text[i])
    ensures Sanitized(text) == text
  {
    assert !Plain('{') && !Plain('}');
    HalveNothing(text, '{');
    HalveNothing(text, '}');
  }

  lemma ValueReads(name: string, vars: Variables, tail: string, cur: seq<string>)
    requires GivenPlain(name, vars)
    ensures name in vars
    ensures
      Lex(Fill(name, EscapedVariables(vars)) + tail, cur) == Lex(tail, [Word(cur) + Sanitized(vars[name].text)])
  {
    var v := vars[name].text;
    if vars[name].Text? {
      SanitizeEscapeCommute(v);
      EscapedReads(Sanitized(v), tail, cur);
    } else {
      PlainSanitized(v);
      PlainReads(v, tail, cur);
    }
  }

  /** Whatever strings the variables hold, the shell sees the words the template meant: as many, in
      the same places, each placeholder contributing its cleaned value and nothing else. */
  lemma {:induction false} ShellSeesIntendedWords(segments: seq<Segment>, vars: Variables, r: Reading)
    requires WellQuoted(segments, vars, r.Inside?)
    ensures Resume(r, Evaluate(segments, EscapedVariables(vars))) == Words(Intended(segments, vars, r))
    decreases |segments|
  {
    hide Lex, Quoted, Readable, QuotedBehind, Passed, Fill, GivenPlain;
    if segments == [] {
      LexNothing(r.cur);
    } else {
      var s, rest := segments[0], segments[1..];
      var tail := Evaluate(rest, EscapedVariables(vars));
      if s.Literal? {
        TextReads(s.text, r, tail);
        ShellSeesIntendedWords(rest, vars, Passed(s.text, r).1);
      } else {
        ValueReads(s.name, vars, tail, r.cur);
        ShellSeesIntendedWords(rest, vars, Outside([Word(r.cur) + Sanitized(vars[s.name].text)]));
      }
    }
  }

  lemma LexNothing(cur: seq<string>)
    ensures Lex([], cur) == Words(cur)
  {
  }

  /** The same for the command that BuildCommand makes of a printed template. */
  lemma CommandKeepsItsShape(segments: seq<Segment>, vars: Variables)
    requires WellQuoted(segments, vars, false)
    ensures
      Lex(Evaluate(Segments(Print(segments)), EscapedVariables(vars)), []) ==
        Words(Intended(segments, vars, Outside([])))
  {
    hide Lex, Intended, WellQuoted, Evaluate, Segments, Print;
    WellQuotedProper(segments, vars, false);
    InterpolatesSegmentwise(segments, EscapedVariables(vars));
    ShellSeesIntendedWords(segments, vars, Outside([]));
  }

  lemma {:induction false} WellQuotedProper(segments: seq<Segment>, vars: Variables, quoted: bool)
    requires WellQuoted(segments, vars, quoted)
    ensures Canonical(segments)
    decreases |segments|
  {
    hide Readable, QuotedBehind;
    if segments != [] {
      var q := if segments[0].Literal? then QuotedBehind(segments[0].text, quoted) else false;
      WellQuotedProper(segments[1..], vars, q);
      forall k | 0 <= k < |segments| ensures Proper(segments[k]) {
        assert k > 0 ==> segments[k] == segments[1..][k - 1];
      }
    }
  }
}
