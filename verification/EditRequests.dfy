/** What an anchor and a hunk request are, told from their bytes. */
module EditRequests {
  import opened Lines
  import opened LineHash
  import opened Hashline
  import opened Hunks
  import opened Options
  import opened HunkApply
  import opened EditCommand

  // ---------------------------------------------------------------------------------------------
  // Numbers

  predicate Blank(b: byte) { b == 32 || 9 <= b <= 13 }

  predicate Digit(b: byte) { 48 <= b <= 57 }

  function Worth(b: byte): nat { (b - 48) as nat }

  lemma WorthIs(b: byte)
    requires Digit(b)
    ensures DigitValue(b) == Worth(b)
  {
  }

  /** The value of a string of digits, the last digit counting one. */
  function ValueOf(s: seq<byte>): nat
    requires forall k :: 0 <= k < |s| ==> Digit(s[k])
  {
    if s == [] then 0 else 10 * ValueOf(s[..|s| - 1]) + Worth(s[|s| - 1])
  }

  /** `s` is blanks, perhaps a sign, digits, and anything that does not go on with a digit; and the
      digits have the value `v`, which fits in a 32-bit int. */
  ghost predicate ReadsAs(s: seq<byte>, blanks: seq<byte>, sign: seq<byte>, digits: seq<byte>, rest: seq<byte>, v: int)
  {
    && s == blanks + sign + digits + rest
    && (forall k :: 0 <= k < |blanks| ==> Blank(blanks[k])) && sign in {[], [43], [45]}
    && digits != [] && (forall k :: 0 <= k < |digits| ==> Digit(digits[k])) && (rest == [] || !Digit(rest[0]))
    && (var d: int := ValueOf(digits); v == if sign == [45] then -d else d) && -2147483648 <= v <= 2147483647
  }

  ghost predicate IsNumber(s: seq<byte>, v: int) {
    exists blanks, sign, digits, rest :: ReadsAs(s, blanks, sign, digits, rest, v)
  }

  lemma TrimLeftAt(blanks: seq<byte>, s: seq<byte>)
    requires forall k :: 0 <= k < |blanks| ==> Blank(blanks[k])
    requires s == [] || !Blank(s[0])
    ensures TrimLeft(blanks + s) == s
  {
    if blanks == [] {
      assert blanks + s == s;
    } else {
      assert (blanks + s)[1..] == blanks[1..] + s;
      TrimLeftAt(blanks[1..], s);
    }
  }

  /** The digits at the front of `s`. */
  function Front(s: seq<byte>): (r: seq<byte>)
    ensures |r| <= |s| && s == r + s[|r|..] && forall k :: 0 <= k < |r| ==> Digit(r[k])
    ensures |r| == |s| || !Digit(s[|r|])
  {
    if s == [] || !Digit(s[0]) then [] else [s[0]] + Front(s[1..])
  }

  lemma {:induction false} ValueCons(d: byte, s: seq<byte>, acc: nat)
    requires Digit(d) && forall k :: 0 <= k < |s| ==> Digit(s[k])
    ensures Folded(s, acc * 10 + DigitValue(d)) == Folded([d] + s, acc)
  {
    WorthIs(d);
    if s == [] {
      assert ([d] + s)[..0] == [];
    } else {
      var t := s[..|s| - 1];
      ValueCons(d, t, acc);
      assert ([d] + s)[..|s|] == [d] + t;
    }
  }

  /** The digits `s` written after the number `acc`. */
  function Folded(s: seq<byte>, acc: nat): nat
    requires forall k :: 0 <= k < |s| ==> Digit(s[k])
  {
    if s == [] then acc else 10 * Folded(s[..|s| - 1], acc) + Worth(s[|s| - 1])
  }

  lemma {:induction false} FoldedValue(s: seq<byte>)
    requires forall k :: 0 <= k < |s| ==> Digit(s[k])
    ensures Folded(s, 0) == ValueOf(s)
  {
    if s != [] {
      FoldedValue(s[..|s| - 1]);
    }
  }

  lemma {:induction false} DigitsFold(s: seq<byte>, rest: seq<byte>, acc: nat)
    requires forall k :: 0 <= k < |s| ==> Digit(s[k])
    requires rest == [] || !Digit(rest[0])
    ensures Digits(s + rest, acc) == Folded(s, acc)
    decreases |s|
  {
    if s == [] {
      assert s + rest == rest;
    } else {
      assert (s + rest)[1..] == s[1..] + rest;
      DigitsFold(s[1..], rest, acc * 10 + DigitValue(s[0]));
      ValueCons(s[0], s[1..], acc);
      assert s == [s[0]] + s[1..];
    }
  }

  /** std::stoi reads exactly the numbers so described. */
  lemma NumberExact(s: seq<byte>, v: int)
    ensures Stoi(s) == Some(v) <==> IsNumber(s, v)
  {
    hide IsNumber;
    if Stoi(s) == Some(v) {
      StoiReads(s, v);
    }
    if IsNumber(s, v) {
      ReadByStoi(s, v);
    }
  }

  lemma BlanksSame(s: seq<byte>)
    ensures AllSpace(s) <==> forall k :: 0 <= k < |s| ==> Blank(s[k])
  {
    assert forall k :: 0 <= k < |s| ==> (IsSpace(s[k]) <==> Blank(s[k]));
  }

  lemma PartsRead(s: seq<byte>, blanks: seq<byte>, sign: seq<byte>, digits: seq<byte>, rest: seq<byte>, v: int)
    requires s == blanks + sign + digits + rest && AllSpace(blanks) && sign in {[], [43], [45]}
    requires digits != [] && (forall k :: 0 <= k < |digits| ==> Digit(digits[k])) && (rest == [] || !Digit(rest[0]))
    requires -2147483648 <= v <= 2147483647
    requires var d: int := ValueOf(digits); v == if sign == [45] then -d else d
    ensures IsNumber(s, v)
  {
    hide ValueOf, IsSpace, Digit, Blank;
    BlanksSame(blanks);
    assert ReadsAs(s, blanks, sign, digits, rest, v);
  }

  lemma SignAndRest(s: seq<byte>) returns (sign: seq<byte>, u: seq<byte>)
    ensures TrimLeft(s) == sign + u && sign in {[], [43], [45]}
    ensures sign == [] ==> u == [] || (u[0] != 43 && u[0] != 45)
  {
    hide TrimLeft;
    var t := TrimLeft(s);
    if t != [] && (t[0] == 43 || t[0] == 45) {
      sign, u := [t[0]], t[1..];
    } else {
      sign, u := [], t;
    }
    assert t == sign + u;
  }

  lemma StoiParts(s: seq<byte>, sign: seq<byte>, u: seq<byte>)
    requires TrimLeft(s) == sign + u && sign in {[], [43], [45]}
    requires sign == [] ==> u == [] || (u[0] != 43 && u[0] != 45)
    ensures
      Stoi(s) ==
        if u == [] || !Digit(u[0]) then None
        else
          var d: int := Digits(u, 0);
          var v := if sign == [45] then -d else d;
          if -2147483648 <= v <= 2147483647 then Some(v) else None
  {
    hide TrimLeft, Digits;
    if sign == [] {
      assert sign + u == u;
    } else {
      assert (sign + u)[0] == sign[0] && (sign + u)[1..] == u;
    }
  }

  lemma StoiReads(s: seq<byte>, v: int)
    requires Stoi(s) == Some(v)
    ensures IsNumber(s, v)
  {
    hide Digits, Stoi, TrimLeft, ReadsAs, ValueOf, Folded, IsNumber, IsSpace;
    var blanks := TrimLeftSplits(s);
    var sign, u := SignAndRest(s);
    StoiParts(s, sign, u);
    var digits := Front(u);
    var rest := u[|digits|..];
    DigitsFold(digits, rest, 0);
    FoldedValue(digits);
    assert s == blanks + (sign + (digits + rest));
    assert blanks + (sign + (digits + rest)) == blanks + sign + digits + rest;
    PartsRead(s, blanks, sign, digits, rest, v);
  }

  lemma ReadByStoi(s: seq<byte>, v: int)
    requires IsNumber(s, v)
    ensures Stoi(s) == Some(v)
  {
    hide Digits, Stoi;
    var blanks, sign, digits, rest :| ReadsAs(s, blanks, sign, digits, rest, v);
    var u := digits + rest;
    var t := sign + u;
    assert s == blanks + t;
    assert Digit(u[0]);
    assert t[0] == if sign == [] then u[0] else sign[0];
    TrimLeftAt(blanks, t);
    StoiParts(s, sign, u);
    DigitsFold(digits, rest, 0);
    FoldedValue(digits);
  }

  // ---------------------------------------------------------------------------------------------
  // Anchors

  /** A positive number, the first colon, and four bytes more. */
  ghost predicate IsAnchor(a: seq<byte>, line: int, hash: seq<byte>) {
    && |a| >= 5 && a[|a| - 5] == 58 && 58 !in a[..|a| - 5]
    && hash == a[|a| - 4..] && line > 0 && IsNumber(a[..|a| - 5], line)
  }

  lemma AnchorExact(a: seq<byte>, line: int, hash: seq<byte>)
    ensures ParseAnchor(a) == Some(Anchor(line, hash)) <==> IsAnchor(a, line, hash)
  {
    hide Stoi, IsNumber;
    var pos := IndexOf(a, 58);
    if |a| >= 5 {
      NumberExact(a[..|a| - 5], line);
      if a[|a| - 5] == 58 && 58 !in a[..|a| - 5] {
        assert forall k :: 0 <= k < |a| - 5 ==> a[k] in a[..|a| - 5];
        IndexOfUnique(a, 58, |a| - 5);
        assert a[pos + 1..] == a[|a| - 4..];
      }
    }
    if ParseAnchor(a) == Some(Anchor(line, hash)) {
      assert |a[pos + 1..]| == 4 && pos == |a| - 5;
    }
  }

  ghost predicate NamesLine(a: seq<byte>) { exists line, hash :: IsAnchor(a, line, hash) }

  lemma AnchorParses(a: seq<byte>)
    ensures ParseAnchor(a).Some? <==> NamesLine(a)
  {
    hide ParseAnchor, IsAnchor;
    if ParseAnchor(a).Some? {
      AnchorExact(a, ParseAnchor(a).value.line, ParseAnchor(a).value.hash);
    }
    if NamesLine(a) {
      var line, hash :| IsAnchor(a, line, hash);
      AnchorExact(a, line, hash);
    }
  }

  // ---------------------------------------------------------------------------------------------
  // Requests

  /** The hunk a request stands for: its content, the line and hash its start names, and those its end
      names, or none when the end is empty. */
  ghost predicate Describes(r: HunkRequest, h: Hunk) {
    && r.content == Some(h.content)
    && IsAnchor(r.start, h.startLine, h.startHash)
    && (if r.end == [] then h.endLine == 0 && h.endHash == [] else IsAnchor(r.end, h.endLine, h.endHash))
  }

  lemma RequestExact(r: HunkRequest, h: Hunk)
    ensures ParseRequest(r) == Good(h) <==> Describes(r, h)
  {
    hide ParseAnchor, IsAnchor;
    AnchorExact(r.start, h.startLine, h.startHash);
    if r.end != [] {
      AnchorExact(r.end, h.endLine, h.endHash);
    }
  }

  /** A list of requests parses to a list of hunks exactly when each request stands for its hunk. */
  lemma ParsesExact(requests: seq<HunkRequest>, hunks: seq<Hunk>)
    ensures
      Parses(requests, hunks) <==>
        |requests| == |hunks| && forall k :: 0 <= k < |requests| ==> Describes(requests[k], hunks[k])
  {
    hide ParseRequest, Describes;
    if |requests| == |hunks| {
      forall k | 0 <= k < |requests|
        ensures ParseRequest(requests[k]) == Good(hunks[k]) <==> Describes(requests[k], hunks[k])
      {
        RequestExact(requests[k], hunks[k]);
      }
    }
  }

  /** What is wrong with a request, the start first, the end next, the content last. */
  ghost predicate Faulty(r: HunkRequest, e: CommandError) {
    match e
    case BadStartAnchor => !NamesLine(r.start)
    case BadEndAnchor => NamesLine(r.start) && r.end != [] && !NamesLine(r.end)
    case NoContent => NamesLine(r.start) && (r.end == [] || NamesLine(r.end)) && r.content.None?
    case _ => false
  }

  lemma FaultExact(r: HunkRequest, e: CommandError)
    ensures ParseRequest(r) == Bad(e) <==> Faulty(r, e)
  {
    hide ParseAnchor, NamesLine;
    AnchorParses(r.start);
    AnchorParses(r.end);
  }

  ghost predicate Sound(r: HunkRequest) { exists h :: Describes(r, h) }

  /** The error of a request that does not parse, and of a list of them: the first fault. */
  lemma FirstFault(requests: seq<HunkRequest>, e: CommandError)
    ensures
      FirstBad(requests, e) <==>
        exists k :: 0 <= k < |requests| && Faulty(requests[k], e)
                    && forall j :: 0 <= j < k ==> Sound(requests[j])
  {
    hide ParseRequest, Faulty, Sound;
    forall k | 0 <= k < |requests|
      ensures ParseRequest(requests[k]) == Bad(e) <==> Faulty(requests[k], e)
      ensures ParseRequest(requests[k]).Good? <==> Sound(requests[k])
    {
      FaultExact(requests[k], e);
      GoodDescribed(requests[k]);
    }
  }

  lemma GoodDescribed(r: HunkRequest)
    ensures ParseRequest(r).Good? <==> Sound(r)
  {
    hide ParseRequest, Describes;
    if ParseRequest(r).Good? {
      RequestExact(r, ParseRequest(r).hunk);
    }
    if h :| Describes(r, h) {
      RequestExact(r, h);
    }
  }

  /** Exactly the files with a zero among their first 8192 bytes are taken for binary. */
  lemma BinaryExact(bytes: seq<byte>)
    ensures LooksBinary(bytes) <==> exists k :: 0 <= k < 8192 && k < |bytes| && bytes[k] == 0
  {
    if LooksBinary(bytes) {
      var n := if |bytes| < 8192 then |bytes| else 8192;
      var k :| 0 <= k < n && bytes[..n][k] == 0;
      assert bytes[k] == 0;
    }
    if k :| 0 <= k < 8192 && k < |bytes| && bytes[k] == 0 {
      var n := if |bytes| < 8192 then |bytes| else 8192;
      assert bytes[..n][k] == 0;
    }
  }
}
