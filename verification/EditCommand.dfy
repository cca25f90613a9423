/** The edit command: anchors as text, all-or-nothing writes, and what an edit promises to a client
    that read the file before. */
module EditCommand {
  import opened Lines
  import opened LineHash
  import opened Hashline
  import opened Hunks
  import opened Options
  import opened HunkApply

  const COLON: byte := 58
  const INT_MAX := 0x7FFF_FFFF
  const BINARY_WINDOW := 8192

  predicate IsDigit(b: byte) { 48 <= b <= 57 }

  function DigitValue(b: byte): (d: nat)
    requires IsDigit(b)
  {
    b as int - 48
  }

  /** The value of the digits at the front of `s`, read after `acc`. */
  function Digits(s: seq<byte>, acc: nat): nat
    decreases |s|
  {
    if s == [] || !IsDigit(s[0]) then acc else Digits(s[1..], acc * 10 + DigitValue(s[0]))
  }

  /** std::stoi in base ten: leading blanks, a sign, then at least one digit; what follows the
      digits is ignored; a value outside a 32-bit int is an error. */
  function Stoi(s: seq<byte>): Option<int> {
    var t := TrimLeft(s);
    var negative := t != [] && t[0] == 45;
    var u := if t != [] && (t[0] == 43 || t[0] == 45) then t[1..] else t;
    if u == [] || !IsDigit(u[0]) then None
    else
      var d: int := Digits(u, 0);
      var v := if negative then -d else d;
      if -INT_MAX - 1 <= v <= INT_MAX then Some(v) else None
  }

  datatype Anchor = Anchor(line: int, hash: seq<byte>)

  /** LINE:HASH, cut at the first colon; the line is positive and the hash four bytes long. */
  function ParseAnchor(a: seq<byte>): (r: Option<Anchor>)
    ensures r.Some? ==> r.value.line > 0 && |r.value.hash| == 4
  {
    var pos := IndexOf(a, COLON);
    if pos == |a| then None
    else
      match Stoi(a[..pos])
      case None => None
      case Some(line) => if line > 0 && |a[pos + 1..]| == 4 then Some(Anchor(line, a[pos + 1..])) else None
  }

  function PrintAnchor(l: Line): seq<byte> { Integer(l.number) + [COLON] + l.hash }

  lemma DigitRoundTrip(d: nat)
    requires d < 10
    ensures IsDigit(DigitByte(d)) && DigitValue(DigitByte(d)) == d
  {
  }

  lemma {:induction false} DigitsOfDecimal(n: nat, rest: seq<byte>)
    ensures Decimal(n) != [] && forall k :: 0 <= k < |Decimal(n)| ==> IsDigit(Decimal(n)[k])
    ensures Digits(Decimal(n) + rest, 0) == Digits(rest, n)
    decreases n
  {
    hide IsDigit;
    if n < 10 {
      DigitRoundTrip(n);
      assert ([DigitByte(n)] + rest)[1..] == rest;
    } else {
      DigitRoundTrip(n % 10);
      DigitsOfDecimal(n / 10, [DigitByte(n % 10)] + rest);
      assert Decimal(n) + rest == Decimal(n / 10) + ([DigitByte(n % 10)] + rest);
      assert ([DigitByte(n % 10)] + rest)[1..] == rest;
    }
  }

  lemma DigitIsPlain(b: byte)
    requires IsDigit(b)
    ensures b != COLON && b != 43 && b != 45 && !IsSpace(b)
  {
  }

  /** An anchor printed for a line reads back as that line's number and hash. */
  lemma AnchorRoundTrip(l: Line)
    requires 0 < l.number <= INT_MAX && |l.hash| == 4
    ensures ParseAnchor(PrintAnchor(l)) == Some(Anchor(l.number, l.hash))
  {
    hide IsDigit, IsSpace;
    var a, d := PrintAnchor(l), Decimal(l.number);
    DigitsOfDecimal(l.number, []);
    assert d + [] == d;
    forall k | 0 <= k < |d| ensures d[k] != COLON {
      DigitIsPlain(d[k]);
    }
    assert a[..|d|] == d && a[|d|] == COLON && a[|d| + 1..] == l.hash;
    IndexOfUnique(a, COLON, |d|);
    DigitIsPlain(d[0]);
    assert TrimLeft(d) == d;
  }

  // ---------------------------------------------------------------------------------------------
  // Requests

  /** One element of the "hunks" array; `content` is absent when the field is missing or not a
      string, and an absent "start" or "end" is the empty string. */
  datatype HunkRequest = HunkRequest(start: seq<byte>, end: seq<byte>, content: Option<seq<byte>>)

  datatype CommandError =
    | NoHunks
    | BinaryFile
    | BadStartAnchor
    | BadEndAnchor
    | NoContent
    | Refused(error: EditError)

  datatype Parsed = Bad(error: CommandError) | Good(hunk: Hunk)

  function ParseRequest(r: HunkRequest): Parsed {
    match ParseAnchor(r.start)
    case None => Bad(BadStartAnchor)
    case Some(s) =>
      if r.end != [] && ParseAnchor(r.end).None? then Bad(BadEndAnchor)
      else if r.content.None? then Bad(NoContent)
      else if r.end == [] then Good(Hunk(s.line, s.hash, 0, [], r.content.value))
      else Good(Hunk(s.line, s.hash, ParseAnchor(r.end).value.line, ParseAnchor(r.end).value.hash, r.content.value))
  }

  /** Every request parses, in order, to its hunk. */
  ghost predicate Parses(requests: seq<HunkRequest>, hunks: seq<Hunk>) {
    |requests| == |hunks| && forall k :: 0 <= k < |requests| ==> ParseRequest(requests[k]) == Good(hunks[k])
  }

  /** The first request that does not parse gives this error. */
  ghost predicate FirstBad(requests: seq<HunkRequest>, e: CommandError) {
    exists k :: 0 <= k < |requests| && ParseRequest(requests[k]) == Bad(e)
                && forall j :: 0 <= j < k ==> ParseRequest(requests[j]).Good?
  }

  method ParseRequests(requests: seq<HunkRequest>) returns (hunks: seq<Hunk>, error: Option<CommandError>)
    ensures error.None? ==> Parses(requests, hunks)
    ensures error.Some? ==> FirstBad(requests, error.value)
  {
    hide ParseRequest;
    hunks := [];
    for i := 0 to |requests|
      invariant Parses(requests[..i], hunks)
    {
      var p := ParseRequest(requests[i]);
      if p.Bad? {
        assert forall j :: 0 <= j < i ==> requests[..i][j] == requests[j];
        return [], Some(p.error);
      }
      assert requests[..i + 1] == requests[..i] + [requests[i]];
      hunks := hunks + [p.hunk];
    }
    assert requests[..|requests|] == requests;
    error := None;
  }

  lemma ParsedAnchored(requests: seq<HunkRequest>, hunks: seq<Hunk>)
    requires Parses(requests, hunks)
    ensures Anchored(hunks)
  {
    forall k | 0 <= k < |hunks| && hunks[k].endHash == [] ensures hunks[k].endLine <= 0 {
      assert ParseRequest(requests[k]) == Good(hunks[k]);
    }
  }

  lemma ParsesUnique(requests: seq<HunkRequest>, a: seq<Hunk>, b: seq<Hunk>)
    requires Parses(requests, a) && Parses(requests, b)
    ensures a == b
  {
    hide ParseRequest;
    forall k | 0 <= k < |a| ensures a[k] == b[k] {
      assert Good(a[k]) == Good(b[k]);
    }
  }

  /** A NUL among the first 8192 bytes. */
  predicate LooksBinary(bytes: seq<byte>) {
    var n := if |bytes| < BINARY_WINDOW then |bytes| else BINARY_WINDOW;
    0 in bytes[..n]
  }

  function FileLines(bytes: seq<byte>): seq<Line> { Number(TextLines(bytes)) }

  /** The edits that go through, told from the file and the request. */
  ghost predicate Editable(file: seq<byte>, requests: seq<HunkRequest>, hunks: seq<Hunk>) {
    requests != [] && !LooksBinary(file) && Parses(requests, hunks) && Acceptable(FileLines(file), hunks)
  }

  /** What an error of the command says. */
  ghost predicate Reports(file: seq<byte>, requests: seq<HunkRequest>, e: CommandError) {
    match e
    case NoHunks => requests == []
    case BinaryFile => requests != [] && LooksBinary(file)
    case Refused(why) =>
      && requests != [] && !LooksBinary(file)
      && exists hunks ::
           Parses(requests, hunks) && Explains(FileLines(file), hunks, why) && Blames(FileLines(file), hunks, why)
    case _ => requests != [] && !LooksBinary(file) && FirstBad(requests, e)
  }

  /** One file of the workspace. */
  class EditTarget {
    var bytes: seq<byte>

    constructor (initial: seq<byte>)
      ensures bytes == initial
    {
      bytes := initial;
    }

    /** Either every hunk is applied, at once, or the file keeps every byte. */
    method Execute(requests: seq<HunkRequest>) returns (error: Option<CommandError>)
      modifies this
      ensures error.None? <==> exists hunks :: Editable(old(bytes), requests, hunks)
      ensures error.None? ==>
        exists hunks :: && Editable(old(bytes), requests, hunks) && AllInFile(FileLines(old(bytes)), hunks)
                        && bytes == FileOf(Replace(FileLines(old(bytes)), hunks, 0))
      ensures error.Some? ==> bytes == old(bytes) && Reports(bytes, requests, error.value)
    {
      hide ParseRequest, Explains, Blames, Acceptable, Replace, AllInFile, FileOf, LooksBinary, Split;
      if requests == [] {
        return Some(NoHunks);
      }
      if LooksBinary(bytes) {
        return Some(BinaryFile);
      }
      var hunks, bad := ParseRequests(requests);
      if bad.Some? {
        BadReported(bytes, requests, bad.value);
        return bad;
      }
      ParsedAnchored(requests, hunks);
      var lines := ParseFile(bytes);
      var next, refused := ApplyHunks(lines, hunks);
      if refused.Some? {
        forall other | Editable(bytes, requests, other) ensures false {
          ParsesUnique(requests, hunks, other);
        }
        return Some(Refused(refused.value));
      }
      bytes := next;
      error := None;
      assert Editable(old(bytes), requests, hunks);
    }
  }

  lemma BadReported(file: seq<byte>, requests: seq<HunkRequest>, e: CommandError)
    requires requests != [] && !LooksBinary(file) && FirstBad(requests, e)
    ensures Reports(file, requests, e)
    ensures !exists hunks :: Editable(file, requests, hunks)
  {
    var k :| 0 <= k < |requests| && ParseRequest(requests[k]) == Bad(e);
    forall hunks ensures !Editable(file, requests, hunks) {
      assert k < |hunks| ==> ParseRequest(requests[k]) != Good(hunks[k]);
    }
  }
}
