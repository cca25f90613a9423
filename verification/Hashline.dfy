/** Numbered, hashed lines: parsing a file into them and printing pages of them. */
module Hashline {
  import opened Lines
  import opened LineHash

  datatype Line = Line(number: int, hash: seq<byte>, text: seq<byte>)

  const BAR: byte := 124

  /** The lines of a file: numbered from 1, each with the hash of its text. */
  function Number(texts: seq<seq<byte>>): (r: seq<Line>)
    ensures |r| == |texts|
    ensures forall k :: 0 <= k < |texts| ==> r[k] == Line(k + 1, HashOf(texts[k]), texts[k])
  {
    seq(|texts|, k requires 0 <= k < |texts| => Line(k + 1, HashOf(texts[k]), texts[k]))
  }

  function Texts(lines: seq<Line>): (r: seq<seq<byte>>)
    ensures |r| == |lines|
    ensures forall k :: 0 <= k < |lines| ==> r[k] == lines[k].text
  {
    seq(|lines|, k requires 0 <= k < |lines| => lines[k].text)
  }

  function TextLines(content: seq<byte>): seq<seq<byte>> { Split(content, LF, CR) }

  ghost predicate IsNumbered(lines: seq<Line>) {
    forall k :: 0 <= k < |lines| ==> lines[k].number == k + 1
  }

  /** Scans for line feeds with a start index; a final line feed opens no further line. */
  method ParseFile(content: seq<byte>) returns (lines: seq<Line>)
    ensures lines == Number(TextLines(content))
  {
    hide HashOf, Split;
    lines := [];
    if content == [] {
      SplitNothing<byte>(LF, CR);
      return;
    }
    var num := 1;
    var start := 0;
    var i := 0;
    ghost var texts: seq<seq<byte>> := [];
    while i <= |content|
      invariant 0 <= start <= i <= |content| + 1
      invariant num == |texts| + 1 && lines == Number(texts)
      invariant i <= |content| ==> forall k :: start <= k < i ==> content[k] != LF
      invariant i <= |content| ==> TextLines(content) == texts + TextLines(content[start..])
      invariant i > |content| ==> TextLines(content) == texts
    {
      if i < |content| && content[i] != LF {
        i := i + 1;
        continue;
      }
      if i == |content| && start == i {
        assert content[start..] == [];
        SplitNothing<byte>(LF, CR);
        break;
      }
      var raw := content[start..i];
      ghost var rest := content[start..];
      assert forall k :: 0 <= k < i - start ==> rest[k] == content[start + k];
      assert rest[..i - start] == raw;
      SplitStep(rest, i - start, LF, CR);
      if i < |content| {
        assert rest[i - start + 1..] == content[i + 1..];
      }
      if raw != [] && raw[|raw| - 1] == CR {
        raw := raw[..|raw| - 1];
      }
      var hash := Hash(raw);
      lines := lines + [Line(num, hash, raw)];
      num := num + 1;
      texts := texts + [raw];
      start := i + 1;
      i := i + 1;
    }
  }

  /** Each text followed by a line feed. */
  function Print(texts: seq<seq<byte>>): seq<byte> { Unlines(texts, LF) }

  /** A printed file parses back to the same texts, renumbered and rehashed, exactly when no text
      ends in a carriage return. */
  lemma ParsePrint(texts: seq<seq<byte>>)
    requires AllFree(texts, LF)
    ensures Texts(Number(TextLines(Print(texts)))) == texts <==> NoneEndsIn(texts, CR)
    ensures NoneEndsIn(texts, CR) ==> Number(TextLines(Print(texts))) == Number(texts)
  {
    SplitUnlines(texts, LF, CR);
    var back := TextLines(Print(texts));
    assert Texts(Number(back)) == back;
  }

  // ---------------------------------------------------------------------------------------------
  // Pages

  function DigitByte(d: nat): byte
    requires d < 10
  {
    (d as bv8) + 48
  }

  function Decimal(n: nat): seq<byte> {
    if n < 10 then [DigitByte(n)] else Decimal(n / 10) + [DigitByte(n % 10)]
  }

  /** Line numbers are positive; the sign is there for the C++ int. */
  function Integer(n: int): seq<byte> {
    if n < 0 then [45] + Decimal(-n) else Decimal(n)
  }

  /** One line of a page: number, hash when asked for, text. */
  function Row(l: Line, hashes: bool): seq<byte> {
    if hashes then Integer(l.number) + [BAR] + l.hash + [BAR] + l.text + [LF]
    else Integer(l.number) + [BAR] + l.text + [LF]
  }

  function Rows(lines: seq<Line>, hashes: bool): seq<byte> {
    if lines == [] then [] else Row(lines[0], hashes) + Rows(lines[1..], hashes)
  }

  lemma {:induction false} RowsConcat(a: seq<Line>, b: seq<Line>, hashes: bool)
    ensures Rows(a + b, hashes) == Rows(a, hashes) + Rows(b, hashes)
  {
    if a == [] {
      assert a + b == b;
    } else {
      assert (a + b)[1..] == a[1..] + b;
      RowsConcat(a[1..], b, hashes);
    }
  }

  lemma RowsEnds(hashes: bool)
    ensures Rows([], hashes) == []
    ensures forall l: Line :: Rows([l], hashes) == Row(l, hashes)
  {
    forall l: Line ensures Rows([l], hashes) == Row(l, hashes) {
      assert [l][1..] == [];
    }
  }

  /** Where a page starts and where it ends. */
  function PageStart(lines: seq<Line>, offset: int): (r: nat)
    ensures r <= |lines|
  {
    if offset < 0 then 0 else if offset > |lines| then |lines| else offset
  }

  function PageEnd(lines: seq<Line>, offset: int, limit: int): (r: nat)
    ensures PageStart(lines, offset) <= r <= |lines|
  {
    var from := PageStart(lines, offset);
    var count := if limit < 0 then 0 else limit;
    if from + count > |lines| then |lines| else from + count
  }

  method FormatRead(lines: seq<Line>, offset: int, limit: int, hashes: bool)
    returns (page: seq<byte>, truncated: bool, nextLine: int)
    ensures page == Rows(lines[PageStart(lines, offset)..PageEnd(lines, offset, limit)], hashes)
    ensures truncated <==> PageEnd(lines, offset, limit) < |lines|
    ensures nextLine == if truncated then lines[PageEnd(lines, offset, limit)].number else 0
  {
    hide Row, Rows;
    truncated, nextLine := false, 0;
    var from := if offset < 0 then 0 else offset;
    var count := if limit < 0 then 0 else limit;
    page := [];
    RowsEnds(hashes);
    var emitted := 0;
    var i := from;
    assert from <= |lines| ==> lines[from..from] == [];
    while i < |lines|
      invariant from <= i && emitted == i - from <= count
      invariant if from > |lines| then i == from && page == [] else i <= |lines| && page == Rows(lines[from..i], hashes)
      invariant !truncated && nextLine == 0
    {
      if emitted >= count {
        truncated := true;
        nextLine := lines[i].number;
        break;
      }
      var l := lines[i];
      page := page + Row(l, hashes);
      assert lines[from..i + 1] == lines[from..i] + [l];
      RowsConcat(lines[from..i], [l], hashes);
      emitted := emitted + 1;
      i := i + 1;
    }
    assert lines[PageStart(lines, offset)..PageEnd(lines, offset, limit)]
        == if from > |lines| then [] else lines[from..i];
  }

  /** `nextLine` counts from one and the offset from zero.  A page and the page that starts at
      `nextLine - 1` print together what one page of both lengths prints; the page that starts at
      `nextLine` itself leaves out the very line named. */
  lemma PagesTile(lines: seq<Line>, offset: nat, limit: nat, limit2: nat, hashes: bool)
    requires IsNumbered(lines) && PageEnd(lines, offset, limit) < |lines|
    ensures
      var next := lines[PageEnd(lines, offset, limit)].number - 1;
      && Rows(lines[PageStart(lines, offset)..PageEnd(lines, offset, limit)], hashes)
         + Rows(lines[PageStart(lines, next)..PageEnd(lines, next, limit2)], hashes)
         == Rows(lines[PageStart(lines, offset)..PageEnd(lines, offset, limit + limit2)], hashes)
      && PageEnd(lines, next, limit2) == PageEnd(lines, offset, limit + limit2)
      && PageStart(lines, next + 1) == PageEnd(lines, offset, limit) + 1
  {
    hide Rows;
    var a, b, c := PageStart(lines, offset), PageEnd(lines, offset, limit), PageEnd(lines, offset, limit + limit2);
    assert lines[a..c] == lines[a..b] + lines[b..c];
    RowsConcat(lines[a..b], lines[b..c], hashes);
  }

  /** All pages from an offset on, each starting where the one before pointed. */
  ghost function Walk(lines: seq<Line>, offset: nat, limit: nat, hashes: bool): seq<byte>
    requires IsNumbered(lines) && 1 <= limit && offset <= |lines|
    decreases |lines| - offset
  {
    var end := PageEnd(lines, offset, limit);
    Rows(lines[offset..end], hashes) + if end < |lines| then Walk(lines, lines[end].number - 1, limit, hashes) else []
  }

  /** Paging to the end prints every line once, in order, whatever the page length. */
  lemma {:induction false} WalkPrintsAll(lines: seq<Line>, offset: nat, limit: nat, hashes: bool)
    requires IsNumbered(lines) && 1 <= limit && offset <= |lines|
    ensures Walk(lines, offset, limit, hashes) == Rows(lines[offset..], hashes)
    decreases |lines| - offset
  {
    hide Rows;
    var end := PageEnd(lines, offset, limit);
    if end < |lines| {
      assert lines[end].number - 1 == end;
      WalkPrintsAll(lines, end, limit, hashes);
      assert lines[offset..] == lines[offset..end] + lines[end..];
      RowsConcat(lines[offset..end], lines[end..], hashes);
    } else {
      assert lines[offset..end] == lines[offset..];
    }
  }
}
