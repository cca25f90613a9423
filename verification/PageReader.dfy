/** Reading a page back from its bytes, as a client of the read command does. */
module PageReader {
  import opened Lines
  import opened LineHash
  import opened Hashline
  import opened Options
  import opened EditCommand
  import opened EditRequests

  /** A page's rows: the bytes between its line feeds. */
  function PageRows(page: seq<byte>): seq<seq<byte>> { RawLines(page, 10) }

  /** With hashes a row is a number, a bar, four bytes, a bar and the text, cut at the first bar; */
  ghost predicate HashedRow(row: seq<byte>, number: int, hash: seq<byte>, text: seq<byte>) {
    var bar := IndexOf(row, 124);
    && bar + 6 <= |row| && IsDecimal(row[..bar], number)
    && row[bar + 1..bar + 5] == hash && row[bar + 5] == 124 && row[bar + 6..] == text
  }

  /** and without, a number, a bar and the text. */
  ghost predicate PlainRow(row: seq<byte>, number: int, text: seq<byte>) {
    var bar := IndexOf(row, 124);
    bar < |row| && IsDecimal(row[..bar], number) && row[bar + 1..] == text
  }

  /** The decimal notation of a number: digits of that value, without a zero in front. */
  ghost predicate IsDecimal(s: seq<byte>, n: int) {
    && s != [] && (forall k :: 0 <= k < |s| ==> Digit(s[k])) && ValueOf(s) == n
    && (|s| > 1 ==> s[0] != 48)
  }

  lemma {:induction false} DecimalExact(n: nat)
    ensures IsDecimal(Decimal(n), n) && (n > 0 ==> Decimal(n)[0] != 48)
    decreases n
  {
    hide Worth, DigitByte;
    if n < 10 {
      DigitWorth(n);
      var s := [DigitByte(n)];
      assert s[..|s| - 1] == [] && ValueOf(s[..|s| - 1]) == 0;
      assert Decimal(n) == s;
    } else {
      DigitWorth(n % 10);
      DecimalExact(n / 10);
      var front := Decimal(n / 10);
      assert (front + [DigitByte(n % 10)])[..|front|] == front;
    }
  }

  lemma DigitWorth(d: nat)
    requires d < 10
    ensures Digit(DigitByte(d)) && Worth(DigitByte(d)) == d && (d > 0 ==> DigitByte(d) != 48)
  {
    DigitRoundTrip(d);
    WorthIs(DigitByte(d));
    assert Worth(48) == 0;
  }

  // ---------------------------------------------------------------------------------------------
  // The rows of a page

  /** What a row is made of: a positive number, a hash of four bytes, neither hash nor text with a line
      feed. */
  ghost predicate Printable(l: Line) { l.number > 0 && |l.hash| == 4 && 10 !in l.hash && 10 !in l.text }

  function Stem(l: Line, hashes: bool): seq<byte> {
    var row := Row(l, hashes);
    if row == [] then [] else row[..|row| - 1]
  }

  function Stems(lines: seq<Line>, hashes: bool): (r: seq<seq<byte>>)
    ensures |r| == |lines|
    ensures forall k :: 0 <= k < |lines| ==> r[k] == Stem(lines[k], hashes)
  {
    seq(|lines|, k requires 0 <= k < |lines| => Stem(lines[k], hashes))
  }

  lemma {:induction false} RowsUnlined(lines: seq<Line>, hashes: bool)
    ensures Rows(lines, hashes) == Unlines(Stems(lines, hashes), 10)
  {
    hide Row;
    if lines != [] {
      RowsUnlined(lines[1..], hashes);
      assert Stems(lines, hashes) == [Stem(lines[0], hashes)] + Stems(lines[1..], hashes);
      UnlinesCons(Stem(lines[0], hashes), Stems(lines[1..], hashes), 10);
      RowEnds(lines[0], hashes);
    }
  }

  lemma RowEnds(l: Line, hashes: bool)
    ensures Row(l, hashes) == Stem(l, hashes) + [10]
  {
    hide Integer;
  }

  lemma RawCons(l: seq<byte>, more: seq<byte>)
    requires Free(l, 10)
    ensures RawLines(l + [10] + more, 10) == [l] + RawLines(more, 10)
  {
    hide IndexOf;
    var s := l + [10] + more;
    assert s[..|l|] == l && s[|l| + 1..] == more;
    IndexOfUnique(s, 10, |l|);
  }

  lemma {:induction false} RawOfUnlines(rows: seq<seq<byte>>)
    requires forall k :: 0 <= k < |rows| ==> Free(rows[k], 10)
    ensures RawLines(Unlines(rows, 10), 10) == rows
    decreases |rows|
  {
    hide RawLines, Unlines, Free;
    UnlinesNothing<byte>(10);
    if rows == [] {
      RawLinesStep<byte>([], 10);
    } else {
      var l, rest := rows[0], rows[1..];
      assert rows == [l] + rest;
      UnlinesCons(l, rest, 10);
      RawCons(l, Unlines(rest, 10));
      assert forall k :: 0 <= k < |rest| ==> rest[k] == rows[k + 1];
      RawOfUnlines(rest);
    }
  }

  lemma DecimalPlain(n: nat)
    ensures IsDecimal(Decimal(n), n) && Free(Decimal(n), 10) && Free(Decimal(n), 124)
  {
    hide ValueOf, Decimal;
    DecimalExact(n);
  }

  lemma StemHashed(l: Line)
    requires Printable(l)
    ensures Free(Stem(l, true), 10) && HashedRow(Stem(l, true), l.number, l.hash, l.text)
  {
    hide Decimal, IsDecimal;
    var d, s := Decimal(l.number), Stem(l, true);
    DecimalPlain(l.number);
    assert s == d + [124] + l.hash + [124] + l.text;
    assert s[..|d|] == d;
    IndexOfUnique(s, 124, |d|);
    assert s[|d| + 1..|d| + 5] == l.hash && s[|d| + 6..] == l.text;
  }

  lemma StemPlain(l: Line)
    requires Printable(l)
    ensures Free(Stem(l, false), 10) && PlainRow(Stem(l, false), l.number, l.text)
  {
    hide Decimal, IsDecimal;
    var d, s := Decimal(l.number), Stem(l, false);
    DecimalPlain(l.number);
    assert s == d + [124] + l.text;
    assert s[..|d|] == d;
    IndexOfUnique(s, 124, |d|);
    assert s[|d| + 1..] == l.text;
  }

  /** A page is as many rows as it has lines, and each row gives its line's number, hash and text back;
      without hashes, its number and text. */
  lemma PageReads(lines: seq<Line>)
    requires forall k :: 0 <= k < |lines| ==> Printable(lines[k])
    ensures |PageRows(Rows(lines, true))| == |PageRows(Rows(lines, false))| == |lines|
    ensures forall k :: 0 <= k < |lines| ==>
      && HashedRow(PageRows(Rows(lines, true))[k], lines[k].number, lines[k].hash, lines[k].text)
      && PlainRow(PageRows(Rows(lines, false))[k], lines[k].number, lines[k].text)
  {
    hide Row, Stem, HashedRow, PlainRow, RawLines, Unlines;
    forall k | 0 <= k < |lines|
      ensures Free(Stem(lines[k], true), 10)
      ensures HashedRow(Stem(lines[k], true), lines[k].number, lines[k].hash, lines[k].text)
      ensures Free(Stem(lines[k], false), 10) && PlainRow(Stem(lines[k], false), lines[k].number, lines[k].text)
    {
      StemHashed(lines[k]);
      StemPlain(lines[k]);
    }
    RowsUnlined(lines, true);
    RowsUnlined(lines, false);
    RawOfUnlines(Stems(lines, true));
    RawOfUnlines(Stems(lines, false));
  }

  // ---------------------------------------------------------------------------------------------
  // The lines of a file

  lemma HexDigitPlain(x: bv16)
    ensures HexDigit(x) != 10
  {
  }

  lemma HashPlain(line: seq<byte>)
    ensures |HashOf(line)| == 4 && 10 !in HashOf(line)
  {
    hide HexDigit, Normalized, Fold16, Nibble;
    var h := Fold16(BASIS16, Normalized(line));
    forall k | 0 <= k < 4 ensures HashOf(line)[k] != 10 {
      HexDigitPlain(Nibble(h, 3 - k));
    }
  }

  lemma FilePrintable(bytes: seq<byte>)
    ensures forall k :: 0 <= k < |FileLines(bytes)| ==> Printable(FileLines(bytes)[k])
  {
    hide HashOf, Split;
    SplitFree(bytes, LF, CR);
    forall k | 0 <= k < |FileLines(bytes)| ensures Printable(FileLines(bytes)[k]) {
      HashPlain(TextLines(bytes)[k]);
      assert Free(TextLines(bytes)[k], LF);
    }
  }

  /** Of every page of every file: its rows are the lines asked for, in order, numbered from one. */
  lemma FilePageReads(bytes: seq<byte>, from: nat, to: nat)
    requires from <= to <= |FileLines(bytes)|
    ensures
      var lines := FileLines(bytes)[from..to];
      var hashed, plain := PageRows(Rows(lines, true)), PageRows(Rows(lines, false));
      && |hashed| == |plain| == to - from && |TextLines(bytes)| == |FileLines(bytes)|
      && forall k :: 0 <= k < to - from ==>
           && HashedRow(hashed[k], from + k + 1, HashOf(TextLines(bytes)[from + k]), TextLines(bytes)[from + k])
           && PlainRow(plain[k], from + k + 1, TextLines(bytes)[from + k])
  {
    hide HashOf, HashedRow, PlainRow, Rows, RawLines, Split;
    FilePrintable(bytes);
    PageReads(FileLines(bytes)[from..to]);
  }

  // ---------------------------------------------------------------------------------------------
  // Anchors

  /** The anchor a client copies out of a row: the number, a colon, the hash. */
  function AnchorIn(row: seq<byte>): seq<byte> {
    var bar := IndexOf(row, 124);
    if bar + 5 <= |row| then row[..bar] + [58] + row[bar + 1..bar + 5] else []
  }

  lemma AnchorOfRow(row: seq<byte>, number: int, hash: seq<byte>, text: seq<byte>)
    requires HashedRow(row, number, hash, text) && 0 < number <= 2147483647
    ensures IsAnchor(AnchorIn(row), number, hash)
  {
    hide ValueOf;
    var bar := IndexOf(row, 124);
    var a, d := AnchorIn(row), row[..bar];
    assert a[..|d|] == d && a[|d|] == 58 && a[|a| - 4..] == hash && |a| - 5 == |d|;
    assert forall k :: 0 <= k < |d| ==> Digit(d[k]) && d[k] != 58;
    assert ReadsAs(d, [], [], d, [], number);
  }
}
