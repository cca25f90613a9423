/** The read tool: argument checks in front of a page. */
module ReadCommand {
  import opened LineHash
  import opened Hashline
  import opened Options
  import opened EditCommand

  const DEFAULT_LINES := 200
  const MAX_LINES := 500

  datatype ReadError = Binary | LimitNotPositive | NegativeOffset | PastEnd

  datatype ReadResult = Page(text: seq<byte>, nextLine: Option<int>) | Declined(error: ReadError)

  /** A zero asks for the default; anything else is brought into range. */
  function ClampInt(v: int, lo: int, hi: int, fallback: int): int {
    if v == 0 then fallback else if v < lo then lo else if v > hi then hi else v
  }

  /** One page of the file's lines, 200 unless another length up to 500 is asked for, with the number
      of the next line if there is one; refused
      exactly for a binary file, a limit that is not positive, or an offset outside the file. */
  method Read(bytes: seq<byte>, offset: int, limit: Option<int>, hashes: bool) returns (r: ReadResult)
    ensures
      r.Page? <==>
        !LooksBinary(bytes) && (limit.Some? ==> limit.value > 0) && 0 <= offset <= |FileLines(bytes)|
    ensures r.Page? ==>
      var lines := FileLines(bytes);
      var count := if limit.None? then 200 else if limit.value > 500 then 500 else limit.value;
      var end := if offset + count < |lines| then offset + count else |lines|;
      && r.text == Rows(lines[offset..end], hashes)
      && r.nextLine == (if end < |lines| then Some(end + 1) else None)
      && (offset < |lines| ==> offset < end)
    ensures r == Declined(Binary) <==> LooksBinary(bytes)
    ensures r == Declined(LimitNotPositive) <==> !LooksBinary(bytes) && limit.Some? && limit.value <= 0
    ensures r == Declined(NegativeOffset) <==> !LooksBinary(bytes) && (limit.Some? ==> limit.value > 0) && offset < 0
  {
    hide Rows;
    if LooksBinary(bytes) {
      return Declined(Binary);
    }
    var count := ClampInt(if limit.Some? then limit.value else DEFAULT_LINES, 1, MAX_LINES, DEFAULT_LINES);
    if limit.Some? && limit.value <= 0 {
      return Declined(LimitNotPositive);
    }
    if offset < 0 {
      return Declined(NegativeOffset);
    }
    var lines := ParseFile(bytes);
    if offset > |lines| {
      return Declined(PastEnd);
    }
    var text, truncated, nextLine := FormatRead(lines, offset, count, hashes);
    r := Page(text, if truncated then Some(nextLine) else None);
  }
}
