/** The example plugin's Base64 encoder against the decoder of section 4 of RFC 4648. */
module Base64 {
  import opened Options

  type byte = bv8

  const PAD := '='

  /** A six-bit value in a byte. */
  predicate IsSextet(x: byte) { x < 64 }

  /** The alphabet in table order: upper case, lower case, digits, plus, slash. */
  function SymbolAt(i: nat): char
    requires i < 64
  {
    if i < 26 then 'A' + (i as char)
    else if i < 52 then 'a' + ((i - 26) as char)
    else if i < 62 then '0' + ((i - 52) as char)
    else if i == 62 then '+' else '/'
  }

  function Symbol(x: byte): char
    requires IsSextet(x)
  {
    SextetIndex(x);
    SymbolAt(x as int)
  }

  lemma SextetIndex(x: byte)
    requires IsSextet(x)
    ensures 0 <= x as int < 64 && (x as int) as bv8 == x
  {
  }

  /** The four sextets of three bytes, as the encoder shifts and masks them. */
  function Sextet0(b0: byte): byte { (b0 >> 2) & 0x3F }

  function Sextet1(b0: byte, b1: byte): byte { ((b0 & 0x03) << 4) | ((b1 >> 4) & 0x0F) }

  function Sextet2(b1: byte, b2: byte): byte { ((b1 & 0x0F) << 2) | ((b2 >> 6) & 0x03) }

  function Sextet3(b2: byte): byte { b2 & 0x3F }

  /** The three bytes of four sextets. */
  function Byte0(s0: byte, s1: byte): byte { (s0 << 2) | (s1 >> 4) }

  function Byte1(s1: byte, s2: byte): byte { (s1 << 4) | (s2 >> 2) }

  function Byte2(s2: byte, s3: byte): byte { (s2 << 6) | s3 }

  lemma SextetsFit(b0: byte, b1: byte, b2: byte)
    ensures IsSextet(Sextet0(b0)) && IsSextet(Sextet1(b0, b1)) && IsSextet(Sextet2(b1, b2)) && IsSextet(Sextet3(b2))
  {
  }

  lemma BytesOfSextets(b0: byte, b1: byte, b2: byte)
    ensures Byte0(Sextet0(b0), Sextet1(b0, b1)) == b0
    ensures Byte1(Sextet1(b0, b1), Sextet2(b1, b2)) == b1
    ensures Byte2(Sextet2(b1, b2), Sextet3(b2)) == b2
  {
  }

  lemma SextetsOfBytes(s0: byte, s1: byte, s2: byte, s3: byte)
    requires IsSextet(s0) && IsSextet(s1) && IsSextet(s2) && IsSextet(s3)
    ensures Sextet0(Byte0(s0, s1)) == s0
    ensures Sextet1(Byte0(s0, s1), Byte1(s1, s2)) == s1
    ensures Sextet2(Byte1(s1, s2), Byte2(s2, s3)) == s2
    ensures Sextet3(Byte2(s2, s3)) == s3
    ensures s1 & 0x0F == 0 ==> Sextet1(Byte0(s0, s1), 0) == s1
    ensures s2 & 0x03 == 0 ==> Sextet2(Byte1(s1, s2), 0) == s2
  {
  }

  lemma PaddingBits(b0: byte, b1: byte)
    ensures Sextet1(b0, 0) & 0x0F == 0 && Sextet2(b1, 0) & 0x03 == 0
    ensures Byte0(Sextet0(b0), Sextet1(b0, 0)) == b0
    ensures Byte1(Sextet1(b0, b1), Sextet2(b1, 0)) == b1
  {
  }

  /** One group of one to three bytes. */
  function Group(g: seq<byte>): (r: string)
    requires 1 <= |g| <= 3
    ensures |r| == 4
  {
    var b0, b1, b2 := g[0], if |g| > 1 then g[1] else 0, if |g| > 2 then g[2] else 0;
    SextetsFit(b0, b1, b2);
    [Symbol(Sextet0(b0)), Symbol(Sextet1(b0, b1)),
     if |g| > 1 then Symbol(Sextet2(b1, b2)) else PAD,
     if |g| > 2 then Symbol(Sextet3(b2)) else PAD]
  }

  function Encoded(input: seq<byte>): string {
    if input == [] then []
    else if |input| <= 3 then Group(input)
    else Group(input[..3]) + Encoded(input[3..])
  }

  function GroupAt(input: seq<byte>, i: nat): (g: seq<byte>)
    requires i < |input|
    ensures 1 <= |g| <= 3
  {
    if i + 3 <= |input| then input[i..i + 3] else input[i..]
  }

  /** One round of the loop: missing bytes count as zero, their symbols as padding. */
  method EncodeGroup(input: seq<byte>, i: nat) returns (q: string)
    requires i < |input|
    ensures q == Group(GroupAt(input, i))
  {
    hide Symbol, Sextet0, Sextet1, Sextet2, Sextet3;
    var b0 := input[i];
    var b1 := if i + 1 < |input| then input[i + 1] else 0;
    var b2 := if i + 2 < |input| then input[i + 2] else 0;
    SextetsFit(b0, b1, b2);
    var c0 := Symbol(Sextet0(b0));
    var c1 := Symbol(Sextet1(b0, b1));
    var c2 := if i + 1 < |input| then Symbol(Sextet2(b1, b2)) else PAD;
    var c3 := if i + 2 < |input| then Symbol(Sextet3(b2)) else PAD;
    q := [c0, c1, c2, c3];
  }

  /** The loop over groups of three, appending four symbols a round. */
  method Encode(input: seq<byte>) returns (out: string)
    ensures out == Encoded(input)
  {
    hide Group, Encoded, GroupAt;
    out := [];
    var i := 0;
    EncodedNothing();
    assert input[0..] == input;
    while i < |input|
      invariant 0 <= i
      invariant Encoded(input) == out + if i < |input| then Encoded(input[i..]) else []
    {
      var q := EncodeGroup(input, i);
      EncodedAt(input, i);
      out := out + q;
      i := i + 3;
    }
  }

  lemma EncodedNothing()
    ensures Encoded([]) == []
  {
  }

  lemma EncodedAt(input: seq<byte>, i: nat)
    requires i < |input|
    ensures Encoded(input[i..]) == Group(GroupAt(input, i)) + if i + 3 < |input| then Encoded(input[i + 3..]) else []
  {
    hide Group;
    var rest := input[i..];
    if |rest| > 3 {
      assert rest[3..] == input[i + 3..] && rest[..3] == input[i..i + 3];
    } else if |rest| == 3 {
      assert input[i..i + 3] == rest;
    }
  }

  // ---------------------------------------------------------------------------------------------
  // The decoder

  /** The place of a character in the alphabet, or -1. */
  function PlaceOf(c: char): (i: int)
    ensures -1 <= i < 64
  {
    if 'A' <= c <= 'Z' then c as int - 'A' as int
    else if 'a' <= c <= 'z' then c as int - 'a' as int + 26
    else if '0' <= c <= '9' then c as int - '0' as int + 52
    else if c == '+' then 62
    else if c == '/' then 63
    else -1
  }

  /** The sextet a symbol stands for. */
  function Value(c: char): Option<byte> {
    if PlaceOf(c) >= 0 then Some(PlaceOf(c) as bv8) else None
  }

  lemma IntRoundTrip(i: int)
    requires 0 <= i < 64
    ensures (i as bv8) as int == i
  {
  }

  lemma SmallIsSextet(x: byte)
    requires x as int < 64
    ensures IsSextet(x)
  {
  }

  lemma PlaceOfSymbolAt(i: nat)
    requires i < 64
    ensures PlaceOf(SymbolAt(i)) == i && SymbolAt(i) != PAD
  {
  }

  lemma SymbolAtPlace(c: char)
    requires PlaceOf(c) >= 0
    ensures SymbolAt(PlaceOf(c)) == c
  {
  }

  lemma ValueOfSymbol(x: byte)
    requires IsSextet(x)
    ensures Value(Symbol(x)) == Some(x) && Symbol(x) != PAD
  {
    hide SymbolAt, PlaceOf;
    SextetIndex(x);
    PlaceOfSymbolAt(x as int);
  }

  lemma SymbolOfValue(c: char)
    requires Value(c).Some?
    ensures IsSextet(Value(c).value) && Symbol(Value(c).value) == c
  {
    hide SymbolAt, PlaceOf;
    var i := PlaceOf(c);
    IntRoundTrip(i);
    SmallIsSextet(i as bv8);
    SymbolAtPlace(c);
  }

  /** One group of four symbols: three bytes, or fewer with padding, whose unused bits must be zero
      (section 3.5). */
  function DecodedGroup(q: string): (r: Option<seq<byte>>)
    requires |q| == 4
    ensures r.Some? ==> 1 <= |r.value| <= 3
  {
    var v0, v1, v2, v3 := Value(q[0]), Value(q[1]), Value(q[2]), Value(q[3]);
    if v0.None? || v1.None? then None
    else if q[2] == PAD && q[3] == PAD then
      if v1.value & 0x0F == 0 then Some([Byte0(v0.value, v1.value)]) else None
    else if v2.None? then None
    else if q[3] == PAD then
      if v2.value & 0x03 == 0 then Some([Byte0(v0.value, v1.value), Byte1(v1.value, v2.value)]) else None
    else if v3.None? then None
    else Some([Byte0(v0.value, v1.value), Byte1(v1.value, v2.value), Byte2(v2.value, v3.value)])
  }

  /** Groups of four; only the last may be padded. */
  function Decoded(s: string): Option<seq<byte>> {
    if s == [] then Some([])
    else if |s| < 4 then None
    else if |s| == 4 then DecodedGroup(s)
    else
      var g := DecodedGroup(s[..4]);
      if g.None? || |g.value| < 3 then None
      else
        match Decoded(s[4..])
        case None => None
        case Some(rest) => Some(g.value + rest)
  }

  lemma GroupRoundTrip(g: seq<byte>)
    requires 1 <= |g| <= 3
    ensures DecodedGroup(Group(g)) == Some(g)
  {
    hide Symbol, Value, Sextet0, Sextet1, Sextet2, Sextet3, Byte0, Byte1, Byte2;
    var b0, b1, b2 := g[0], if |g| > 1 then g[1] else 0, if |g| > 2 then g[2] else 0;
    SextetsFit(b0, b1, b2);
    ValueOfSymbol(Sextet0(b0));
    ValueOfSymbol(Sextet1(b0, b1));
    ValueOfSymbol(Sextet2(b1, b2));
    ValueOfSymbol(Sextet3(b2));
    BytesOfSextets(b0, b1, b2);
    PaddingBits(b0, b1);
    PadHasNoValue();
    assert g == if |g| == 1 then [b0] else if |g| == 2 then [b0, b1] else [b0, b1, b2];
  }

  lemma GroupCanonical(q: string)
    requires |q| == 4 && DecodedGroup(q).Some?
    ensures Group(DecodedGroup(q).value) == q
  {
    hide Symbol, Value, Sextet0, Sextet1, Sextet2, Sextet3, Byte0, Byte1, Byte2, IsSextet;
    SymbolOfValue(q[0]);
    SymbolOfValue(q[1]);
    PadHasNoValue();
    var s0, s1 := Value(q[0]).value, Value(q[1]).value;
    if q[2] == PAD {
      SextetsOfBytesPadded(s0, s1, 0);
    } else {
      SymbolOfValue(q[2]);
      var s2 := Value(q[2]).value;
      if q[3] == PAD {
        SextetsOfBytesPadded(s0, s1, s2);
      } else {
        SymbolOfValue(q[3]);
        SextetsOfBytes(s0, s1, s2, Value(q[3]).value);
      }
    }
  }

  lemma PadHasNoValue()
    ensures Value(PAD) == None
  {
  }

  lemma SextetsOfBytesPadded(s0: byte, s1: byte, s2: byte)
    requires IsSextet(s0) && IsSextet(s1) && IsSextet(s2)
    ensures Sextet0(Byte0(s0, s1)) == s0
    ensures Sextet1(Byte0(s0, s1), Byte1(s1, s2)) == s1
    ensures s1 & 0x0F == 0 ==> Sextet1(Byte0(s0, s1), 0) == s1
    ensures s2 & 0x03 == 0 ==> Sextet2(Byte1(s1, s2), 0) == s2
  {
    SextetsOfBytes(s0, s1, s2, 0);
  }

  /** Decoding undoes encoding, for every byte string. */
  lemma {:induction false} DecodeEncode(input: seq<byte>)
    ensures Decoded(Encoded(input)) == Some(input)
    decreases |input|
  {
    hide Group, DecodedGroup;
    if input != [] {
      if |input| <= 3 {
        GroupRoundTrip(input);
      } else {
        var s := Encoded(input);
        GroupRoundTrip(input[..3]);
        DecodeEncode(input[3..]);
        EncodedShape(input[3..]);
        assert s[..4] == Group(input[..3]) && s[4..] == Encoded(input[3..]);
        assert input == input[..3] + input[3..];
      }
    }
  }

  /** And encoding undoes decoding: whatever the strict decoder takes is the encoding of what it
      gives. */
  lemma {:induction false} EncodeDecode(s: string)
    requires Decoded(s).Some?
    ensures Encoded(Decoded(s).value) == s
    decreases |s|
  {
    hide Group, DecodedGroup;
    if s != [] {
      if |s| == 4 {
        GroupCanonical(s);
      } else {
        GroupCanonical(s[..4]);
        EncodeDecode(s[4..]);
        var g, rest := DecodedGroup(s[..4]).value, Decoded(s[4..]).value;
        assert rest != [] by {
          assert Encoded(rest) == s[4..];
        }
        assert (g + rest)[..3] == g && (g + rest)[3..] == rest;
        assert s == s[..4] + s[4..];
      }
    }
  }

  function Pads(n: nat): nat { if n % 3 == 0 then 0 else 3 - n % 3 }

  /** Four symbols for every three bytes begun; every character is of the alphabet except the
      padding, which fills the last group and is one or two characters long or absent. */
  ghost predicate Shaped(e: string, n: nat) {
    && |e| == (n + 2) / 3 * 4
    && (forall k :: 0 <= k < |e| - Pads(n) ==> Value(e[k]).Some?)
    && (forall k :: |e| - Pads(n) <= k < |e| ==> 0 <= k && e[k] == PAD)
  }

  lemma ShapedAppend(q: string, rest: string, n: nat)
    requires |q| == 4 && Shaped(rest, n) && forall k :: 0 <= k < 4 ==> Value(q[k]).Some?
    ensures n > 0 ==> Shaped(q + rest, n + 3)
  {
    hide Value;
    assert Pads(n + 3) == Pads(n);
    assert n > 0 ==> |rest| >= 4;
  }

  lemma {:induction false} EncodedShape(input: seq<byte>)
    ensures Shaped(Encoded(input), |input|)
    decreases |input|
  {
    hide Value, Group, Shaped;
    if input == [] {
      ShapedNothing();
    } else {
      if |input| <= 3 {
        GroupShaped(input);
      } else {
        var q, rest := Group(input[..3]), Encoded(input[3..]);
        GroupShape(input[..3]);
        EncodedShape(input[3..]);
        forall k | 0 <= k < 4 ensures Value(q[k]).Some? {
          assert k == 0 || k == 1 || k == 2 || k == 3;
        }
        ShapedAppend(q, rest, |input| - 3);
      }
    }
  }

  lemma ShapedNothing()
    ensures Shaped([], 0)
  {
  }

  lemma GroupShaped(g: seq<byte>)
    requires 1 <= |g| <= 3
    ensures Shaped(Group(g), |g|)
  {
    hide Value, Group;
    GroupShape(g);
    var q := Group(g);
    forall k | 0 <= k < 4 - Pads(|g|) ensures Value(q[k]).Some? {
      assert k == 0 || k == 1 || k == 2 || k == 3;
    }
    forall k | 4 - Pads(|g|) <= k < 4 ensures q[k] == PAD {
      assert k == 2 || k == 3;
    }
  }

  lemma GroupShape(g: seq<byte>)
    requires 1 <= |g| <= 3
    ensures Value(Group(g)[0]).Some? && Value(Group(g)[1]).Some?
    ensures if |g| > 1 then Value(Group(g)[2]).Some? else Group(g)[2] == PAD
    ensures if |g| > 2 then Value(Group(g)[3]).Some? else Group(g)[3] == PAD
  {
    hide Value, Symbol, Sextet0, Sextet1, Sextet2, Sextet3;
    var b0, b1, b2 := g[0], if |g| > 1 then g[1] else 0, if |g| > 2 then g[2] else 0;
    SextetsFit(b0, b1, b2);
    ValueOfSymbol(Sextet0(b0));
    ValueOfSymbol(Sextet1(b0, b1));
    ValueOfSymbol(Sextet2(b1, b2));
    ValueOfSymbol(Sextet3(b2));
  }

  // ---------------------------------------------------------------------------------------------
  // The standard's table and bit order

  /** The characters of the alphabet, by their ASCII codes (table 1 of RFC 4648). */
  lemma SymbolCodes(i: nat)
    requires i < 64
    ensures
      SymbolAt(i) as int ==
        if i < 26 then 65 + i else if i < 52 then 71 + i else if i < 62 then i - 4 else if i == 62 then 43 else 47
  {
  }

  /** The 24 bits of a group, first byte first, are the 24 bits of its sextets, first sextet first. */
  lemma SextetsSpell(b0: byte, b1: byte, b2: byte)
    ensures
      ((b0 as bv24) << 16) | ((b1 as bv24) << 8) | (b2 as bv24) ==
        ((Sextet0(b0) as bv24) << 18) | ((Sextet1(b0, b1) as bv24) << 12)
        | ((Sextet2(b1, b2) as bv24) << 6) | (Sextet3(b2) as bv24)
  {
  }

  /** Two of the examples in section 10 of RFC 4648: "f" and "foo". */
  lemma KnownEncodings()
    ensures Encoded([0x66]) == "Zg==" && Encoded([0x66, 0x6F, 0x6F]) == "Zm9v"
  {
    assert Sextet0(0x66) == 25 && Sextet1(0x66, 0) == 32;
    assert Sextet1(0x66, 0x6F) == 38 && Sextet2(0x6F, 0x6F) == 61 && Sextet3(0x6F) == 47;
    hide Sextet0, Sextet1, Sextet2, Sextet3;
    assert Symbol(25) == 'Z' && Symbol(32) == 'g';
    assert Symbol(38) == 'm' && Symbol(61) == '9' && Symbol(47) == 'v';
  }
}
