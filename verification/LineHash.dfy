/** The four-digit hash that anchors an edit to a line. */
module LineHash {

  type byte = bv8

  const TAB: byte := 9
  const LF: byte := 10
  const CR: byte := 13
  const SPACE: byte := 32

  const FNV_BASIS: bv32 := 2166136261
  /** Its low half. */
  const BASIS16: bv16 := 0x9DC5

  /** std::isspace in the C locale. */
  predicate IsSpace(b: byte) { b == SPACE || TAB <= b <= CR }

  predicate AllSpace(s: seq<byte>) { forall k :: 0 <= k < |s| ==> IsSpace(s[k]) }

  function Untab(s: seq<byte>): (r: seq<byte>)
    ensures |r| == |s|
    ensures forall k :: 0 <= k < |s| ==> r[k] == if s[k] == TAB then SPACE else s[k]
  {
    if s == [] then [] else [if s[0] == TAB then SPACE else s[0]] + Untab(s[1..])
  }

  function TrimLeft(s: seq<byte>): seq<byte> {
    if s != [] && IsSpace(s[0]) then TrimLeft(s[1..]) else s
  }

  function TrimRight(s: seq<byte>): seq<byte> {
    if s != [] && IsSpace(s[|s| - 1]) then TrimRight(s[..|s| - 1]) else s
  }

  function Normalized(line: seq<byte>): seq<byte> { TrimRight(TrimLeft(Untab(line))) }

  /** `t` is `s` less the blanks around it. */
  ghost predicate IsTrimOf(t: seq<byte>, s: seq<byte>, front: seq<byte>, back: seq<byte>) {
    && s == front + t + back
    && AllSpace(front) && AllSpace(back)
    && (t == [] ==> back == [])
    && (t != [] ==> !IsSpace(t[0]) && !IsSpace(t[|t| - 1]))
  }

  lemma TrimLeftSplits(s: seq<byte>) returns (front: seq<byte>)
    ensures s == front + TrimLeft(s) && AllSpace(front)
    ensures TrimLeft(s) != [] ==> !IsSpace(TrimLeft(s)[0])
  {
    front := [];
    if s != [] && IsSpace(s[0]) {
      var f := TrimLeftSplits(s[1..]);
      front := [s[0]] + f;
    }
  }

  lemma TrimRightSplits(s: seq<byte>) returns (back: seq<byte>)
    ensures s == TrimRight(s) + back && AllSpace(back)
    ensures TrimRight(s) != [] ==> !IsSpace(TrimRight(s)[|TrimRight(s)| - 1])
  {
    back := [];
    if s != [] && IsSpace(s[|s| - 1]) {
      var b := TrimRightSplits(s[..|s| - 1]);
      back := b + [s[|s| - 1]];
    }
  }

  /** Normalization removes blanks at the two ends only, all of them, and turns the tabs that are
      left into spaces. */
  lemma NormalizedTrims(line: seq<byte>) returns (front: seq<byte>, back: seq<byte>)
    ensures IsTrimOf(Normalized(line), Untab(line), front, back)
  {
    var u := Untab(line);
    front := TrimLeftSplits(u);
    back := TrimRightSplits(TrimLeft(u));
    var t := Normalized(line);
    assert u == front + t + back;
    if TrimLeft(u) != [] {
      assert (t + back)[0] == TrimLeft(u)[0];
      assert back != [] ==> IsSpace(back[0]);
    }
  }

  /** That description leaves one answer. */
  lemma TrimUnique(s: seq<byte>, t1: seq<byte>, f1: seq<byte>, b1: seq<byte>,
      t2: seq<byte>, f2: seq<byte>, b2: seq<byte>)
    requires IsTrimOf(t1, s, f1, b1) && IsTrimOf(t2, s, f2, b2)
    ensures t1 == t2
  {
    EndsAgree(s, t1, f1, b1, t2, f2, b2);
    EndsAgree(s, t2, f2, b2, t1, f1, b1);
    if t1 != [] {
      assert t1 == s[|f1|..|s| - |b1|];
      assert t2 == s[|f2|..|s| - |b2|];
    }
  }

  lemma EndsAgree(s: seq<byte>, t1: seq<byte>, f1: seq<byte>, b1: seq<byte>,
      t2: seq<byte>, f2: seq<byte>, b2: seq<byte>)
    requires IsTrimOf(t1, s, f1, b1) && IsTrimOf(t2, s, f2, b2)
    ensures t1 != [] ==> t2 != [] && |f2| <= |f1| && |b2| <= |b1|
  {
    if t1 != [] {
      var p, q := |f1|, |f1| + |t1| - 1;
      assert s[p] == t1[0] && s[q] == t1[|t1| - 1];
      assert forall k :: 0 <= k < |f2| ==> s[k] == f2[k];
      assert forall k :: |f2| + |t2| <= k < |s| ==> s[k] == b2[k - (|f2| + |t2|)];
    }
  }

  lemma UntabLeavesNoTab(s: seq<byte>)
    ensures forall k :: 0 <= k < |s| ==> Untab(s)[k] != TAB
  {
  }

  lemma UntabNothing(s: seq<byte>)
    requires forall k :: 0 <= k < |s| ==> s[k] != TAB
    ensures Untab(s) == s
  {
  }

  /** Normalizing twice is normalizing once. */
  lemma NormalizeIdempotent(line: seq<byte>)
    ensures Normalized(Normalized(line)) == Normalized(line)
  {
    hide IsSpace;
    var n, u := Normalized(line), Untab(line);
    var f, b := NormalizedTrims(line);
    UntabLeavesNoTab(line);
    assert forall k :: 0 <= k < |n| ==> n[k] == u[|f| + k];
    UntabNothing(n);
  }

  method NormalizeLine(line: seq<byte>) returns (s: seq<byte>)
    ensures s == Normalized(line)
  {
    hide IsSpace, Untab;
    s := line;
    for i := 0 to |s|
      invariant |s| == |line|
      invariant forall k :: 0 <= k < i ==> s[k] == Untab(line)[k]
      invariant forall k :: i <= k < |line| ==> s[k] == line[k]
    {
      if s[i] == TAB {
        s := s[i := SPACE];
      }
    }
    assert s == Untab(line);
    ghost var u := s;
    var first := 0;
    while first < |s| && IsSpace(s[first])
      invariant 0 <= first <= |s|
      invariant TrimLeft(s[first..]) == TrimLeft(u)
    {
      assert s[first..][1..] == s[first + 1..];
      first := first + 1;
    }
    s := s[first..];
    assert s == TrimLeft(u);
    ghost var v := s;
    var last := |s|;
    assert s[..last] == s;
    while last > 0 && IsSpace(s[last - 1])
      invariant 0 <= last <= |s|
      invariant TrimRight(s[..last]) == TrimRight(v)
    {
      assert s[..last][..last - 1] == s[..last - 1];
      last := last - 1;
    }
    s := s[..last];
  }

  // ---------------------------------------------------------------------------------------------
  // FNV-1a cut to sixteen bits

  /** The FNV prime, and its low half. */
  function Times32(x: bv32): bv32 { x * 16777619 }

  function Times16(x: bv16): bv16 { x * 403 }

  function Step32(h: bv32, c: byte): bv32 { Times32(h ^ (c as bv32)) }

  function Step16(h: bv16, c: byte): bv16 { Times16(h ^ (c as bv16)) }

  /** FNV-1a over `s` from state `h` (section 2 of draft-eastlake-fnv). */
  function Fnv32(h: bv32, s: seq<byte>): bv32
    decreases |s|
  {
    if s == [] then h else Fnv32(Step32(h, s[0]), s[1..])
  }

  /** The same fold on sixteen bits. */
  function Fold16(h: bv16, s: seq<byte>): bv16
    decreases |s|
  {
    if s == [] then h else Fold16(Step16(h, s[0]), s[1..])
  }

  function Low16(h: bv32): bv16 { (h & 0xFFFF) as bv16 }

  lemma LowHalfOfProduct(x: bv32)
    ensures ((x * 16777619) & 0xFFFF) as bv16 == ((x & 0xFFFF) as bv16) * 403
  {
  }

  lemma LowHalfOfXor(h: bv32, c: byte)
    ensures ((h ^ (c as bv32)) & 0xFFFF) as bv16 == ((h & 0xFFFF) as bv16) ^ (c as bv16)
  {
  }

  lemma Low16Times(x: bv32)
    ensures Low16(Times32(x)) == Times16(Low16(x))
  {
    LowHalfOfProduct(x);
  }

  lemma Low16Xor(h: bv32, c: byte)
    ensures Low16(h ^ (c as bv32)) == Low16(h) ^ (c as bv16)
  {
    LowHalfOfXor(h, c);
  }

  lemma Low16Step(h: bv32, c: byte)
    ensures Low16(Step32(h, c)) == Step16(Low16(h), c)
  {
    hide Times32, Times16, Low16;
    Low16Xor(h, c);
    Low16Times(h ^ (c as bv32));
  }

  /** The low sixteen bits of FNV-1a never look at the high ones. */
  lemma {:induction false} FnvLowHalf(h: bv32, s: seq<byte>)
    ensures Low16(Fnv32(h, s)) == Fold16(Low16(h), s)
    decreases |s|
  {
    hide Step32, Step16, Low16;
    if s != [] {
      Low16Step(h, s[0]);
      FnvLowHalf(Step32(h, s[0]), s[1..]);
    }
  }

  /** 403 is odd, so multiplying by it can be undone: 403 * 17563 = 1 modulo 65536. */
  lemma ProductUndone(x: bv16)
    ensures x * 403 * 17563 == x
  {
  }

  lemma Times16Injective(x: bv16, y: bv16)
    requires Times16(x) == Times16(y)
    ensures x == y
  {
    ProductUndone(x);
    ProductUndone(y);
  }

  /** One step is a bijection in the state for a fixed byte, and one-to-one in the byte for a fixed
      state. */
  lemma StepInjective(h1: bv16, h2: bv16, c1: byte, c2: byte)
    requires Step16(h1, c1) == Step16(h2, c2)
    ensures c1 == c2 ==> h1 == h2
    ensures h1 == h2 ==> c1 == c2
  {
    hide Times16;
    Times16Injective(h1 ^ (c1 as bv16), h2 ^ (c2 as bv16));
    XorCancels(h1, h2, c1, c2);
  }

  lemma XorCancels(h1: bv16, h2: bv16, c1: byte, c2: byte)
    requires h1 ^ (c1 as bv16) == h2 ^ (c2 as bv16)
    ensures c1 == c2 ==> h1 == h2
    ensures h1 == h2 ==> c1 == c2
  {
  }

  lemma {:induction false} FoldInjective(h1: bv16, h2: bv16, s: seq<byte>)
    requires Fold16(h1, s) == Fold16(h2, s)
    ensures h1 == h2
    decreases |s|
  {
    hide Step16;
    if s != [] {
      FoldInjective(Step16(h1, s[0]), Step16(h2, s[0]), s[1..]);
      StepInjective(h1, h2, s[0], s[0]);
    }
  }

  lemma {:induction false} FoldConcat(h: bv16, s: seq<byte>, t: seq<byte>)
    ensures Fold16(h, s + t) == Fold16(Fold16(h, s), t)
    decreases |s|
  {
    hide Step16;
    if s == [] {
      assert s + t == t;
    } else {
      assert (s + t)[1..] == s[1..] + t;
      FoldConcat(Step16(h, s[0]), s[1..], t);
    }
  }

  /** `a` and `b` have equal length and differ at `k` and nowhere else. */
  ghost predicate OneByteApart(a: seq<byte>, b: seq<byte>, k: nat) {
    |a| == |b| && k < |a| && a[k] != b[k] && forall i :: 0 <= i < |a| && i != k ==> a[i] == b[i]
  }

  lemma FoldSeesOneByte(h: bv16, a: seq<byte>, b: seq<byte>, k: nat)
    requires OneByteApart(a, b, k)
    ensures Fold16(h, a) != Fold16(h, b)
  {
    hide Step16;
    var p, q := a[..k], a[k + 1..];
    assert a == p + ([a[k]] + q);
    assert b == p + ([b[k]] + q);
    FoldConcat(h, p, [a[k]] + q);
    FoldConcat(h, p, [b[k]] + q);
    var g := Fold16(h, p);
    assert ([a[k]] + q)[1..] == q && ([b[k]] + q)[1..] == q;
    var ga, gb := Step16(g, a[k]), Step16(g, b[k]);
    if Fold16(h, a) == Fold16(h, b) {
      FoldInjective(ga, gb, q);
      StepInjective(g, g, a[k], b[k]);
      assert false;
    }
  }

  // ---------------------------------------------------------------------------------------------
  // Four hexadecimal digits

  /** The lower-case digit of a nibble, in ASCII. */
  function HexDigit(x: bv16): byte {
    var d := (x & 15) as bv8;
    if d < 10 then d + 48 else d + 87
  }

  function Nibble(h: bv16, k: nat): bv16 {
    match k
    case 0 => h & 15
    case 1 => (h >> 4) & 15
    case 2 => (h >> 8) & 15
    case _ => (h >> 12) & 15
  }

  /** What "%04x" prints for a sixteen-bit value. */
  function Hex4(h: bv16): (r: seq<byte>)
    ensures |r| == 4
  {
    [HexDigit(Nibble(h, 3)), HexDigit(Nibble(h, 2)), HexDigit(Nibble(h, 1)), HexDigit(Nibble(h, 0))]
  }

  lemma HexDigitInjective(x: bv16, y: bv16)
    requires x < 16 && y < 16 && HexDigit(x) == HexDigit(y)
    ensures x == y
  {
  }

  lemma NibbleBound(h: bv16, k: nat)
    ensures Nibble(h, k) < 16
  {
  }

  lemma ShiftsDecide(x: bv16, y: bv16)
    requires (x >> 12) & 15 == (y >> 12) & 15 && (x >> 8) & 15 == (y >> 8) & 15
    requires (x >> 4) & 15 == (y >> 4) & 15 && x & 15 == y & 15
    ensures x == y
  {
  }

  lemma NibblesDecide(x: bv16, y: bv16)
    requires Nibble(x, 3) == Nibble(y, 3) && Nibble(x, 2) == Nibble(y, 2)
    requires Nibble(x, 1) == Nibble(y, 1) && Nibble(x, 0) == Nibble(y, 0)
    ensures x == y
  {
    ShiftsDecide(x, y);
  }

  lemma Hex4Injective(x: bv16, y: bv16)
    requires Hex4(x) == Hex4(y)
    ensures x == y
  {
    hide HexDigit, Nibble;
    forall k: nat | k < 4 ensures Nibble(x, k) == Nibble(y, k) {
      NibbleBound(x, k);
      NibbleBound(y, k);
      assert Hex4(x)[3 - k] == Hex4(y)[3 - k];
      HexDigitInjective(Nibble(x, k), Nibble(y, k));
    }
    NibblesDecide(x, y);
  }

  /** The anchor of a line: the sixteen-bit fold of its normal form, in hexadecimal. */
  function HashOf(line: seq<byte>): (r: seq<byte>)
    ensures |r| == 4
  {
    Hex4(Fold16(BASIS16, Normalized(line)))
  }

  /** The loop runs FNV-1a on thirty-two bits and prints the low half. */
  method Hash(line: seq<byte>) returns (r: seq<byte>)
    ensures r == HashOf(line)
  {
    hide Times32;
    var n := NormalizeLine(line);
    var h := FNV_BASIS;
    for i := 0 to |n|
      invariant Fnv32(h, n[i..]) == Fnv32(FNV_BASIS, n)
    {
      assert n[i..][0] == n[i] && n[i..][1..] == n[i + 1..];
      h := h ^ (n[i] as bv32);
      h := Times32(h);
    }
    FnvLowHalf(FNV_BASIS, n);
    BasisLowHalf();
    r := Hex4(Low16(h));
  }

  lemma BasisLowHalf()
    ensures Low16(FNV_BASIS) == BASIS16
  {
  }

  /** Lines that differ only in the blanks around them or in tabs against spaces hash alike. */
  lemma HashIgnoresNormalization(line: seq<byte>)
    ensures HashOf(Normalized(line)) == HashOf(line)
  {
    NormalizeIdempotent(line);
  }

  /** Changing one byte of the normal form always changes the hash. */
  lemma HashDetectsOneByte(a: seq<byte>, b: seq<byte>, k: nat)
    requires OneByteApart(Normalized(a), Normalized(b), k)
    ensures HashOf(a) != HashOf(b)
  {
    FoldSeesOneByte(BASIS16, Normalized(a), Normalized(b), k);
    if HashOf(a) == HashOf(b) {
      Hex4Injective(Fold16(BASIS16, Normalized(a)), Fold16(BASIS16, Normalized(b)));
      assert false;
    }
  }

  /** Known anchors: "9dc5" of an empty line, "292c" of "a", "05ca" of "ab" between a space and a tab. */
  lemma KnownHashes()
    ensures HashOf([]) == [57, 100, 99, 53]
    ensures HashOf([97]) == [50, 57, 50, 99]
    ensures HashOf([32, 97, 98, 9]) == [48, 53, 99, 97]
  {
    assert Fold16(BASIS16, []) == 0x9dc5;
    assert Fold16(BASIS16, [97]) == 0x292c;
    var s: seq<byte> := [32, 97, 98, 9];
    var u, v, w: seq<byte> := [32, 97, 98, 32], [97, 98, 32], [97, 98];
    assert u[1..] == v && v[..2] == w && w[1..] == [98];
    assert Untab(s) == u && TrimLeft(u) == v && TrimRight(v) == w;
    assert Fold16(BASIS16, w) == 0x05ca;
    assert Normalized([97]) == [97] && Normalized([]) == [];
  }
}
