/** Prompt templates: cleaning a variable of template marks and filling placeholders. */
module SkillTemplate {

  /** The first index of two `c` in a row, or `|s|`. */
  function FindPair(s: string, c: char): (i: nat)
    ensures i == |s| || (i + 1 < |s| && s[i] == c && s[i + 1] == c)
    ensures forall k :: 0 <= k < i && k + 1 < |s| ==> !(s[k] == c && s[k + 1] == c)
  {
    if |s| < 2 then |s|
    else if s[0] == c && s[1] == c then 0
    else 1 + FindPair(s[1..], c)
  }

  ghost predicate HasPair(s: string, c: char) {
    exists k :: 0 <= k && k + 1 < |s| && s[k] == c && s[k + 1] == c
  }

  /** One pass that drops pairs of `c` from left to right. */
  function Halve(s: string, c: char): (r: string)
    ensures |r| <= |s|
    decreases |s|
  {
    if s == [] then []
    else if |s| > 1 && s[0] == c && s[1] == c then Halve(s[2..], c)
    else [s[0]] + Halve(s[1..], c)
  }

  function RunLength(s: string, c: char): (n: nat)
    ensures n <= |s| && (forall k :: 0 <= k < n ==> s[k] == c) && (n < |s| ==> s[n] != c)
  {
    if s == [] || s[0] != c then 0 else 1 + RunLength(s[1..], c)
  }

  /** Every maximal run of `c` cut to its parity: an odd run keeps one `c`, an even run none. */
  function Parity(s: string, c: char): string
    decreases |s|
  {
    if s == [] then []
    else if s[0] != c then [s[0]] + Parity(s[1..], c)
    else
      var n := RunLength(s, c);
      (if n % 2 == 1 then [c] else []) + Parity(s[n..], c)
  }

  lemma RunOfPair(s: string, c: char)
    requires |s| > 1 && s[0] == c && s[1] == c
    ensures RunLength(s, c) == 2 + RunLength(s[2..], c) && Halve(s, c) == Halve(s[2..], c)
  {
    assert s[1..][1..] == s[2..];
  }

  lemma HalveKeepsHead(s: string, c: char)
    requires s != [] && !(|s| > 1 && s[0] == c && s[1] == c)
    ensures Halve(s, c) == [s[0]] + Halve(s[1..], c)
  {
  }

  lemma {:induction false} HalveRun(s: string, c: char)
    ensures
      var n := RunLength(s, c);
      Halve(s, c) == (if n % 2 == 1 then [c] else []) + Halve(s[n..], c)
    decreases |s|
  {
    hide RunLength, Halve;
    var n := RunLength(s, c);
    if n >= 2 {
      var t := s[2..];
      RunOfPair(s, c);
      HalveRun(t, c);
      assert t[n - 2..] == s[n..];
    } else if n == 1 {
      HalveKeepsHead(s, c);
    } else {
      assert s[0..] == s;
      assert [] + Halve(s, c) == Halve(s, c);
    }
  }

  lemma {:induction false} HalveIsParity(s: string, c: char)
    ensures Halve(s, c) == Parity(s, c)
    decreases |s|
  {
    if s != [] {
      if s[0] != c {
        HalveIsParity(s[1..], c);
      } else {
        HalveRun(s, c);
        HalveIsParity(s[RunLength(s, c)..], c);
      }
    }
  }

  /** Erasing the first pair does not change what a full pass leaves. */
  lemma {:induction false} EraseFirstPair(s: string, c: char)
    requires FindPair(s, c) < |s|
    ensures
      var i := FindPair(s, c);
      Halve(s[..i] + s[i + 2..], c) == Halve(s, c)
    decreases |s|
  {
    var i := FindPair(s, c);
    if i == 0 {
      assert s[..0] + s[2..] == s[2..];
    } else {
      EraseFirstPair(s[1..], c);
      var t := s[..i] + s[i + 2..];
      assert t[0] == s[0];
      assert t[1..] == s[1..][..i - 1] + s[1..][i - 1 + 2..];
      assert !(s[0] == c && s[1] == c);
      assert |t| > 1 && i > 1 ==> t[1] == s[1];
      assert i == 1 ==> s[1] == c;
    }
  }

  lemma {:induction false} HalveNothing(s: string, c: char)
    requires FindPair(s, c) == |s|
    ensures Halve(s, c) == s
    decreases |s|
  {
    if s != [] {
      if |s| == 1 {
        assert s[1..] == [];
      } else {
        HalveNothing(s[1..], c);
      }
    }
  }

  function Sanitized(value: string): string { Halve(Halve(value, '{'), '}') }

  /** Erase the first "{{" until none is left, then the first "}}" until none is left. */
  method SanitizeVariable(value: string) returns (result: string)
    ensures result == Sanitized(value)
  {
    result := value;
    var pos := FindPair(result, '{');
    while pos < |result|
      invariant pos == FindPair(result, '{') && Halve(result, '{') == Halve(value, '{')
      decreases |result|
    {
      EraseFirstPair(result, '{');
      result := result[..pos] + result[pos + 2..];
      pos := FindPair(result, '{');
    }
    HalveNothing(result, '{');
    pos := FindPair(result, '}');
    while pos < |result|
      invariant pos == FindPair(result, '}') && Halve(result, '}') == Sanitized(value)
      decreases |result|
    {
      EraseFirstPair(result, '}');
      result := result[..pos] + result[pos + 2..];
      pos := FindPair(result, '}');
    }
    HalveNothing(result, '}');
  }

  lemma {:induction false} HeadKept(s: string, c: char)
    requires Halve(s, c) != [] && Halve(s, c)[0] == c
    ensures s != [] && s[0] == c && RunLength(s, c) % 2 == 1
    decreases |s|
  {
    if |s| > 1 && s[0] == c && s[1] == c {
      HeadKept(s[2..], c);
      assert s[1..][1..] == s[2..];
    }
  }

  /** A pass leaves no pair of its own character. */
  lemma {:induction false} HalveLeavesNoPair(s: string, c: char)
    ensures !HasPair(Halve(s, c), c)
    decreases |s|
  {
    if s != [] {
      if |s| > 1 && s[0] == c && s[1] == c {
        HalveLeavesNoPair(s[2..], c);
      } else {
        var h, t := Halve(s, c), Halve(s[1..], c);
        HalveLeavesNoPair(s[1..], c);
        if t != [] && t[0] == c {
          HeadKept(s[1..], c);
        }
        forall k | 0 <= k && k + 1 < |h| ensures !(h[k] == c && h[k + 1] == c) {
          assert h[k + 1] == t[k];
          assert k > 0 ==> h[k] == t[k - 1];
        }
      }
    }
  }

  /** Two `c` with an even number of `d`, and nothing else, between them. */
  ghost predicate Bridge(s: string, c: char, d: char, i: int, j: int) {
    0 <= i < j < |s| && s[i] == c && s[j] == c && (j - i) % 2 == 1 && forall k :: i < k < j ==> s[k] == d
  }

  ghost predicate HasBridge(s: string, c: char, d: char) {
    exists i, j :: Bridge(s, c, d, i, j)
  }

  /** The string starts with an even number of `d` and then a `c`. */
  ghost predicate EvenThen(s: string, c: char, d: char, j: int) {
    0 <= j < |s| && s[j] == c && j % 2 == 0 && forall k :: 0 <= k < j ==> s[k] == d
  }

  lemma {:induction false} HeadAfterPass(s: string, c: char, d: char)
    requires c != d
    ensures (Halve(s, d) != [] && Halve(s, d)[0] == c) <==> exists j :: EvenThen(s, c, d, j)
    decreases |s|
  {
    if s != [] {
      if |s| > 1 && s[0] == d && s[1] == d {
        HeadAfterPass(s[2..], c, d);
        if Halve(s, d) != [] && Halve(s, d)[0] == c {
          var j :| EvenThen(s[2..], c, d, j);
          assert forall k :: 2 <= k < j + 2 ==> s[k] == s[2..][k - 2];
          assert EvenThen(s, c, d, j + 2);
        }
        if exists j :: EvenThen(s, c, d, j) {
          var j :| EvenThen(s, c, d, j);
          assert EvenThen(s[2..], c, d, j - 2);
        }
      } else {
        if s[0] == c {
          assert EvenThen(s, c, d, 0);
        }
      }
    }
  }

  /** Dropping pairs of `d` brings two `c` together exactly across an even number of `d`. */
  lemma {:induction false} PairAfterPass(s: string, c: char, d: char)
    requires c != d
    ensures HasPair(Halve(s, d), c) <==> HasBridge(s, c, d)
    decreases |s|
  {
    if s == [] {
    } else if |s| > 1 && s[0] == d && s[1] == d {
      PairAfterPass(s[2..], c, d);
      BridgeShift(s, c, d, 2);
    } else {
      PairAfterPass(s[1..], c, d);
      PairFront(Halve(s[1..], d), s[0], c);
      BridgeFront(s, c, d);
      HeadAfterPass(s[1..], c, d);
    }
  }

  lemma PairFront(t: string, x: char, c: char)
    ensures HasPair([x] + t, c) <==> HasPair(t, c) || (x == c && t != [] && t[0] == c)
  {
    var h := [x] + t;
    if HasPair(h, c) {
      var k :| 0 <= k && k + 1 < |h| && h[k] == c && h[k + 1] == c;
      assert h[k + 1] == t[k] && (k > 0 ==> h[k] == t[k - 1] && t[k - 1 + 1] == c);
    }
    if HasPair(t, c) {
      var k :| 0 <= k && k + 1 < |t| && t[k] == c && t[k + 1] == c;
      assert h[k + 1] == c && h[k + 1 + 1] == c;
    }
    if x == c && t != [] && t[0] == c {
      assert h[0] == c && h[0 + 1] == c;
    }
  }

  lemma BridgeFront(s: string, c: char, d: char)
    requires s != []
    ensures HasBridge(s, c, d) <==> HasBridge(s[1..], c, d) || (s[0] == c && exists j :: EvenThen(s[1..], c, d, j))
  {
    var u := s[1..];
    assert forall k :: 0 < k < |s| ==> s[k] == u[k - 1];
    if HasBridge(s, c, d) {
      var i, j :| Bridge(s, c, d, i, j);
      if i == 0 {
        assert EvenThen(u, c, d, j - 1);
      } else {
        assert Bridge(u, c, d, i - 1, j - 1);
      }
    }
    if HasBridge(u, c, d) {
      BridgeUp(s, c, d, 1);
    }
    if s[0] == c && exists j :: EvenThen(u, c, d, j) {
      var j :| EvenThen(u, c, d, j);
      assert Bridge(s, c, d, 0, j + 1);
    }
  }

  lemma BridgeUp(s: string, c: char, d: char, n: nat)
    requires n <= |s| && HasBridge(s[n..], c, d)
    ensures HasBridge(s, c, d)
  {
    var i, j :| Bridge(s[n..], c, d, i, j);
    assert forall k :: n <= k < |s| ==> s[k] == s[n..][k - n];
    assert Bridge(s, c, d, i + n, j + n);
  }

  lemma BridgeShift(s: string, c: char, d: char, n: nat)
    requires n <= |s| && forall k :: 0 <= k < n ==> s[k] != c
    ensures HasBridge(s, c, d) <==> HasBridge(s[n..], c, d)
  {
    if HasBridge(s, c, d) {
      var i, j :| Bridge(s, c, d, i, j);
      assert Bridge(s[n..], c, d, i - n, j - n);
    }
    if HasBridge(s[n..], c, d) {
      BridgeUp(s, c, d, n);
    }
  }

  /** `[i..j)` is a maximal run of `c`, of odd length. */
  ghost predicate OddRun(s: string, c: char, i: int, j: int) {
    && 0 <= i < j <= |s| && (j - i) % 2 == 1 && (forall p :: i <= p < j ==> s[p] == c)
    && (i > 0 ==> s[i - 1] != c) && (j < |s| ==> s[j] != c)
  }

  /** Read past every `d` and every even run of `c`, there comes an odd run of `c`, and the number of `d`
      passed is even, or odd where `odd` says so. */
  ghost predicate EvenThenOdd(s: string, c: char, d: char, odd: bool)
    decreases |s|
  {
    s != [] &&
    if s[0] == d then EvenThenOdd(s[1..], c, d, !odd)
    else s[0] == c && if RunLength(s, c) % 2 == 1 then !odd else EvenThenOdd(s[RunLength(s, c)..], c, d, odd)
  }

  /** Two odd runs of `c`; between them an even number of `d` and otherwise only even runs of `c`. */
  ghost predicate HasSpan(s: string, c: char, d: char) {
    exists i, j :: OddRun(s, c, i, j) && EvenThenOdd(s[j..], c, d, false)
  }

  /** After an even number of `d`, or an odd one, a `c`. */
  ghost predicate Leads(s: string, c: char, d: char, odd: bool) {
    s != [] && if s[0] == d then Leads(s[1..], c, d, !odd) else s[0] == c && !odd
  }

  ghost predicate ThenAt(s: string, c: char, d: char, odd: bool, j: int) {
    0 <= j < |s| && s[j] == c && j % 2 == (if odd then 1 else 0) && forall k :: 0 <= k < j ==> s[k] == d
  }

  lemma {:induction false} LeadsFrom(s: string, c: char, d: char, odd: bool, j: int)
    requires c != d && ThenAt(s, c, d, odd, j)
    ensures Leads(s, c, d, odd)
    decreases j
  {
    if j > 0 {
      assert forall k :: 1 <= k < |s| ==> s[1..][k - 1] == s[k];
      LeadsFrom(s[1..], c, d, !odd, j - 1);
    }
  }

  lemma {:induction false} LeadsTo(s: string, c: char, d: char, odd: bool) returns (j: int)
    requires c != d && Leads(s, c, d, odd)
    ensures ThenAt(s, c, d, odd, j)
  {
    j := 0;
    if s[0] == d {
      var i := LeadsTo(s[1..], c, d, !odd);
      assert forall k :: 1 <= k < |s| ==> s[1..][k - 1] == s[k];
      j := i + 1;
    }
  }

  lemma {:induction false} LeadsAfterPass(s: string, c: char, d: char, odd: bool)
    requires c != d
    ensures Leads(Halve(s, c), c, d, odd) <==> EvenThenOdd(s, c, d, odd)
    decreases |s|
  {
    hide Halve;
    if s == [] {
      HalveOfNothing(c);
    } else if s[0] == c {
      var n := RunLength(s, c);
      HalveRun(s, c);
      assert n > 0;
      if n % 2 == 0 {
        assert Halve(s, c) == Halve(s[n..], c);
        LeadsAfterPass(s[n..], c, d, odd);
      }
    } else {
      HalveKeepsHead(s, c);
      assert Halve(s, c)[1..] == Halve(s[1..], c);
      if s[0] == d {
        LeadsAfterPass(s[1..], c, d, !odd);
      }
    }
  }

  lemma HalveOfNothing(c: char)
    ensures Halve([], c) == []
  {
  }

  /** Characters that start no odd run can be left out in front. */
  lemma SpanShift(s: string, c: char, d: char, n: nat)
    requires n <= |s| && (n < |s| ==> s[n] != c || n == 0 || s[n - 1] != c)
    requires forall i, j :: OddRun(s, c, i, j) ==> i >= n
    ensures HasSpan(s, c, d) <==> HasSpan(s[n..], c, d)
  {
    hide EvenThenOdd;
    var t := s[n..];
    assert forall p :: n <= p < |s| ==> s[p] == t[p - n];
    if HasSpan(s, c, d) {
      var i, j :| OddRun(s, c, i, j) && EvenThenOdd(s[j..], c, d, false);
      assert s[j..] == t[j - n..];
      assert OddRun(t, c, i - n, j - n);
    }
    if HasSpan(t, c, d) {
      var i, j :| OddRun(t, c, i, j) && EvenThenOdd(t[j..], c, d, false);
      assert s[j + n..] == t[j..];
      assert OddRun(s, c, i + n, j + n);
    }
  }

  /** The first run of a string that starts with one. */
  lemma FirstRun(s: string, c: char, i: int, j: int)
    requires s != [] && s[0] == c && OddRun(s, c, i, j)
    ensures i >= RunLength(s, c) || (i == 0 && j == RunLength(s, c))
  {
    hide RunLength;
    var n := RunLength(s, c);
    assert forall p :: 0 <= p < n ==> s[p] == c;
    assert n < |s| ==> s[n] != c;
  }

  /** A span in the value becomes a bridge in what the first pass leaves, and only a span does. */
  lemma {:induction false} BridgeIffSpan(s: string, c: char, d: char)
    requires c != d
    ensures HasBridge(Halve(s, c), c, d) <==> HasSpan(s, c, d)
    decreases |s|
  {
    hide Halve, HasBridge, HasSpan;
    if s == [] {
      HalveOfNothing(c);
      NoBridgeNoSpan(c, d);
    } else if s[0] != c {
      BridgeIffSpan(s[1..], c, d);
      HalveKeepsHead(s, c);
      var h := Halve(s, c);
      assert h[1..] == Halve(s[1..], c);
      BridgeFront(h, c, d);
      SpanShift(s, c, d, 1);
    } else {
      var n := RunLength(s, c);
      var t := s[n..];
      BridgeIffSpan(t, c, d);
      HalveRun(s, c);
      forall i, j | OddRun(s, c, i, j) ensures i >= n || (i == 0 && j == n) {
        FirstRun(s, c, i, j);
      }
      if n % 2 == 0 {
        assert Halve(s, c) == Halve(t, c);
        SpanShift(s, c, d, n);
      } else {
        var h := Halve(s, c);
        assert h[1..] == Halve(t, c);
        BridgeFront(h, c, d);
        LeadsIsEvenThen(Halve(t, c), c, d);
        LeadsAfterPass(t, c, d, false);
        SpanFront(s, c, d, n);
      }
    }
  }

  lemma LeadsIsEvenThen(s: string, c: char, d: char)
    requires c != d
    ensures Leads(s, c, d, false) <==> exists j :: EvenThen(s, c, d, j)
  {
    hide Leads;
    if j :| EvenThen(s, c, d, j) {
      LeadsFrom(s, c, d, false, j);
    }
    if Leads(s, c, d, false) {
      var j := LeadsTo(s, c, d, false);
      assert EvenThen(s, c, d, j);
    }
  }

  lemma NoBridgeNoSpan(c: char, d: char)
    ensures !HasBridge([], c, d) && !HasSpan([], c, d)
  {
  }

  /** A span starts at an odd first run or behind it. */
  lemma SpanFront(s: string, c: char, d: char, n: nat)
    requires s != [] && s[0] == c && n == RunLength(s, c) && n % 2 == 1
    ensures HasSpan(s, c, d) <==> HasSpan(s[n..], c, d) || EvenThenOdd(s[n..], c, d, false)
  {
    hide EvenThenOdd, RunLength;
    if HasSpan(s, c, d) {
      var i, j :| OddRun(s, c, i, j) && EvenThenOdd(s[j..], c, d, false);
      FirstRun(s, c, i, j);
      if i >= n {
        SpanMoves(s, c, i, j, n);
        assert s[j..] == s[n..][j - n..];
      }
    }
    if HasSpan(s[n..], c, d) {
      SpanBehind(s, c, d, n);
    }
    if EvenThenOdd(s[n..], c, d, false) {
      assert OddRun(s, c, 0, n);
    }
  }

  lemma SpanMoves(s: string, c: char, i: int, j: int, n: nat)
    requires n <= i && OddRun(s, c, i, j)
    ensures OddRun(s[n..], c, i - n, j - n)
  {
    assert forall p :: n <= p < |s| ==> s[p] == s[n..][p - n];
  }

  lemma SpanBehind(s: string, c: char, d: char, n: nat)
    requires s != [] && s[0] == c && n == RunLength(s, c) && HasSpan(s[n..], c, d)
    ensures HasSpan(s, c, d)
  {
    hide EvenThenOdd, RunLength;
    var t := s[n..];
    var i, j :| OddRun(t, c, i, j) && EvenThenOdd(t[j..], c, d, false);
    assert forall p :: n <= p < |s| ==> s[p] == t[p - n];
    assert n < |s| ==> t[0] != c;
    assert s[j + n..] == t[j..];
    assert OddRun(s, c, i + n, j + n);
  }

  /** A cleaned variable never contains "}}". It contains "{{" exactly when two odd runs of "{" stand in
      the value with an even number of "}" between them and otherwise only even runs of "{". */
  lemma SanitizedMarks(value: string)
    ensures !HasPair(Sanitized(value), '}')
    ensures HasPair(Sanitized(value), '{') <==> HasBridge(Halve(value, '{'), '{', '}')
    ensures HasPair(Sanitized(value), '{') <==> HasSpan(value, '{', '}')
  {
    HalveLeavesNoPair(Halve(value, '{'), '}');
    PairAfterPass(Halve(value, '{'), '{', '}');
    BridgeIffSpan(value, '{', '}');
  }

  /** So the promise to strip both marks fails, for one, here. */
  lemma OpeningMarkSurvives()
    ensures Sanitized("{}}{") == "{{"
  {
    var s := "{}}{";
    assert s[1..] == "}}{" && s[1..][1..] == "}{" && s[1..][1..][1..] == "{";
    assert Halve("{", '{') == "{" && Halve("}{", '{') == "}{" && Halve("}}{", '{') == "}}{";
    assert Halve(s, '{') == s;
    assert "}}{"[2..] == "{" && Halve("{", '}') == "{";
  }

  // ---------------------------------------------------------------------------------------------
  // Placeholders

  /** \w of the regular expression. */
  predicate IsWord(c: char) { 'a' <= c <= 'z' || 'A' <= c <= 'Z' || '0' <= c <= '9' || c == '_' }

  function WordRun(s: string): (n: nat)
    ensures n <= |s| && (forall k :: 0 <= k < n ==> IsWord(s[k])) && (n < |s| ==> !IsWord(s[n]))
  {
    if s == [] || !IsWord(s[0]) then 0 else 1 + WordRun(s[1..])
  }

  /** The length of the placeholder `{{word}}` that `s` starts with, or zero. */
  function MatchLength(s: string): (n: nat)
    ensures n <= |s| && (n > 0 ==> n >= 5 && s[0] == '{')
  {
    if |s| < 2 || s[0] != '{' || s[1] != '{' then 0
    else
      var n := WordRun(s[2..]);
      if n > 0 && n + 3 < |s| && s[n + 2] == '}' && s[n + 3] == '}' then n + 4 else 0
  }

  /** Where the leftmost placeholder starts, or `|s|`. */
  function FindMatch(s: string): (i: nat)
    ensures i <= |s| && (i < |s| ==> MatchLength(s[i..]) > 0)
    ensures forall k :: 0 <= k < i ==> MatchLength(s[k..]) == 0
  {
    if s == [] || MatchLength(s) > 0 then
      assert s[0..] == s;
      0
    else
      var i := 1 + FindMatch(s[1..]);
      assert s[0..] == s;
      assert forall k :: 0 < k <= |s| ==> s[k..] == s[1..][k - 1..];
      i
  }

  /** A JSON value: a string, or the dump of anything else. */
  datatype Value = Text(text: string) | Dumped(text: string)

  type Variables = map<string, Value>

  function Placeholder(name: string): string { "{{" + name + "}}" }

  function Fill(name: string, vars: Variables): string {
    if name in vars then Sanitized(vars[name].text) else Placeholder(name)
  }

  /** A template cut up: what stands between placeholders, and the placeholders. */
  datatype Segment = Literal(text: string) | Hole(name: string)

  function Source(s: Segment): string { if s.Literal? then s.text else Placeholder(s.name) }

  function Output(s: Segment, vars: Variables): string { if s.Literal? then s.text else Fill(s.name, vars) }

  function Print(segments: seq<Segment>): string {
    if segments == [] then [] else Source(segments[0]) + Print(segments[1..])
  }

  /** Each segment on its own: a literal as it stands, a placeholder by its cleaned value. */
  function Evaluate(segments: seq<Segment>, vars: Variables): string {
    if segments == [] then []
    else Output(segments[0], vars) + Evaluate(segments[1..], vars)
  }

  /** A template cut at its leftmost placeholder. */
  datatype Cut = Uncut(text: string) | Cut(before: string, name: string, after: string)

  function FirstCut(t: string): (c: Cut)
    ensures c.Cut? ==> |c.after| < |t|
  {
    var i := FindMatch(t);
    if i == |t| then Uncut(t)
    else
      var n := MatchLength(t[i..]);
      Cut(t[..i], t[i + 2..i + n - 2], t[i + n..])
  }

  /** The segments of a template; the variables have no say in it. */
  function Segments(t: string): seq<Segment>
    decreases |t|
  {
    match FirstCut(t)
    case Uncut(text) => [Literal(text)]
    case Cut(before, name, after) => [Literal(before)] + ([Hole(name)] + Segments(after))
  }

  function CutSource(c: Cut): string {
    match c
    case Uncut(text) => text
    case Cut(before, name, after) => before + Placeholder(name) + after
  }

  function CutOutput(c: Cut, vars: Variables): string {
    match c
    case Uncut(text) => text
    case Cut(before, name, after) => before + Fill(name, vars) + Evaluate(Segments(after), vars)
  }

  function Prefixed(lit: string, c: Cut): Cut {
    match c
    case Uncut(text) => Uncut(lit + text)
    case Cut(before, name, after) => Cut(lit + before, name, after)
  }

  lemma SliceOfDrop(t: string, it: nat, i: nat, j: nat)
    requires it <= |t| && i <= j <= |t| - it
    ensures t[it..][i..j] == t[it + i..it + j] && t[it..][j..] == t[it + j..]
  {
  }

  /** The cut of what is left from `it` on, in positions of the whole template. */
  lemma CutAt(t: string, it: nat)
    requires it <= |t|
    ensures
      var i := FindMatch(t[it..]);
      && it + i <= |t|
      && (it + i < |t| ==>
            var n := MatchLength(t[it + i..]);
            && 5 <= n <= |t| - it - i
            && FirstCut(t[it..]) == Cut(t[it..it + i], t[it + i + 2..it + i + n - 2], t[it + i + n..])
            && t[it + i..it + i + n] == Placeholder(t[it + i + 2..it + i + n - 2]))
      && (it + i == |t| ==> FirstCut(t[it..]) == Uncut(t[it..]))
  {
    hide MatchLength, FindMatch, Placeholder;
    var i := FindMatch(t[it..]);
    SliceOfDrop(t, it, 0, i);
    if it + i < |t| {
      var n := MatchLength(t[it + i..]);
      SliceOfDrop(t, it, i + 2, i + n - 2);
      SliceOfDrop(t, it, i, i + n);
      MatchIsPlaceholder(t[it + i..]);
      SliceOfDrop(t, it + i, 0, n);
      SliceOfDrop(t, it + i, 2, n - 2);
    }
  }

  /** What one match appends: the text before it and its value, or the match itself when the
      variable is not given. */
  method Piece(templ: string, it: nat, found: nat, n: nat, vars: Variables) returns (piece: string)
    requires it <= it + found < |templ| && found == FindMatch(templ[it..]) && n == MatchLength(templ[it + found..])
    ensures 5 <= n <= |templ| - it - found
    ensures Evaluate(Segments(templ[it..]), vars) == piece + Evaluate(Segments(templ[it + found + n..]), vars)
  {
    hide Segments, Evaluate, FirstCut, MatchLength, FindMatch, Sanitized, Placeholder;
    CutAt(templ, it);
    SegmentsStep(templ[it..], vars);
    piece := templ[it..it + found];
    var name := templ[it + found + 2..it + found + n - 2];
    if name in vars {
      var clean := SanitizeVariable(vars[name].text);
      piece := piece + clean;
    } else {
      piece := piece + templ[it + found..it + found + n];
    }
  }

  /** The iterator loop: copy up to the next match, append its value, go on behind it. */
  method Interpolate(templ: string, vars: Variables) returns (result: string)
    ensures result == Evaluate(Segments(templ), vars)
  {
    hide Segments, Evaluate, FirstCut, MatchLength, FindMatch;
    result := [];
    var it := 0;
    assert templ[0..] == templ;
    var found := FindMatch(templ[it..]);
    while it + found < |templ|
      invariant it <= |templ| && found == FindMatch(templ[it..])
      invariant Evaluate(Segments(templ), vars) == result + Evaluate(Segments(templ[it..]), vars)
      decreases |templ| - it
    {
      var n := MatchLength(templ[it + found..]);
      var piece := Piece(templ, it, found, n, vars);
      result := result + piece;
      it := it + found + n;
      found := FindMatch(templ[it..]);
    }
    CutAt(templ, it);
    SegmentsStep(templ[it..], vars);
    result := result + templ[it..];
  }

  lemma MatchIsPlaceholder(s: string)
    requires MatchLength(s) > 0
    ensures s[..MatchLength(s)] == Placeholder(s[2..MatchLength(s) - 2])
  {
  }

  lemma SegmentsStep(t: string, vars: Variables)
    ensures
      Evaluate(Segments(t), vars) == CutOutput(FirstCut(t), vars)
  {
    hide Fill, FirstCut;
    match FirstCut(t)
    case Uncut(text) =>
      EvaluateCons(Literal(text), [], vars);
      assert [Literal(text)] + [] == Segments(t);
    case Cut(before, name, after) =>
      EvaluateCons(Literal(before), [Hole(name)] + Segments(after), vars);
      EvaluateCons(Hole(name), Segments(after), vars);
  }

  lemma EvaluateCons(s: Segment, rest: seq<Segment>, vars: Variables)
    ensures Evaluate([s] + rest, vars) == Output(s, vars) + Evaluate(rest, vars)
    ensures Print([s] + rest) == Source(s) + Print(rest)
  {
    assert ([s] + rest)[1..] == rest;
  }

  lemma CutPrints(t: string)
    ensures t == CutSource(FirstCut(t))
  {
    hide Placeholder, MatchLength, FindMatch;
    assert t[0..] == t;
    CutAt(t, 0);
    var i := FindMatch(t);
    if i < |t| {
      var n := MatchLength(t[i..]);
      assert t == t[..i] + t[i..i + n] + t[i + n..];
    }
  }

  /** Cutting a template into segments loses nothing. */
  lemma {:induction false} SegmentsPrint(t: string)
    ensures Print(Segments(t)) == t
    decreases |t|
  {
    hide FirstCut, Placeholder;
    CutPrints(t);
    match FirstCut(t)
    case Uncut(text) =>
      EvaluateCons(Literal(text), [], map[]);
      assert [Literal(text)] + [] == Segments(t);
    case Cut(before, name, after) =>
      EvaluateCons(Literal(before), [Hole(name)] + Segments(after), map[]);
      EvaluateCons(Hole(name), Segments(after), map[]);
      SegmentsPrint(after);
  }

  ghost predicate IsName(name: string) { name != [] && forall k :: 0 <= k < |name| ==> IsWord(name[k]) }

  /** Literals without opening braces between placeholders with word names. */
  ghost predicate Canonical(segments: seq<Segment>) {
    forall k :: 0 <= k < |segments| ==> Proper(segments[k])
  }

  ghost predicate Proper(s: Segment) { if s.Literal? then '{' !in s.text else IsName(s.name) }

  lemma PlaceholderMatches(name: string, rest: string)
    requires IsName(name)
    ensures MatchLength(Placeholder(name) + rest) == |name| + 4
  {
    var s := Placeholder(name) + rest;
    var t := s[2..];
    assert t == name + ("}}" + rest);
    WordRunOf(name, "}}" + rest);
    assert s[|name| + 2] == '}' && s[|name| + 3] == '}';
  }

  lemma {:induction false} WordRunOf(name: string, rest: string)
    requires forall k :: 0 <= k < |name| ==> IsWord(name[k])
    requires rest != [] && !IsWord(rest[0])
    ensures WordRun(name + rest) == |name|
  {
    if name == [] {
      assert name + rest == rest;
    } else {
      assert (name + rest)[1..] == name[1..] + rest;
      WordRunOf(name[1..], rest);
    }
  }

  lemma {:induction false} FindMatchAfter(lit: string, rest: string)
    requires '{' !in lit
    ensures FindMatch(lit + rest) == |lit| + FindMatch(rest)
  {
    if lit == [] {
      assert lit + rest == rest;
    } else {
      assert (lit + rest)[1..] == lit[1..] + rest;
      assert lit[0] in lit && (lit + rest)[0] == lit[0];
      assert forall k :: 0 <= k < |lit[1..]| ==> lit[1..][k] in lit;
      FindMatchAfter(lit[1..], rest);
    }
  }

  lemma CutAfterLiteral(lit: string, rest: string)
    requires '{' !in lit
    ensures FirstCut(lit + rest) == Prefixed(lit, FirstCut(rest))
  {
    hide MatchLength, FindMatch;
    FindMatchAfter(lit, rest);
    var t, i := lit + rest, FindMatch(rest);
    assert t[|lit|..] == rest;
    SliceOfDrop(t, |lit|, i, i);
    if i < |rest| {
      var n := MatchLength(rest[i..]);
      SliceOfDrop(t, |lit|, i + 2, i + n - 2);
      SliceOfDrop(t, |lit|, i + n, i + n);
      assert t[..|lit| + i] == lit + rest[..i];
    }
  }

  lemma CutAtPlaceholder(name: string, rest: string)
    requires IsName(name)
    ensures FirstCut(Placeholder(name) + rest) == Cut([], name, rest)
  {
    hide MatchLength;
    var t := Placeholder(name) + rest;
    PlaceholderMatches(name, rest);
    assert t[0..] == t;
    assert FindMatch(t) == 0;
    assert t[2..|name| + 2] == name && t[|name| + 4..] == rest;
  }

  lemma NothingCut()
    ensures FirstCut([]) == Uncut([])
  {
  }

  lemma CanonicalStep(s: Segment, rest: string, vars: Variables)
    requires Proper(s)
    ensures Evaluate(Segments(Source(s) + rest), vars) == Output(s, vars) + Evaluate(Segments(rest), vars)
  {
    hide Fill, FirstCut, Placeholder, Segments, Evaluate, IsName;
    SegmentsStep(Source(s) + rest, vars);
    SegmentsStep(rest, vars);
    if s.Literal? {
      CutAfterLiteral(s.text, rest);
    } else {
      CutAtPlaceholder(s.name, rest);
    }
  }

  /** A template printed from literals and placeholders is filled in place by place; what is put in
      is never looked at again, whatever marks it contains. */
  lemma {:induction false} InterpolatesSegmentwise(segments: seq<Segment>, vars: Variables)
    requires Canonical(segments)
    ensures Evaluate(Segments(Print(segments)), vars) == Evaluate(segments, vars)
  {
    hide Source, Output, FirstCut, Segments, Proper;
    if segments == [] {
      NothingCut();
      SegmentsStep([], vars);
    } else {
      var s, rest := segments[0], segments[1..];
      assert forall k :: 0 <= k < |rest| ==> rest[k] == segments[k + 1];
      InterpolatesSegmentwise(rest, vars);
      CanonicalStep(s, Print(rest), vars);
    }
  }

  datatype Rendered = Missing(name: string) | Prompt(text: string)

  /** The first required variable that is not given is an error; otherwise the template is filled. */
  method StaticRenderPrompt(required: seq<string>, templ: string, vars: Variables) returns (r: Rendered)
    ensures r.Prompt? <==> forall k :: 0 <= k < |required| ==> required[k] in vars
    ensures r.Prompt? ==> r.text == Evaluate(Segments(templ), vars)
    ensures r.Missing? ==> exists k :: 0 <= k < |required| && required[k] == r.name && r.name !in vars
                                       && forall j :: 0 <= j < k ==> required[j] in vars
  {
    for i := 0 to |required|
      invariant forall k :: 0 <= k < i ==> required[k] in vars
    {
      if required[i] !in vars {
        return Missing(required[i]);
      }
    }
    var text := Interpolate(templ, vars);
    return Prompt(text);
  }
}
