/** Filling a template, told from its characters. */
module SkillFill {
  import opened SkillTemplate

  /** A letter, a digit or an underscore. */
  predicate WordChar(c: char) {
    'a' <= c <= 'z' || 'A' <= c <= 'Z' || '0' <= c <= '9' || c == '_'
  }

  ghost predicate HoleAt(s: string, name: string, rest: string) {
    && s == "{{" + name + "}}" + rest
    && name != [] && forall k :: 0 <= k < |name| ==> WordChar(name[k])
  }

  ghost predicate StartsHole(s: string) { exists name, rest :: HoleAt(s, name, rest) }

  /** A placeholder is two braces, a word and two braces, and nothing else is one. */
  lemma MatchExact(s: string)
    ensures MatchLength(s) > 0 <==> StartsHole(s)
    ensures forall name, rest :: HoleAt(s, name, rest) ==> MatchLength(s) == |name| + 4
  {
    hide MatchLength;
    forall name, rest | HoleAt(s, name, rest) ensures MatchLength(s) == |name| + 4 {
      PlaceholderMatches(name, rest);
    }
    var n := MatchLength(s);
    if n > 0 {
      MatchIsPlaceholder(s);
      MatchWord(s);
      assert s == s[..n] + s[n..];
      assert HoleAt(s, s[2..n - 2], s[n..]);
    }
  }

  lemma MatchWord(s: string)
    requires MatchLength(s) > 0
    ensures forall k :: 2 <= k < MatchLength(s) - 2 ==> WordChar(s[k])
  {
    assert forall k :: 2 <= k < |s| ==> s[k] == s[2..][k - 2];
  }

  lemma {:induction false} UngivenPrints(segments: seq<Segment>, vars: Variables)
    requires forall k :: 0 <= k < |segments| && segments[k].Hole? ==> segments[k].name !in vars
    ensures Evaluate(segments, vars) == Print(segments)
  {
    if segments != [] {
      assert forall k :: 0 <= k < |segments[1..]| ==> segments[1..][k] == segments[k + 1];
      UngivenPrints(segments[1..], vars);
    }
  }

  /** Filling with no variables, or with none the template asks for, gives the template back. */
  lemma FillNothing(t: string, vars: Variables)
    requires forall k :: 0 <= k < |Segments(t)| && Segments(t)[k].Hole? ==> Segments(t)[k].name !in vars
    ensures Evaluate(Segments(t), vars) == t
  {
    hide Evaluate, Segments;
    UngivenPrints(Segments(t), vars);
    SegmentsPrint(t);
  }

  lemma FillWithoutVariables(t: string)
    ensures Evaluate(Segments(t), map[]) == t
  {
    hide Evaluate, Segments;
    FillNothing(t, map[]);
  }

  /** The leftmost placeholder is replaced by its cleaned value, or stays when the variable is not given;
      what stands before it stays, and what stands behind it is filled in turn. */
  lemma FillLeftmost(before: string, name: string, rest: string, vars: Variables)
    requires name != [] && forall k :: 0 <= k < |name| ==> WordChar(name[k])
    requires forall k :: 0 <= k < |before| ==> !StartsHole((before + "{{" + name + "}}" + rest)[k..])
    ensures
      Evaluate(Segments(before + "{{" + name + "}}" + rest), vars) ==
        before
        + (if name in vars then Parity(Parity(vars[name].text, '{'), '}') else "{{" + name + "}}")
        + Evaluate(Segments(rest), vars)
  {
    hide MatchLength, FindMatch, Segments, Evaluate, StartsHole, Parity, Halve;
    var t, i := before + "{{" + name + "}}" + rest, |before|;
    assert t[i..] == "{{" + name + "}}" + rest;
    assert HoleAt(t[i..], name, rest);
    assert StartsHole(t[i..]) by {
      StartsHoleAt(t[i..], name, rest);
    }
    forall k | 0 <= k <= i ensures MatchLength(t[k..]) > 0 <==> k == i {
      MatchExact(t[k..]);
    }
    FindFirst(t, i);
    MatchExact(t[i..]);
    assert FirstCut(t) == Cut(before, name, rest) by {
      assert t[..i] == before && t[i + 2..i + |name| + 2] == name && t[i + |name| + 4..] == rest;
    }
    SegmentsStep(t, vars);
    if name in vars {
      HalveIsParity(vars[name].text, '{');
      HalveIsParity(Parity(vars[name].text, '{'), '}');
    }
  }

  lemma StartsHoleAt(s: string, name: string, rest: string)
    requires HoleAt(s, name, rest)
    ensures StartsHole(s)
  {
  }

  lemma FindFirst(s: string, i: nat)
    requires i < |s| && MatchLength(s[i..]) > 0 && forall k :: 0 <= k < i ==> MatchLength(s[k..]) == 0
    ensures FindMatch(s) == i
  {
    hide MatchLength;
  }
}
