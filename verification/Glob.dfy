/** The two wildcard matchers of the shell and the meaning of '*'. */
module Glob {
  const STAR := '*'

  /** The meaning: a star stands for any text, every other character for itself. */
  ghost predicate Matches(pattern: string, text: string)
    decreases |pattern|
  {
    if pattern == [] then text == []
    else if pattern[0] == STAR then exists k :: 0 <= k <= |text| && Matches(pattern[1..], text[k..])
    else text != [] && text[0] == pattern[0] && Matches(pattern[1..], text[1..])
  }

  /** What the matchers do: a star that is not last tries non-empty rests of the text only. */
  ghost predicate Tried(pattern: string, text: string)
    decreases |pattern|
  {
    if pattern == [] then text == []
    else if pattern[0] == STAR then
      |pattern| == 1 || exists k :: 0 <= k < |text| && Tried(pattern[1..], text[k..])
    else text != [] && text[0] == pattern[0] && Tried(pattern[1..], text[1..])
  }

  predicate EndsInTwoStars(pattern: string) {
    |pattern| >= 2 && pattern[|pattern| - 1] == STAR && pattern[|pattern| - 2] == STAR
  }

  // ---------------------------------------------------------------- the matchers

  /** One try of the rest of a pattern at each place of the text. */
  lemma TriedAt(pattern: string, text: string, i: nat, j: nat)
    requires i < |pattern| && j <= |text| && pattern[i] == STAR && i + 1 < |pattern|
    ensures Tried(pattern[i..], text[j..]) <==>
            exists k :: j <= k < |text| && Tried(pattern[i + 1..], text[k..])
  {
    var p, t := pattern[i..], text[j..];
    assert p[1..] == pattern[i + 1..];
    if Tried(p, t) {
      var k :| 0 <= k < |t| && Tried(p[1..], t[k..]);
      assert t[k..] == text[j + k..];
    }
    if k :| j <= k < |text| && Tried(pattern[i + 1..], text[k..]) {
      assert t[k - j..] == text[k..];
    }
  }

  lemma TriedLetter(pattern: string, text: string, i: nat, j: nat)
    requires i < |pattern| && j <= |text| && pattern[i] != STAR
    ensures Tried(pattern[i..], text[j..]) <==>
            j < |text| && text[j] == pattern[i] && Tried(pattern[i + 1..], text[j + 1..])
  {
    assert pattern[i..][1..] == pattern[i + 1..];
    if j < |text| {
      assert text[j..][1..] == text[j + 1..];
    }
  }

  lemma TriedEnd(pattern: string, text: string, i: nat, j: nat)
    requires i <= |pattern| && j <= |text|
    ensures i == |pattern| ==> (Tried(pattern[i..], text[j..]) <==> j == |text|)
    ensures i + 1 == |pattern| && pattern[i] == STAR ==> Tried(pattern[i..], text[j..])
    ensures i < |pattern| && j == |text| ==>
      (Tried(pattern[i..], text[j..]) <==> i + 1 == |pattern| && pattern[i] == STAR)
  {
  }

  /** match_wildcard. */
  method MatchWildcard(pattern: string, text: string) returns (r: bool)
    ensures r <==> Tried(pattern, text)
    ensures r <==> Meant(pattern, text)
    decreases |pattern|
  {
    hide Tried, Meant;
    Exact(pattern, text);
    var i, j := 0, 0;
    assert pattern[0..] == pattern && text[0..] == text;
    while i < |pattern| && j < |text|
      invariant i <= |pattern| && j <= |text|
      invariant Tried(pattern, text) <==> Tried(pattern[i..], text[j..])
    {
      TriedEnd(pattern, text, i, j);
      if pattern[i] == STAR {
        if i + 1 == |pattern| {
          return true;
        }
        TriedAt(pattern, text, i, j);
        ghost var from := j;
        while j < |text|
          invariant from <= j <= |text|
          invariant forall k :: from <= k < j ==> !Tried(pattern[i + 1..], text[k..])
        {
          var found := MatchWildcard(pattern[i + 1..], text[j..]);
          if found {
            return true;
          }
          j := j + 1;
        }
        return false;
      }
      TriedLetter(pattern, text, i, j);
      if pattern[i] != text[j] {
        return false;
      }
      i, j := i + 1, j + 1;
    }
    TriedEnd(pattern, text, i, j);
    return (i + 1 == |pattern| && pattern[i] == STAR) || (i == |pattern| && j == |text|);
  }

  /** match_pattern, which runs on the pattern alone, agrees with match_wildcard. */
  method MatchPattern(pattern: string, name: string) returns (r: bool)
    ensures r <==> Tried(pattern, name)
    ensures r <==> Meant(pattern, name)
    decreases |pattern|
  {
    hide Tried, Meant;
    Exact(pattern, name);
    var i, j := 0, 0;
    assert pattern[0..] == pattern && name[0..] == name;
    while i < |pattern|
      invariant i <= |pattern| && j <= |name|
      invariant Tried(pattern, name) <==> Tried(pattern[i..], name[j..])
    {
      TriedEnd(pattern, name, i, j);
      if pattern[i] == STAR {
        if i + 1 == |pattern| {
          return true;
        }
        TriedAt(pattern, name, i, j);
        ghost var from := j;
        while j < |name|
          invariant from <= j <= |name|
          invariant forall k :: from <= k < j ==> !Tried(pattern[i + 1..], name[k..])
        {
          var found := MatchPattern(pattern[i + 1..], name[j..]);
          if found {
            return true;
          }
          j := j + 1;
        }
        return false;
      }
      TriedLetter(pattern, name, i, j);
      if j < |name| && pattern[i] == name[j] {
        i, j := i + 1, j + 1;
      } else {
        return false;
      }
    }
    TriedEnd(pattern, name, i, j);
    return j == |name|;
  }

  // ---------------------------------------------------------------- the meaning

  ghost predicate AllStars(pattern: string) {
    forall i :: 0 <= i < |pattern| ==> pattern[i] == STAR
  }

  lemma {:induction false} StarsMatchAll(pattern: string, text: string)
    requires AllStars(pattern) && pattern != []
    ensures Matches(pattern, text)
    decreases |pattern|
  {
    if |pattern| == 1 {
      assert Matches(pattern[1..], text[|text|..]);
    } else {
      StarsMatchAll(pattern[1..], text[0..]);
    }
  }

  lemma {:induction false} EmptyTextNeedsStars(pattern: string)
    requires Matches(pattern, [])
    ensures AllStars(pattern)
    decreases |pattern|
  {
    if pattern != [] {
      var k :| 0 <= k <= 0 && Matches(pattern[1..], ""[k..]);
      assert ""[k..] == "";
      EmptyTextNeedsStars(pattern[1..]);
      assert pattern == [pattern[0]] + pattern[1..];
    }
  }

  /** What the matchers decide, in terms of the meaning: two stars at the end of a pattern
      want at least one character, everything else means what it should. */
  ghost predicate Meant(pattern: string, text: string) {
    if EndsInTwoStars(pattern) then text != [] && Matches(pattern, text[..|text| - 1]) else Matches(pattern, text)
  }

  lemma {:induction false} Exact(pattern: string, text: string)
    ensures Tried(pattern, text) <==> Meant(pattern, text)
    decreases |pattern|
  {
    if pattern != [] {
      if pattern[0] != STAR {
        ExactLetter(pattern, text);
      } else if |pattern| == 1 {
        StarsMatchAll(pattern, text);
      } else {
        forall k | 0 <= k <= |text|
          ensures Tried(pattern[1..], text[k..]) <==> Meant(pattern[1..], text[k..])
        {
          Exact(pattern[1..], text[k..]);
        }
        ExactStar(pattern, text);
      }
    }
  }

  lemma ExactLetter(pattern: string, text: string)
    requires pattern != [] && pattern[0] != STAR
    ensures Tried(pattern, text) <==> Meant(pattern, text)
    decreases |pattern|, 0
  {
    if text != [] {
      Exact(pattern[1..], text[1..]);
      if |text| > 1 {
        assert text[1..][..|text| - 2] == text[..|text| - 1][1..];
      }
    }
  }

  lemma ExactStar(pattern: string, text: string)
    requires |pattern| > 1 && pattern[0] == STAR
    requires forall k :: 0 <= k <= |text| ==> (Tried(pattern[1..], text[k..]) <==> Meant(pattern[1..], text[k..]))
    ensures Tried(pattern, text) <==> Meant(pattern, text)
  {
    if EndsInTwoStars(pattern) {
      if |pattern| == 2 {
        TwoStars(pattern, text);
      } else if text != [] {
        MoreStars(pattern, text);
      }
    } else {
      OneStar(pattern, text);
    }
  }

  lemma TwoStars(pattern: string, text: string)
    requires |pattern| == 2 && pattern[0] == pattern[1] == STAR
    ensures Tried(pattern, text) <==> Meant(pattern, text)
  {
    if text != [] {
      StarsMatchAll(pattern, text[..|text| - 1]);
      assert Tried(pattern[1..], text[0..]);
    }
  }

  lemma StarUnfolds(pattern: string, text: string)
    requires |pattern| > 1 && pattern[0] == STAR
    ensures Tried(pattern, text) <==> exists k :: 0 <= k < |text| && Tried(pattern[1..], text[k..])
    ensures Matches(pattern, text) <==> exists k :: 0 <= k <= |text| && Matches(pattern[1..], text[k..])
  {
  }

  /** Two stars at the end leave the last character to be matched. */
  lemma MeantBefore(pattern: string, text: string, k: nat)
    requires EndsInTwoStars(pattern) && k < |text|
    ensures Meant(pattern, text[k..]) <==> Matches(pattern, text[..|text| - 1][k..])
  {
    assert text[k..][..|text| - k - 1] == text[..|text| - 1][k..];
  }

  lemma StillEndsInTwoStars(pattern: string)
    requires |pattern| > 2 && EndsInTwoStars(pattern)
    ensures EndsInTwoStars(pattern[1..])
  {
  }

  lemma MoreStars(pattern: string, text: string)
    requires |pattern| > 2 && pattern[0] == STAR && EndsInTwoStars(pattern) && text != []
    requires forall k :: 0 <= k <= |text| ==> (Tried(pattern[1..], text[k..]) <==> Meant(pattern[1..], text[k..]))
    ensures Tried(pattern, text) <==> Meant(pattern, text)
  {
    hide Matches, Tried, Meant, EndsInTwoStars;
    var q, init := pattern[1..], text[..|text| - 1];
    StarUnfolds(pattern, text);
    StarUnfolds(pattern, init);
    MeantBefore(pattern, text, 0);
    assert text[0..] == text && init[0..] == init;
    StillEndsInTwoStars(pattern);
    forall k | 0 <= k < |text|
      ensures Tried(q, text[k..]) <==> Matches(q, init[k..])
    {
      MeantBefore(q, text, k);
    }
    if Tried(pattern, text) {
      var k :| 0 <= k < |text| && Tried(q, text[k..]);
      assert Matches(q, init[k..]);
    }
    if Matches(pattern, init) {
      var k :| 0 <= k <= |init| && Matches(q, init[k..]);
      assert Tried(q, text[k..]);
    }
  }

  lemma NotEmptyText(pattern: string)
    requires |pattern| > 1 && pattern[0] == STAR && !EndsInTwoStars(pattern)
    ensures !Matches(pattern[1..], [])
  {
    assert pattern == [STAR] + pattern[1..];
    if Matches(pattern[1..], []) {
      EmptyTextNeedsStars(pattern[1..]);
    }
  }

  lemma OneStar(pattern: string, text: string)
    requires |pattern| > 1 && pattern[0] == STAR && !EndsInTwoStars(pattern)
    requires forall k :: 0 <= k <= |text| ==> (Tried(pattern[1..], text[k..]) <==> Meant(pattern[1..], text[k..]))
    ensures Tried(pattern, text) <==> Matches(pattern, text)
  {
    hide Matches, Tried;
    var q := pattern[1..];
    StarUnfolds(pattern, text);
    assert !Matches(q, []) by { NotEmptyText(pattern); }
    if Matches(pattern, text) {
      var k :| 0 <= k <= |text| && Matches(q, text[k..]);
      assert text[k..] != [];
      assert Tried(q, text[k..]);
    }
  }

  // ---------------------------------------------------------------- soundness and completeness

  /** A star at the end takes one more character. */
  lemma {:induction false} LastStarTakesMore(pattern: string, text: string, c: char)
    requires pattern != [] && pattern[|pattern| - 1] == STAR && Matches(pattern, text)
    ensures Matches(pattern, text + [c])
    decreases |pattern|
  {
    if |pattern| == 1 {
      StarsMatchAll(pattern, text + [c]);
    } else if pattern[0] == STAR {
      var k :| 0 <= k <= |text| && Matches(pattern[1..], text[k..]);
      LastStarTakesMore(pattern[1..], text[k..], c);
      assert (text + [c])[k..] == text[k..] + [c];
    } else {
      LastStarTakesMore(pattern[1..], text[1..], c);
      assert (text + [c])[1..] == text[1..] + [c];
    }
  }

  /** The matchers accept nothing the pattern does not mean. */
  lemma Sound(pattern: string, text: string)
    requires Tried(pattern, text)
    ensures Matches(pattern, text)
  {
    Exact(pattern, text);
    if EndsInTwoStars(pattern) {
      LastStarTakesMore(pattern, text[..|text| - 1], text[|text| - 1]);
      assert text[..|text| - 1] + [text[|text| - 1]] == text;
    }
  }

  /** The characters of a pattern other than stars. */
  function Letters(pattern: string): string {
    if pattern == [] then []
    else if pattern[0] == STAR then Letters(pattern[1..])
    else [pattern[0]] + Letters(pattern[1..])
  }

  lemma {:induction false} LettersMatch(pattern: string)
    ensures Matches(pattern, Letters(pattern))
  {
    if pattern != [] {
      LettersMatch(pattern[1..]);
      if pattern[0] == STAR {
        assert Letters(pattern)[0..] == Letters(pattern[1..]);
      } else {
        assert Letters(pattern)[1..] == Letters(pattern[1..]);
      }
    }
  }

  lemma {:induction false} LettersAreLeast(pattern: string, text: string)
    requires Matches(pattern, text)
    ensures |Letters(pattern)| <= |text|
    decreases |pattern|
  {
    if pattern != [] {
      if pattern[0] == STAR {
        var k :| 0 <= k <= |text| && Matches(pattern[1..], text[k..]);
        LettersAreLeast(pattern[1..], text[k..]);
      } else {
        LettersAreLeast(pattern[1..], text[1..]);
      }
    }
  }

  /** The matchers are right on every text exactly for the patterns that do not end in two
      stars; for one that does, the text made of its letters is wrongly refused. */
  lemma RightExactly(pattern: string)
    ensures (forall text :: Tried(pattern, text) <==> Matches(pattern, text)) <==> !EndsInTwoStars(pattern)
    ensures EndsInTwoStars(pattern) ==> Matches(pattern, Letters(pattern)) && !Tried(pattern, Letters(pattern))
  {
    if EndsInTwoStars(pattern) {
      var t := Letters(pattern);
      LettersMatch(pattern);
      Exact(pattern, t);
      if t != [] && Matches(pattern, t[..|t| - 1]) {
        LettersAreLeast(pattern, t[..|t| - 1]);
      }
    } else {
      forall text: string
        ensures Tried(pattern, text) <==> Matches(pattern, text)
      {
        Exact(pattern, text);
      }
    }
  }
}
