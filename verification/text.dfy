/**
  Literal substring replacement, as performed by Rust's `str::replace`:
  the text is scanned left to right, every leftmost occurrence of the
  pattern is replaced, and the scan resumes after the replaced occurrence,
  so occurrences never overlap and the replacement text is never rescanned.
 */
module Text {

  /** The one placeholder the scaffolder knows. */
  const Token: string := "{{project-name}}"

  /** `pat` occurs in `s` starting at index `i`. */
  predicate OccursAt(s: string, i: nat, pat: string) {
    i + |pat| <= |s| && s[i..i + |pat|] == pat
  }

  /** `str::contains`. */
  predicate Contains(s: string, pat: string) {
    exists i: nat | i <= |s| :: OccursAt(s, i, pat)
  }

  /** `s.replace(pat, rep)` for a non-empty pattern. */
  function ReplaceAll(s: string, pat: string, rep: string): string
    requires |pat| > 0
    decreases |s|
  {
    if |s| < |pat| then s
    else if s[..|pat|] == pat then rep + ReplaceAll(s[|pat|..], pat, rep)
    else [s[0]] + ReplaceAll(s[1..], pat, rep)
  }

  /** Number of occurrences the left-to-right scan of `ReplaceAll` replaces. */
  function Count(s: string, pat: string): nat
    requires |pat| > 0
    decreases |s|
  {
    if |s| < |pat| then 0
    else if s[..|pat|] == pat then 1 + Count(s[|pat|..], pat)
    else Count(s[1..], pat)
  }

  /**
    The pieces of `s` between the occurrences the scan finds: one more piece
    than there are occurrences, the first piece a prefix of `s`.
   */
  function Pieces(s: string, pat: string): (ps: seq<string>)
    requires |pat| > 0
    ensures |ps| == Count(s, pat) + 1
    ensures |ps[0]| <= |s| && ps[0] == s[..|ps[0]|]
    decreases |s|
  {
    if |s| < |pat| then [s]
    else if s[..|pat|] == pat then [""] + Pieces(s[|pat|..], pat)
    else
      var ps := Pieces(s[1..], pat);
      [[s[0]] + ps[0]] + ps[1..]
  }

  /** The pieces glued back together with `sep` between neighbours. */
  function Join(ps: seq<string>, sep: string): string
    requires |ps| > 0
    decreases |ps|
  {
    if |ps| == 1 then ps[0] else ps[0] + sep + Join(ps[1..], sep)
  }

  lemma {:induction false} JoinConsFirst(c: char, ps: seq<string>, sep: string)
    requires |ps| > 0
    ensures Join([[c] + ps[0]] + ps[1..], sep) == [c] + Join(ps, sep)
  {
    var qs := [[c] + ps[0]] + ps[1..];
    assert qs[1..] == ps[1..];
  }

  /** The replaced text is the pieces between occurrences joined by `rep`. */
  lemma {:induction false} ReplaceIsJoinOfPieces(s: string, pat: string, rep: string)
    requires |pat| > 0
    ensures ReplaceAll(s, pat, rep) == Join(Pieces(s, pat), rep)
    decreases |s|
  {
    if |s| < |pat| {
    } else if s[..|pat|] == pat {
      ReplaceIsJoinOfPieces(s[|pat|..], pat, rep);
      var ps := Pieces(s[|pat|..], pat);
      assert ([""] + ps)[1..] == ps;
    } else {
      ReplaceIsJoinOfPieces(s[1..], pat, rep);
      JoinConsFirst(s[0], Pieces(s[1..], pat), rep);
    }
  }

  /** Replacing the pattern by itself changes nothing. */
  lemma {:induction false} ReplaceBySelf(s: string, pat: string)
    requires |pat| > 0
    ensures ReplaceAll(s, pat, pat) == s
    decreases |s|
  {
    if |s| < |pat| {
    } else if s[..|pat|] == pat {
      ReplaceBySelf(s[|pat|..], pat);
      assert s == s[..|pat|] + s[|pat|..];
    } else {
      ReplaceBySelf(s[1..], pat);
      assert s == [s[0]] + s[1..];
    }
  }

  /** Splitting at the occurrences and joining with the pattern gives `s` back. */
  lemma SplitJoinRoundTrip(s: string, pat: string)
    requires |pat| > 0
    ensures Join(Pieces(s, pat), pat) == s
  {
    ReplaceIsJoinOfPieces(s, pat, pat);
    ReplaceBySelf(s, pat);
  }

  /** Each occurrence replaced changes the length by `|rep| - |pat|`. */
  lemma {:induction false} ReplaceLength(s: string, pat: string, rep: string)
    requires |pat| > 0
    ensures |ReplaceAll(s, pat, rep)| == |s| + Count(s, pat) * (|rep| - |pat|)
    decreases |s|
  {
    if |s| < |pat| {
    } else if s[..|pat|] == pat {
      ReplaceLength(s[|pat|..], pat, rep);
      var c := Count(s[|pat|..], pat);
      var d := |rep| - |pat|;
      assert ReplaceAll(s, pat, rep) == rep + ReplaceAll(s[|pat|..], pat, rep);
      assert Count(s, pat) == 1 + c;
      MulStep(c, d);
    } else {
      ReplaceLength(s[1..], pat, rep);
      assert ReplaceAll(s, pat, rep) == [s[0]] + ReplaceAll(s[1..], pat, rep);
      assert Count(s, pat) == Count(s[1..], pat);
    }
  }

  lemma MulStep(c: int, d: int)
    ensures (1 + c) * d == c * d + d
  {
  }

  lemma OccursAtShift(c: char, s: string, i: nat, pat: string)
    ensures OccursAt([c] + s, i + 1, pat) <==> OccursAt(s, i, pat)
  {
    if i + 1 + |pat| <= |[c] + s| {
      assert ([c] + s)[i + 1..i + 1 + |pat|] == s[i..i + |pat|];
    }
  }

  lemma OccursAtSuffix(s: string, k: nat, i: nat, pat: string)
    requires k <= |s|
    ensures OccursAt(s[k..], i, pat) <==> OccursAt(s, k + i, pat)
  {
    if k + i + |pat| <= |s| {
      assert s[k..][i..i + |pat|] == s[k + i..k + i + |pat|];
    }
  }

  /** The scan finds an occurrence exactly when there is one. */
  lemma {:induction false} CountZeroIffAbsent(s: string, pat: string)
    requires |pat| > 0
    ensures Count(s, pat) == 0 <==> !Contains(s, pat)
    decreases |s|
  {
    if |s| < |pat| {
      assert forall i: nat :: !OccursAt(s, i, pat);
    } else if s[..|pat|] == pat {
      assert OccursAt(s, 0, pat);
    } else {
      CountZeroIffAbsent(s[1..], pat);
      assert s == [s[0]] + s[1..];
      forall i: nat
        ensures OccursAt(s, i + 1, pat) <==> OccursAt(s[1..], i, pat)
      {
        OccursAtShift(s[0], s[1..], i, pat);
      }
      assert !OccursAt(s, 0, pat);
      if Contains(s, pat) {
        var i: nat :| OccursAt(s, i, pat);
        assert i > 0;
        assert OccursAt(s[1..], i - 1, pat);
      }
      if Contains(s[1..], pat) {
        var i: nat :| OccursAt(s[1..], i, pat);
        assert OccursAt(s, i + 1, pat);
      }
    }
  }

  /** Text with no occurrence of the pattern comes out unchanged. */
  lemma AbsentMeansUnchanged(s: string, pat: string, rep: string)
    requires |pat| > 0
    requires !Contains(s, pat)
    ensures ReplaceAll(s, pat, rep) == s
  {
    CountZeroIffAbsent(s, pat);
    ReplaceIsJoinOfPieces(s, pat, rep);
    SplitJoinRoundTrip(s, pat);
  }

  /** No piece between occurrences contains the pattern. */
  lemma {:induction false} PiecesAreTokenFree(s: string, pat: string)
    requires |pat| > 0
    ensures forall j :: 0 <= j < |Pieces(s, pat)| ==> !Contains(Pieces(s, pat)[j], pat)
    decreases |s|
  {
    var ps := Pieces(s, pat);
    if |s| < |pat| {
      assert forall i: nat :: !OccursAt(s, i, pat);
    } else if s[..|pat|] == pat {
      PiecesAreTokenFree(s[|pat|..], pat);
      assert forall i: nat :: !OccursAt("", i, pat);
      assert forall j :: 1 <= j < |ps| ==> ps[j] == Pieces(s[|pat|..], pat)[j - 1];
    } else {
      var qs := Pieces(s[1..], pat);
      PiecesAreTokenFree(s[1..], pat);
      assert forall j :: 1 <= j < |ps| ==> ps[j] == qs[j];
      var p0 := [s[0]] + qs[0];
      assert ps[0] == p0;
      assert !OccursAt(p0, 0, pat) by {
        if |pat| <= |p0| {
          assert p0[..|pat|] == s[..|pat|];
        }
      }
      ConsKeepsAbsent(s[0], qs[0], pat);
    }
  }

  /** A character in front adds no occurrence unless one starts at it. */
  lemma ConsKeepsAbsent(c: char, t: string, pat: string)
    requires !Contains(t, pat) && !OccursAt([c] + t, 0, pat)
    ensures !Contains([c] + t, pat)
  {
    forall i: nat | 0 < i <= |[c] + t|
      ensures !OccursAt([c] + t, i, pat)
    {
      OccursAtShift(c, t, i - 1, pat);
    }
  }

  /** Skipping a prefix in which no occurrence starts. */
  lemma {:induction false} ReplaceSkipsPrefix(s: string, pat: string, rep: string, k: nat)
    requires |pat| > 0 && k <= |s|
    requires forall i: nat :: i < k ==> !OccursAt(s, i, pat)
    ensures ReplaceAll(s, pat, rep) == s[..k] + ReplaceAll(s[k..], pat, rep)
    decreases k
  {
    if k > 0 {
      var t := s[1..];
      ReplaceMismatchStep(s, pat, rep);
      NoOccurrenceInTail(s, pat, k);
      ReplaceSkipsPrefix(t, pat, rep, k - 1);
      var a := ReplaceAll(s[k..], pat, rep);
      assert t[k - 1..] == s[k..];
      assert ReplaceAll(t, pat, rep) == t[..k - 1] + a;
      assert s[..k] == [s[0]] + t[..k - 1];
      assert [s[0]] + (t[..k - 1] + a) == ([s[0]] + t[..k - 1]) + a;
    }
  }

  lemma NoOccurrenceInTail(s: string, pat: string, k: nat)
    requires 0 < k <= |s|
    requires forall i: nat :: i < k ==> !OccursAt(s, i, pat)
    ensures forall i: nat :: i < k - 1 ==> !OccursAt(s[1..], i, pat)
  {
    forall i: nat | i < k - 1
      ensures !OccursAt(s[1..], i, pat)
    {
      OccursAtSuffix(s, 1, i, pat);
    }
  }

  /** Where no occurrence starts, the scan copies one character and moves on. */
  lemma ReplaceMismatchStep(s: string, pat: string, rep: string)
    requires |pat| > 0 && |s| > 0 && !OccursAt(s, 0, pat)
    ensures ReplaceAll(s, pat, rep) == [s[0]] + ReplaceAll(s[1..], pat, rep)
  {
    if |s| < |pat| {
      assert ReplaceAll(s[1..], pat, rep) == s[1..];
      assert s == [s[0]] + s[1..];
    } else {
      assert s[..|pat|] != pat;
    }
  }

  lemma MismatchMeansNoOccurrence(s: string, i: nat, pat: string, j: nat)
    requires j < |pat| && i + j < |s| && s[i + j] != pat[j]
    ensures !OccursAt(s, i, pat)
  {
  }

  /** No placeholder starts inside `"{{project-"` when a placeholder follows it. */
  lemma NoTokenStartsInHead(s: string)
    requires s == Head + Token + Tail
    ensures forall i: nat :: i < 10 ==> !OccursAt(s, i, Token)
  {
    forall i: nat | i < 10
      ensures !OccursAt(s, i, Token)
    {
      assert s[i + 10] == Token[i];
      MismatchMeansNoOccurrence(s, i, Token, 10);
    }
  }

  /** `{{project-` and `name}}`, the two halves of the placeholder. */
  const Head: string := "{{project-"
  const Tail: string := "name}}"

  lemma HeadTailIsToken()
    ensures Head + Tail == Token
  {
    assert |Head + Tail| == |Token| == 16;
    forall i | 0 <= i < 16
      ensures (Head + Tail)[i] == Token[i]
    {
      if i < 10 {
        assert (Head + Tail)[i] == Head[i];
      } else {
        assert (Head + Tail)[i] == Tail[i - 10];
      }
    }
  }

  lemma SplitAt(a: string, b: string)
    ensures (a + b)[..|a|] == a && (a + b)[|a|..] == b
  {
  }

  /**
    One pass of replacement can assemble a new placeholder out of the text
    around a replaced one: `{{project-{{project-name}}name}}` with the
    placeholder replaced by the empty name is the placeholder itself.
   */
  lemma SubstitutionCanLeaveToken(s: string)
    requires s == Head + Token + Tail
    ensures ReplaceAll(s, Token, "") == Token
    ensures Contains(ReplaceAll(s, Token, ""), Token)
  {
    NoTokenStartsInHead(s);
    ReplaceSkipsPrefix(s, Token, "", 10);
    SplitAt(Head, Token + Tail);
    ReplaceLeadingToken(s[10..]);
    HeadTailIsToken();
    assert OccursAt(Token, 0, Token);
  }

  lemma ReplaceLeadingToken(t: string)
    requires t == Token + Tail
    ensures ReplaceAll(t, Token, "") == Tail
  {
    SplitAt(Token, Tail);
    assert ReplaceAll(t, Token, "") == "" + ReplaceAll(Tail, Token, "");
  }
}
