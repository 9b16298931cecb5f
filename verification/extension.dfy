/**
 * The input-file pattern `\.(hevc|.?265|mkv)` of `input_format`, hand-coded as
 * a predicate on file names, and proved equal to the literal regular expression.
 */
module Extension {
  import opened Wrappers
  import opened Strings
  import opened Regex

  /** The pattern exactly as written: a dot, then `hevc`, an optional non-newline
      character followed by `265`, or `mkv`. */
  const Pattern: Re := Cat(Chr('.'), Tail)

  /** The alternation that follows the leading dot. */
  const Tail: Re := Alt(Alt(Lit("hevc"), Cat(Opt(AnyChar), Lit("265"))), Lit("mkv"))

  /** The pattern matches starting at index `i` of `s`. */
  predicate ExtAt(s: string, i: int)
  {
    && 0 <= i < |s|
    && s[i] == '.'
    && (|| OccursAt(s, i + 1, "hevc")
        || OccursAt(s, i + 1, "265")
        || (i + 1 < |s| && s[i + 1] != '\n' && OccursAt(s, i + 2, "265"))
        || OccursAt(s, i + 1, "mkv"))
  }

  /** The pattern matches somewhere in `s` (the match is not anchored): the
      `is_match` test of `input_format`. */
  function MatchesExt(s: string): (matched: bool)
    ensures matched <==> IsMatch(Pattern, s)
  {
    PatternIsMatchesExt(s);
    exists i | 0 <= i < |s| :: ExtAt(s, i)
  }

  /** A literal word of the pattern matches exactly where the word occurs. */
  lemma LitOccurs(w: string, s: string, m: int, j: int)
    requires |w| > 0 && 0 <= m
    ensures Span(Lit(w), s, m, j) <==> OccursAt(s, m, w) && j == m + |w|
  {
    LitSpan(w, s, m, j);
  }

  /** `.?265` with the optional character left out. */
  lemma Opt265WithoutChar(s: string, m: int)
    requires 0 <= m && OccursAt(s, m, "265")
    ensures Span(Cat(Opt(AnyChar), Lit("265")), s, m, m + 3)
  {
    LitOccurs("265", s, m, m + 3);
    assert Span(Opt(AnyChar), s, m, m);
  }

  /** `.?265` with the optional character present. */
  lemma Opt265WithChar(s: string, m: int)
    requires 0 <= m < |s| && s[m] != '\n' && OccursAt(s, m + 1, "265")
    ensures Span(Cat(Opt(AnyChar), Lit("265")), s, m, m + 4)
  {
    LitOccurs("265", s, m + 1, m + 4);
    assert Span(AnyChar, s, m, m + 1);
    assert Span(Opt(AnyChar), s, m, m + 1);
  }

  /** Every slice `.?265` matches is one of the two above. */
  lemma Opt265Only(s: string, m: int, j: int)
    requires 0 <= m && Span(Cat(Opt(AnyChar), Lit("265")), s, m, j)
    ensures || (OccursAt(s, m, "265") && j == m + 3)
            || (m < |s| && s[m] != '\n' && OccursAt(s, m + 1, "265") && j == m + 4)
  {
    var k :| m <= k <= j && Span(Opt(AnyChar), s, m, k) && Span(Lit("265"), s, k, j);
    LitOccurs("265", s, k, j);
  }

  /** The slices of `s` matched by `.?265` from index `m`. */
  lemma Opt265Span(s: string, m: int, j: int)
    requires 0 <= m
    ensures Span(Cat(Opt(AnyChar), Lit("265")), s, m, j) <==>
      || (OccursAt(s, m, "265") && j == m + 3)
      || (m < |s| && s[m] != '\n' && OccursAt(s, m + 1, "265") && j == m + 4)
  {
    if OccursAt(s, m, "265") && j == m + 3 {
      Opt265WithoutChar(s, m);
    }
    if m < |s| && s[m] != '\n' && OccursAt(s, m + 1, "265") && j == m + 4 {
      Opt265WithChar(s, m);
    }
    if Span(Cat(Opt(AnyChar), Lit("265")), s, m, j) {
      Opt265Only(s, m, j);
    }
  }

  /** The slices of `s` matched by `Tail` from index `m`. */
  lemma TailSpan(s: string, m: int, j: int)
    requires 0 <= m
    ensures Span(Tail, s, m, j) <==>
      || (OccursAt(s, m, "hevc") && j == m + 4)
      || (OccursAt(s, m, "265") && j == m + 3)
      || (m < |s| && s[m] != '\n' && OccursAt(s, m + 1, "265") && j == m + 4)
      || (OccursAt(s, m, "mkv") && j == m + 3)
  {
    LitOccurs("hevc", s, m, j);
    LitOccurs("mkv", s, m, j);
    Opt265Span(s, m, j);
  }

  /** Where the match found by `ExtAt(s, i)` ends. */
  function MatchEnd(s: string, i: int): (j: int)
  {
    if OccursAt(s, i + 1, "hevc") then i + 5
    else if OccursAt(s, i + 1, "265") || OccursAt(s, i + 1, "mkv") then i + 4
    else i + 5
  }

  /** Where `ExtAt(s, i)` holds, the literal pattern matches `s[i..MatchEnd(s, i)]`. */
  lemma ExtAtSpans(s: string, i: int)
    requires ExtAt(s, i)
    ensures Span(Pattern, s, i, MatchEnd(s, i))
  {
    var j := MatchEnd(s, i);
    TailSpan(s, i + 1, j);
    assert Span(Chr('.'), s, i, i + 1);
  }

  /** Every slice the literal pattern matches starts at an index where `ExtAt` holds. */
  lemma SpanIsExtAt(s: string, i: int, j: int)
    requires Span(Pattern, s, i, j)
    ensures ExtAt(s, i)
  {
    var k :| i <= k <= j && Span(Chr('.'), s, i, k) && Span(Tail, s, k, j);
    assert k == i + 1 && s[i] == '.';
    TailSpan(s, k, j);
  }

  /** The literal pattern matches somewhere in `s` exactly when `ExtAt` holds
      at some index of `s`. */
  lemma PatternIsMatchesExt(s: string)
    ensures IsMatch(Pattern, s) <==> exists i | 0 <= i < |s| :: ExtAt(s, i)
  {
    if IsMatch(Pattern, s) {
      var i, j :| Span(Pattern, s, i, j);
      SpanIsExtAt(s, i, j);
    }
    if i :| 0 <= i < |s| && ExtAt(s, i) {
      ExtAtSpans(s, i);
    }
  }

  /** Scans `s` left to right for the first index where the pattern matches. */
  method FindExtension(s: string) returns (r: Option<nat>)
    ensures r.None? <==> !MatchesExt(s)
    ensures r.Some? ==> ExtAt(s, r.value)
    ensures r.Some? ==> forall j | 0 <= j < r.value :: !ExtAt(s, j)
  {
    var i := 0;
    while i < |s|
      invariant 0 <= i <= |s|
      invariant forall j | 0 <= j < i :: !ExtAt(s, j)
    {
      if ExtAt(s, i) {
        return Some(i);
      }
      i := i + 1;
    }
    return None;
  }

  /** Every match needs a dot and at least three more characters, so no name
      shorter than four characters (in particular `""` and `"-"`) matches. */
  lemma ShortNamesNeverMatch(s: string)
    requires |s| < 4
    ensures !MatchesExt(s)
  {
  }

  /** A name that matches has at least four characters. */
  lemma MatchNeedsFourChars(s: string)
    requires MatchesExt(s)
    ensures |s| >= 4
  {
    var i :| 0 <= i < |s| && ExtAt(s, i);
  }

  /** A match at index `i` of `s` is a match at `|a| + i` of `a + s + b`. */
  lemma ExtAtShift(a: string, s: string, b: string, i: int)
    requires ExtAt(s, i)
    ensures ExtAt(a + s + b, |a| + i)
  {
    var t := a + s + b;
    assert t[|a| + i] == s[i];
    if OccursAt(s, i + 1, "hevc") {
      OccursAtShift(a, s, b, i + 1, "hevc");
    } else if OccursAt(s, i + 1, "265") {
      OccursAtShift(a, s, b, i + 1, "265");
    } else if OccursAt(s, i + 1, "mkv") {
      OccursAtShift(a, s, b, i + 1, "mkv");
    } else {
      assert t[|a| + i + 1] == s[i + 1];
      OccursAtShift(a, s, b, i + 2, "265");
    }
  }

  /** A match anywhere in `s` is still a match once text is added on either
      side: the pattern is not anchored to the end of the name. */
  lemma MatchUnanchored(a: string, s: string, b: string)
    requires MatchesExt(s)
    ensures MatchesExt(a + s + b)
  {
    var i :| 0 <= i < |s| && ExtAt(s, i);
    ExtAtShift(a, s, b, i);
  }

  /** A name is matched through its `mkv` alternative only if it contains `mkv`;
      a match with no `mkv` in the name went through `hevc` or `.?265`. */
  lemma MatchWithoutMkv(s: string)
    requires MatchesExt(s) && !Contains(s, "mkv")
    ensures exists i | 0 <= i < |s| ::
      s[i] == '.' &&
      (|| OccursAt(s, i + 1, "hevc")
       || OccursAt(s, i + 1, "265")
       || (i + 1 < |s| && s[i + 1] != '\n' && OccursAt(s, i + 2, "265")))
  {
    var i :| 0 <= i < |s| && ExtAt(s, i);
    assert 0 <= i + 1 <= |s|;
    assert ExtAt(s, i) && !OccursAt(s, i + 1, "mkv");
  }
}
