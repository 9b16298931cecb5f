/**
 * Just enough of a regular-expression language to write down the input-file
 * pattern literally, with a declarative meaning: `Span(re, s, i, j)` holds when
 * `re` matches exactly the characters `s[i..j]`.
 */
module Regex {

  /** Regular expressions built from the operators the input-file pattern uses. */
  datatype Re =
    | Chr(c: char)            // one literal character
    | AnyChar                 // `.`: any character except a line feed
    | Alt(left: Re, right: Re) // `left|right`
    | Cat(left: Re, right: Re) // `left` followed by `right`
    | Opt(body: Re)           // `body?`

  /** `re` matches the slice `s[i..j]` exactly. */
  ghost predicate Span(re: Re, s: string, i: int, j: int)
    decreases re
  {
    0 <= i <= j <= |s| &&
    match re
    case Chr(c) => j == i + 1 && s[i] == c
    case AnyChar => j == i + 1 && s[i] != '\n'
    case Alt(l, r) => Span(l, s, i, j) || Span(r, s, i, j)
    case Cat(l, r) => exists k :: i <= k <= j && Span(l, s, i, k) && Span(r, s, k, j)
    case Opt(b) => i == j || Span(b, s, i, j)
  }

  /** Unanchored search: `re` matches some slice of `s` (a regex `is_match`). */
  ghost predicate IsMatch(re: Re, s: string)
  {
    exists i, j :: Span(re, s, i, j)
  }

  /** The expression matching the non-empty literal word `w`. */
  function Lit(w: string): (re: Re)
    requires |w| > 0
    decreases |w|
  {
    if |w| == 1 then Chr(w[0]) else Cat(Chr(w[0]), Lit(w[1..]))
  }

  /** A literal word matches exactly the slices that spell it. */
  lemma {:induction false} LitSpan(w: string, s: string, i: int, j: int)
    requires |w| > 0
    ensures Span(Lit(w), s, i, j) <==> 0 <= i && j == i + |w| <= |s| && s[i..j] == w
    decreases |w|
  {
    if |w| > 1 {
      var rest := w[1..];
      assert Lit(w) == Cat(Chr(w[0]), Lit(rest));
      LitSpan(rest, s, i + 1, j);
      if 0 <= i && j == i + |w| <= |s| && s[i..j] == w {
        assert s[i] == w[0];
        assert s[i + 1..j] == rest;
        assert Span(Chr(w[0]), s, i, i + 1);
      }
      if Span(Lit(w), s, i, j) {
        assert Span(Cat(Chr(w[0]), Lit(rest)), s, i, j);
        var k :| i <= k <= j && Span(Chr(w[0]), s, i, k) && Span(Lit(rest), s, k, j);
        assert k == i + 1;
        assert s[i..j] == [s[i]] + s[i + 1..j];
      }
    }
  }
}
