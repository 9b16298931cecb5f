/** Substring vocabulary used by the classifier. */
module Strings {

  /** `w` occurs in `s` starting at index `i`. */
  predicate OccursAt(s: string, i: int, w: string)
  {
    0 <= i && i + |w| <= |s| && s[i..i + |w|] == w
  }

  /** An occurrence in the tail of `s` is an occurrence one index further in `s`. */
  lemma OccursAtTail(s: string, i: int, w: string)
    requires |s| > 0 && 0 <= i
    ensures OccursAt(s[1..], i, w) <==> OccursAt(s, i + 1, w)
  {
    if 0 <= i && i + |w| <= |s| - 1 {
      assert s[1..][i..i + |w|] == s[i + 1..i + 1 + |w|];
    }
  }

  /** `w` occurs somewhere in `s`: Rust's `str::contains` with a string
      pattern, tried at each start position from the left. */
  function Contains(s: string, w: string): (found: bool)
    ensures found <==> exists i | 0 <= i <= |s| :: OccursAt(s, i, w)
    decreases |s|
  {
    if OccursAt(s, 0, w) then true
    else if |s| == 0 then false
    else
      var rest := Contains(s[1..], w);
      assert rest <==> exists i | 1 <= i <= |s| :: OccursAt(s, i, w) by {
        forall i | 0 <= i <= |s| - 1 {
          OccursAtTail(s, i, w);
        }
        if j :| 1 <= j <= |s| && OccursAt(s, j, w) {
          OccursAtTail(s, j - 1, w);
        }
      }
      rest
  }

  /** An occurrence survives any text added on either side. */
  lemma OccursAtShift(a: string, s: string, b: string, i: int, w: string)
    requires OccursAt(s, i, w)
    ensures OccursAt(a + s + b, |a| + i, w)
  {
    assert (a + s + b)[|a| + i..|a| + i + |w|] == s[i..i + |w|];
  }

  /** `Contains` is monotone under extension on both sides. */
  lemma ContainsExtend(a: string, s: string, b: string, w: string)
    requires Contains(s, w)
    ensures Contains(a + s + b, w)
  {
    var i :| 0 <= i <= |s| && OccursAt(s, i, w);
    OccursAtShift(a, s, b, i, w);
    assert 0 <= |a| + i <= |a + s + b|;
  }
}
