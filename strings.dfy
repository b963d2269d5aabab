/**
 * The two JavaScript string operations the wrapper relies on:
 * `String.prototype.includes` (a contiguous substring test) and
 * `Array.prototype.join` on an array of strings.
 */
module Strings {

  /** `t` occurs in `s` as a contiguous block starting at offset `i`. */
  ghost predicate OccursAt(s: string, t: string, i: int)
  {
    0 <= i && i + |t| <= |s| && s[i..i + |t|] == t
  }

  /**
   * JavaScript's `s.includes(t)`: tries the offsets of `s` from left to right.
   * The empty string is included in every string.
   */
  predicate Includes(s: string, t: string)
    decreases |s|
  {
    |t| <= |s| && (s[..|t|] == t || (|t| < |s| && Includes(s[1..], t)))
  }

  /** The scan agrees with the definition of a substring: some offset holds `t`. */
  lemma {:induction false} IncludesIff(s: string, t: string)
    ensures Includes(s, t) <==> exists i :: OccursAt(s, t, i)
    decreases |s|
  {
    if |t| <= |s| && s[..|t|] == t {
      assert OccursAt(s, t, 0);
    } else if |t| < |s| {
      IncludesIff(s[1..], t);
      if Includes(s[1..], t) {
        var i :| OccursAt(s[1..], t, i);
        assert s[1..][i..i + |t|] == s[i + 1..i + 1 + |t|];
        assert OccursAt(s, t, i + 1);
      } else {
        forall i | OccursAt(s, t, i)
          ensures i != 0 && OccursAt(s[1..], t, i - 1)
        {
          if i != 0 {
            assert s[1..][i - 1..i - 1 + |t|] == s[i..i + |t|];
          }
        }
      }
    } else {
      forall i | OccursAt(s, t, i)
        ensures false
      {
      }
    }
  }

  /** A string included in the middle part of a concatenation is included in the whole. */
  lemma IncludesWithin(a: string, b: string, c: string, t: string)
    requires Includes(b, t)
    ensures Includes(a + b + c, t)
  {
    IncludesIff(b, t);
    var i :| OccursAt(b, t, i);
    assert (a + b + c)[|a| + i..|a| + i + |t|] == b[i..i + |t|];
    assert OccursAt(a + b + c, t, |a| + i);
    IncludesIff(a + b + c, t);
  }

  /** A non-empty included string has its first character in the host string. */
  lemma IncludesFirstChar(s: string, t: string)
    requires |t| > 0 && Includes(s, t)
    ensures t[0] in s
  {
    IncludesIff(s, t);
    var i :| OccursAt(s, t, i);
    assert s[i] == s[i..i + |t|][0];
  }

  /**
   * JavaScript's `xs.join(sep)`: the elements of `xs` in order, with `sep`
   * between neighbours; an empty array joins to the empty string.
   */
  function Join(xs: seq<string>, sep: string): (r: string)
    ensures |xs| == 1 ==> r == xs[0]
    ensures |xs| == 2 ==> r == xs[0] + sep + xs[1]
  {
    if |xs| == 0 then ""
    else if |xs| == 1 then xs[0]
    else xs[0] + sep + Join(xs[1..], sep)
  }

  /** Every element of a joined array can be found in the joined string. */
  lemma {:induction false} JoinIncludesEach(xs: seq<string>, sep: string)
    ensures forall i | 0 <= i < |xs| :: Includes(Join(xs, sep), xs[i])
  {
    if |xs| == 1 {
      assert xs[0][..|xs[0]|] == xs[0];
    } else if |xs| > 1 {
      var rest := Join(xs[1..], sep);
      JoinIncludesEach(xs[1..], sep);
      forall i | 0 <= i < |xs|
        ensures Includes(Join(xs, sep), xs[i])
      {
        if i == 0 {
          assert xs[0][..|xs[0]|] == xs[0];
          IncludesWithin("", xs[0], sep + rest, xs[0]);
          assert "" + xs[0] + (sep + rest) == Join(xs, sep);
        } else {
          assert xs[1..][i - 1] == xs[i];
          IncludesWithin(xs[0] + sep, rest, "", xs[i]);
          assert xs[0] + sep + rest + "" == Join(xs, sep);
        }
      }
    }
  }
}
