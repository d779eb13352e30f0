/**
 * Literal substring replacement on strings, as performed by Python's
 * `str.replace(old, new)` with a non-empty `old`: the text is scanned from
 * the left, each occurrence found is replaced, and the scan resumes right
 * after it, so occurrences never overlap.
 */
module TextReplace {

  /** `q` is a prefix of `s`. */
  predicate StartsWith(s: string, q: string)
  {
    |q| <= |s| && s[..|q|] == q
  }

  /** `q` occurs somewhere in `s` as a contiguous substring. */
  predicate Contains(s: string, q: string)
    decreases |s|
  {
    StartsWith(s, q) || (|s| > 0 && Contains(s[1..], q))
  }

  /** No character of `a` is a character of `b`. */
  predicate Disjoint(a: string, b: string)
  {
    forall c :: c in a ==> c !in b
  }

  /** Leftmost, non-overlapping replacement of every `pat` in `s` by `rep`. */
  function Replace(s: string, pat: string, rep: string): string
    requires |pat| > 0
    decreases |s|
  {
    if StartsWith(s, pat) then rep + Replace(s[|pat|..], pat, rep)
    else if |s| == 0 then []
    else [s[0]] + Replace(s[1..], pat, rep)
  }

  /** A string in which `pat` does not occur is returned unchanged. */
  lemma {:induction false} ReplaceAbsent(s: string, pat: string, rep: string)
    requires |pat| > 0 && !Contains(s, pat)
    ensures Replace(s, pat, rep) == s
    decreases |s|
  {
    if |s| > 0 {
      ReplaceAbsent(s[1..], pat, rep);
      assert [s[0]] + s[1..] == s;
    }
  }

  /** `pat` does not start at any of the first `k` positions of `s`. */
  predicate NoMatchBefore(s: string, pat: string, k: nat)
    decreases k
  {
    k == 0 || (|s| > 0 && !StartsWith(s, pat) && NoMatchBefore(s[1..], pat, k - 1))
  }

  /**
   * The leftmost occurrence of `pat` is replaced by `rep`, the text before it
   * is kept, and the scan goes on with the text after it: when `pat` starts
   * at no position of `a`, the occurrence right after `a` is the one replaced.
   */
  lemma {:induction false} ReplaceLeftmost(a: string, pat: string, b: string, rep: string)
    requires |pat| > 0 && NoMatchBefore(a + pat + b, pat, |a|)
    ensures Replace(a + pat + b, pat, rep) == a + rep + Replace(b, pat, rep)
    decreases |a|
  {
    var s := a + pat + b;
    if |a| == 0 {
      assert s == pat + b;
      assert s[..|pat|] == pat && s[|pat|..] == b;
    } else {
      var a' := a[1..];
      assert s[1..] == a' + pat + b;
      ReplaceLeftmost(a', pat, b, rep);
      var rest := Replace(b, pat, rep);
      assert Replace(s, pat, rep) == [a[0]] + (a' + rep + rest);
      assert [a[0]] + a' == a;
    }
  }

  /** An occurrence of `q` later in the string is an occurrence in the whole. */
  lemma {:induction false} ContainsSuffix(s: string, k: nat, q: string)
    requires k <= |s| && Contains(s[k..], q)
    ensures Contains(s, q)
    decreases k
  {
    if k > 0 {
      assert s[1..][k - 1..] == s[k..];
      ContainsSuffix(s[1..], k - 1, q);
    }
  }

  /**
   * An occurrence of `q` in `a + b` must lie inside `b` when `q` begins with
   * a character that `a` does not have.
   */
  lemma {:induction false} ContainsAfter(a: string, b: string, q: string)
    requires |q| > 0 && q[0] !in a && Contains(a + b, q)
    ensures Contains(b, q)
    decreases |a|
  {
    if |a| > 0 {
      assert (a + b)[0] == a[0];
      assert !StartsWith(a + b, q);
      assert (a + b)[1..] == a[1..] + b;
      ContainsAfter(a[1..], b, q);
    } else {
      assert a + b == b;
    }
  }

  /** A string that starts with `c` has a non-empty prefix `q` exactly when `q` starts with `c` and the rest follows. */
  lemma StartsWithCons(c: char, t: string, q: string)
    requires |q| > 0
    ensures StartsWith([c] + t, q) <==> c == q[0] && StartsWith(t, q[1..])
  {
    var s := [c] + t;
    if |q| <= |s| {
      assert s[..|q|] == [c] + t[..|q| - 1];
      assert q == [q[0]] + q[1..];
    }
  }

  /**
   * A prefix made only of characters that `rep` does not use comes from the
   * input: replacement cannot manufacture it.
   */
  lemma {:induction false} PrefixFromInput(s: string, pat: string, rep: string, w: string)
    requires |pat| > 0 && |rep| > 0 && Disjoint(w, rep)
    ensures StartsWith(Replace(s, pat, rep), w) ==> StartsWith(s, w)
    decreases |s|
  {
    var t := Replace(s, pat, rep);
    if |w| > 0 {
      if StartsWith(s, pat) {
        assert t == rep + Replace(s[|pat|..], pat, rep);
        assert t[0] == rep[0] && rep[0] in rep;
        assert w[0] in w;
      } else if |s| > 0 {
        var rest := Replace(s[1..], pat, rep);
        assert t == [s[0]] + rest;
        assert s == [s[0]] + s[1..];
        PrefixFromInput(s[1..], pat, rep, w[1..]);
        StartsWithCons(s[0], rest, w);
        StartsWithCons(s[0], s[1..], w);
      }
    }
  }

  /**
   * Replacement creates no new text: if `q` shares no character with `rep`
   * and occurs in the output, it already occurred in the input.
   */
  lemma {:induction false} ReplaceCreatesNothing(s: string, pat: string, rep: string, q: string)
    requires |pat| > 0 && |rep| > 0 && |q| > 0 && Disjoint(q, rep)
    requires Contains(Replace(s, pat, rep), q)
    ensures Contains(s, q)
    decreases |s|
  {
    var t := Replace(s, pat, rep);
    if StartsWith(s, pat) {
      var rest := Replace(s[|pat|..], pat, rep);
      assert t == rep + rest;
      ContainsAfter(rep, rest, q);
      ReplaceCreatesNothing(s[|pat|..], pat, rep, q);
      ContainsSuffix(s, |pat|, q);
    } else if |s| > 0 {
      var rest := Replace(s[1..], pat, rep);
      assert t == [s[0]] + rest;
      assert s == [s[0]] + s[1..];
      if StartsWith(t, q) {
        StartsWithCons(s[0], rest, q);
        PrefixFromInput(s[1..], pat, rep, q[1..]);
        StartsWithCons(s[0], s[1..], q);
      } else {
        assert t[1..] == rest;
        ReplaceCreatesNothing(s[1..], pat, rep, q);
      }
    }
  }

  /**
   * After the replacement no occurrence of `pat` is left, provided the
   * replacement text shares no character with `pat` (and is not empty, so
   * that removing an occurrence cannot join its two sides into a new one).
   */
  lemma {:induction false} ReplaceEliminates(s: string, pat: string, rep: string)
    requires |pat| > 0 && |rep| > 0 && Disjoint(pat, rep)
    ensures !Contains(Replace(s, pat, rep), pat)
    decreases |s|
  {
    var t := Replace(s, pat, rep);
    if StartsWith(s, pat) {
      var rest := Replace(s[|pat|..], pat, rep);
      assert t == rep + rest;
      ReplaceEliminates(s[|pat|..], pat, rep);
      if Contains(t, pat) {
        ContainsAfter(rep, rest, pat);
      }
    } else if |s| > 0 {
      var rest := Replace(s[1..], pat, rep);
      assert t == [s[0]] + rest;
      assert s == [s[0]] + s[1..];
      ReplaceEliminates(s[1..], pat, rep);
      StartsWithCons(s[0], rest, pat);
      PrefixFromInput(s[1..], pat, rep, pat[1..]);
      StartsWithCons(s[0], s[1..], pat);
      assert t[1..] == rest;
    }
  }

  /** `c` immediately followed by `d` occurs nowhere in `p`. */
  predicate NoPair(p: string, c: char, d: char)
  {
    forall k :: 0 <= k < |p| - 1 ==> !(p[k] == c && p[k + 1] == d)
  }

  /** An occurrence of `pat` at the start of `a + b` that runs past `a` puts the two join characters side by side. */
  lemma StraddlePair(a: string, b: string, pat: string)
    requires 0 < |a| < |pat| && |b| > 0
    ensures StartsWith(a + b, pat) ==> pat[|a| - 1] == a[|a| - 1] && pat[|a|] == b[0]
  {
  }

  /**
   * Where the last character of `a` and the first of `b` never stand side by
   * side in `pat`, no occurrence of `pat` spans the join, so the two halves are
   * replaced independently.
   */
  lemma {:induction false} ReplaceConcat(a: string, b: string, pat: string, rep: string)
    requires |pat| > 0 && |a| > 0 && |b| > 0 && NoPair(pat, a[|a| - 1], b[0])
    ensures Replace(a + b, pat, rep) == Replace(a, pat, rep) + Replace(b, pat, rep)
    decreases |a|
  {
    var s := a + b;
    var n := if StartsWith(a, pat) then |pat| else 1;
    var x := if StartsWith(a, pat) then rep else [a[0]];
    var a' := a[n..];
    assert s[n..] == a' + b;
    if StartsWith(a, pat) {
      assert s[..|pat|] == a[..|pat|];
    } else if |pat| > |a| {
      StraddlePair(a, b, pat);
    }
    assert Replace(s, pat, rep) == x + Replace(a' + b, pat, rep);
    assert Replace(a, pat, rep) == x + Replace(a', pat, rep);
    var ra, rb := Replace(a', pat, rep), Replace(b, pat, rep);
    if |a'| > 0 {
      assert a'[|a'| - 1] == a[|a| - 1];
      ReplaceConcat(a', b, pat, rep);
    } else {
      assert a' + b == b;
      assert ra + rb == rb;
    }
    ConcatAssoc(x, ra, rb);
  }

  lemma ConcatAssoc(x: string, y: string, z: string)
    ensures x + (y + z) == (x + y) + z
  {
  }

  /**
   * With a non-empty replacement, the output is empty exactly when the input
   * is, and its first and last characters are the input's or the replacement's.
   */
  lemma {:induction false} ReplaceEdges(s: string, pat: string, rep: string)
    requires |pat| > 0 && |rep| > 0
    ensures var t := Replace(s, pat, rep);
      && (|t| == 0 <==> |s| == 0)
      && (|s| > 0 ==> t[0] == s[0] || t[0] == rep[0])
      && (|s| > 0 ==> t[|t| - 1] == s[|s| - 1] || t[|t| - 1] == rep[|rep| - 1])
    decreases |s|
  {
    if StartsWith(s, pat) {
      var s' := s[|pat|..];
      ReplaceEdges(s', pat, rep);
      if |s'| > 0 {
        assert s'[|s'| - 1] == s[|s| - 1];
      }
    } else if |s| > 0 {
      var s' := s[1..];
      ReplaceEdges(s', pat, rep);
      if |s'| > 0 {
        assert s'[|s'| - 1] == s[|s| - 1];
      }
    }
  }
}
