/** Literal search-and-replace, as `re.sub` performs it for a pattern without
    metacharacters: the text is scanned left to right and every
    non-overlapping occurrence of the pattern is replaced, optionally
    ignoring case (`flags=re.IGNORECASE`). */
module Rewrite {
  import opened Text

  /** How a character is compared: folded when case is ignored. */
  function KeyChar(c: char, ignoreCase: bool): char
  {
    if ignoreCase then FoldChar(c) else c
  }

  /** The pattern `p` occurs in `s` at position `i`. */
  predicate MatchesAt(s: string, i: nat, p: string, ignoreCase: bool)
    requires i + |p| <= |s|
  {
    forall m :: 0 <= m < |p| ==> KeyChar(s[i + m], ignoreCase) == KeyChar(p[m], ignoreCase)
  }

  predicate Occurs(s: string, p: string, ignoreCase: bool)
  {
    exists i: nat :: i + |p| <= |s| && MatchesAt(s, i, p, ignoreCase)
  }

  /** Every non-overlapping occurrence of `p` in `s`, leftmost first, replaced by `q`. */
  function ReplaceAll(s: string, p: string, q: string, ignoreCase: bool): string
    requires p != []
    decreases |s|
  {
    if |s| < |p| then s
    else if MatchesAt(s, 0, p, ignoreCase) then q + ReplaceAll(s[|p|..], p, q, ignoreCase)
    else [s[0]] + ReplaceAll(s[1..], p, q, ignoreCase)
  }

  lemma {:induction false} MatchesAtShift(s: string, n: nat, i: nat, p: string, ignoreCase: bool)
    requires n <= |s| && i + |p| <= |s| - n
    ensures MatchesAt(s[n..], i, p, ignoreCase) == MatchesAt(s, n + i, p, ignoreCase)
  {
  }

  lemma {:induction false} ReplaceAllShort(s: string, p: string, q: string, ignoreCase: bool)
    requires p != [] && |s| < |p|
    ensures ReplaceAll(s, p, q, ignoreCase) == s
  {
  }

  lemma {:induction false} ReplaceAllMatch(s: string, p: string, q: string, ignoreCase: bool)
    requires p != [] && |p| <= |s| && MatchesAt(s, 0, p, ignoreCase)
    ensures ReplaceAll(s, p, q, ignoreCase) == q + ReplaceAll(s[|p|..], p, q, ignoreCase)
  {
  }

  lemma {:induction false} ReplaceAllSkip(s: string, p: string, q: string, ignoreCase: bool)
    requires p != [] && |p| <= |s| && !MatchesAt(s, 0, p, ignoreCase)
    ensures ReplaceAll(s, p, q, ignoreCase) == [s[0]] + ReplaceAll(s[1..], p, q, ignoreCase)
  {
  }

  /** Text in which the pattern does not occur is left as it is. */
  lemma {:induction false} ReplaceAllNoOccurrence(s: string, p: string, q: string, ignoreCase: bool)
    requires p != []
    requires !Occurs(s, p, ignoreCase)
    ensures ReplaceAll(s, p, q, ignoreCase) == s
    decreases |s|
  {
    if |s| < |p| {
      ReplaceAllShort(s, p, q, ignoreCase);
    } else {
      assert !MatchesAt(s, 0, p, ignoreCase);
      ReplaceAllSkip(s, p, q, ignoreCase);
      forall i: nat | i + |p| <= |s| - 1
        ensures !MatchesAt(s[1..], i, p, ignoreCase)
      {
        MatchesAtShift(s, 1, i, p, ignoreCase);
      }
      ReplaceAllNoOccurrence(s[1..], p, q, ignoreCase);
      assert s == [s[0]] + s[1..];
    }
  }

  /** A window that covers position `k`, whose character is not in the
      pattern, cannot match. */
  lemma {:induction false} NoMatchOver(s: string, k: nat, p: string, ignoreCase: bool)
    requires k < |s| && k < |p| && |p| <= |s|
    requires forall j :: 0 <= j < |p| ==> KeyChar(p[j], ignoreCase) != KeyChar(s[k], ignoreCase)
    ensures !MatchesAt(s, 0, p, ignoreCase)
  {
    assert KeyChar(p[k], ignoreCase) != KeyChar(s[0 + k], ignoreCase);
  }

  predicate Outside(c: char, p: string, ignoreCase: bool)
  {
    forall j :: 0 <= j < |p| ==> KeyChar(p[j], ignoreCase) != KeyChar(c, ignoreCase)
  }

  /** A character that cannot be part of the pattern separates the
      replacement: both sides are rewritten independently. */
  lemma {:induction false} ReplaceAllAround(a: string, c: char, b: string, p: string, q: string, ignoreCase: bool)
    requires p != [] && Outside(c, p, ignoreCase)
    ensures ReplaceAll(a + ([c] + b), p, q, ignoreCase)
         == ReplaceAll(a, p, q, ignoreCase) + ([c] + ReplaceAll(b, p, q, ignoreCase))
    decreases |a|
  {
    var e, rest := [c] + b, [c] + ReplaceAll(b, p, q, ignoreCase);
    if a == [] {
      AroundEmpty(c, b, p, q, ignoreCase);
      ReplaceAllShort(a, p, q, ignoreCase);
      assert a + e == e;
    } else if |a| < |p| {
      ReplaceAllAround(a[1..], c, b, p, q, ignoreCase);
      ShortWindow(a, c, b, p, q, ignoreCase);
      AroundShortStep(a, e, rest, p, q, ignoreCase);
    } else if MatchesAt(a, 0, p, ignoreCase) {
      ReplaceAllAround(a[|p|..], c, b, p, q, ignoreCase);
      AroundMatchStep(a, e, rest, p, q, ignoreCase);
    } else {
      ReplaceAllAround(a[1..], c, b, p, q, ignoreCase);
      AroundSkipStep(a, e, rest, p, q, ignoreCase);
    }
  }

  lemma {:induction false} AroundEmpty(c: char, b: string, p: string, q: string, ignoreCase: bool)
    requires p != [] && Outside(c, p, ignoreCase)
    ensures ReplaceAll([c] + b, p, q, ignoreCase) == [c] + ReplaceAll(b, p, q, ignoreCase)
  {
    var s := [c] + b;
    if |s| < |p| {
      ReplaceAllShort(s, p, q, ignoreCase);
      ReplaceAllShort(b, p, q, ignoreCase);
    } else {
      assert KeyChar(p[0], ignoreCase) != KeyChar(s[0 + 0], ignoreCase);
      ReplaceAllSkip(s, p, q, ignoreCase);
      assert s[1..] == b;
    }
  }

  /** A non-empty text shorter than the pattern, followed by the separator:
      no window starting in it can match. */
  lemma {:induction false} ShortWindow(a: string, c: char, b: string, p: string, q: string, ignoreCase: bool)
    requires p != [] && Outside(c, p, ignoreCase) && 0 < |a| < |p|
    ensures |a + ([c] + b)| < |p| ==> [c] + ReplaceAll(b, p, q, ignoreCase) == [c] + b
    ensures |p| <= |a + ([c] + b)| ==> !MatchesAt(a + ([c] + b), 0, p, ignoreCase)
  {
    var s := a + ([c] + b);
    if |s| < |p| {
      ReplaceAllShort(b, p, q, ignoreCase);
    } else {
      assert s[|a|] == c;
      NoMatchOver(s, |a|, p, ignoreCase);
    }
  }

  /** A non-empty text shorter than the pattern, followed by anything that
      cannot complete a match. */
  lemma {:induction false} AroundShortStep(a: string, e: string, rest: string, p: string, q: string, ignoreCase: bool)
    requires p != [] && 0 < |a| < |p|
    requires |a + e| < |p| ==> rest == e
    requires |p| <= |a + e| ==> !MatchesAt(a + e, 0, p, ignoreCase)
    requires ReplaceAll(a[1..] + e, p, q, ignoreCase) == ReplaceAll(a[1..], p, q, ignoreCase) + rest
    ensures ReplaceAll(a + e, p, q, ignoreCase) == ReplaceAll(a, p, q, ignoreCase) + rest
  {
    ReplaceAllShort(a, p, q, ignoreCase);
    if |a + e| < |p| {
      ReplaceAllShort(a + e, p, q, ignoreCase);
    } else {
      ReplaceAllShort(a[1..], p, q, ignoreCase);
      ReplaceAllSkip(a + e, p, q, ignoreCase);
      assert (a + e)[1..] == a[1..] + e;
      assert [a[0]] + (a[1..] + rest) == a + rest;
    }
  }

  /** A text that starts with the pattern, followed by anything. */
  lemma {:induction false} AroundMatchStep(a: string, e: string, rest: string, p: string, q: string, ignoreCase: bool)
    requires p != [] && |p| <= |a| && MatchesAt(a, 0, p, ignoreCase)
    requires ReplaceAll(a[|p|..] + e, p, q, ignoreCase) == ReplaceAll(a[|p|..], p, q, ignoreCase) + rest
    ensures ReplaceAll(a + e, p, q, ignoreCase) == ReplaceAll(a, p, q, ignoreCase) + rest
  {
    var tail := a[|p|..];
    SameStart(a + e, a, p, ignoreCase);
    assert (a + e)[|p|..] == tail + e;
    ReplaceAllMatch(a + e, p, q, ignoreCase);
    ReplaceAllMatch(a, p, q, ignoreCase);
    assert q + (ReplaceAll(tail, p, q, ignoreCase) + rest) == (q + ReplaceAll(tail, p, q, ignoreCase)) + rest;
  }

  /** A text that does not start with the pattern, followed by anything. */
  lemma {:induction false} AroundSkipStep(a: string, e: string, rest: string, p: string, q: string, ignoreCase: bool)
    requires p != [] && |p| <= |a| && !MatchesAt(a, 0, p, ignoreCase)
    requires ReplaceAll(a[1..] + e, p, q, ignoreCase) == ReplaceAll(a[1..], p, q, ignoreCase) + rest
    ensures ReplaceAll(a + e, p, q, ignoreCase) == ReplaceAll(a, p, q, ignoreCase) + rest
  {
    SameStart(a + e, a, p, ignoreCase);
    assert (a + e)[1..] == a[1..] + e;
    ReplaceAllSkip(a + e, p, q, ignoreCase);
    ReplaceAllSkip(a, p, q, ignoreCase);
    assert [a[0]] + (ReplaceAll(a[1..], p, q, ignoreCase) + rest) == ([a[0]] + ReplaceAll(a[1..], p, q, ignoreCase)) + rest;
  }

  lemma {:induction false} SameStart(s: string, a: string, p: string, ignoreCase: bool)
    requires |p| <= |a| <= |s| && a == s[..|a|]
    ensures MatchesAt(s, 0, p, ignoreCase) == MatchesAt(a, 0, p, ignoreCase)
  {
    assert forall m :: 0 <= m < |p| ==> s[m] == a[m];
  }

  /** Some position at which `a` and `b`, aligned at their starts, differ:
      neither is a prefix of the other. */
  predicate Clash(a: string, b: string, ignoreCase: bool)
  {
    exists m: nat :: m < |a| && m < |b| && KeyChar(a[m], ignoreCase) != KeyChar(b[m], ignoreCase)
  }

  /** The replacement cannot form the pattern with its neighbours: no proper
      suffix of the pattern, and no suffix of the replacement, is compatible
      with the start of the other. */
  predicate Separated(p: string, q: string, ignoreCase: bool)
  {
    && (forall i :: 1 <= i < |p| ==> Clash(p[i..], q, ignoreCase))
    && (forall i :: 0 <= i < |q| ==> Clash(q[i..], p, ignoreCase))
  }

  /** The first characters of the rewritten text that spell a proper suffix of
      the pattern come from the original text unchanged. */
  lemma {:induction false} SuffixComesFromSource(t: string, p: string, q: string, ignoreCase: bool, i: nat)
    requires p != [] && 1 <= i < |p| && Separated(p, q, ignoreCase)
    requires |p| - i <= |ReplaceAll(t, p, q, ignoreCase)|
    requires MatchesAt(ReplaceAll(t, p, q, ignoreCase), 0, p[i..], ignoreCase)
    ensures |p| - i <= |t| && MatchesAt(t, 0, p[i..], ignoreCase)
    decreases |t|
  {
    if |t| < |p| {
      ReplaceAllShort(t, p, q, ignoreCase);
    } else if MatchesAt(t, 0, p, ignoreCase) {
      ReplaceAllMatch(t, p, q, ignoreCase);
      assert false;
    } else {
      ReplaceAllSkip(t, p, q, ignoreCase);
      var x := ReplaceAll(t[1..], p, q, ignoreCase);
      MatchesCons(t[0], x, p[i..], ignoreCase);
      if i + 1 < |p| {
        assert p[i..][1..] == p[i + 1..];
        SuffixComesFromSource(t[1..], p, q, ignoreCase, i + 1);
      }
      assert t == [t[0]] + t[1..];
      MatchesCons(t[0], t[1..], p[i..], ignoreCase);
    }
  }

  /** Matching a non-empty pattern at the start of `[c] + x`: its first
      character against `c`, the rest against `x`. */
  lemma {:induction false} MatchesCons(c: char, x: string, w: string, ignoreCase: bool)
    requires 0 < |w| <= |x| + 1
    ensures MatchesAt([c] + x, 0, w, ignoreCase)
        <==> KeyChar(c, ignoreCase) == KeyChar(w[0], ignoreCase) && MatchesAt(x, 0, w[1..], ignoreCase)
  {
    var s := [c] + x;
    if KeyChar(c, ignoreCase) == KeyChar(w[0], ignoreCase) && MatchesAt(x, 0, w[1..], ignoreCase) {
      forall m | 0 <= m < |w|
        ensures KeyChar(s[0 + m], ignoreCase) == KeyChar(w[m], ignoreCase)
      {
        if m > 0 {
          assert s[m] == x[0 + (m - 1)] && w[m] == w[1..][m - 1];
        }
      }
    }
    if MatchesAt(s, 0, w, ignoreCase) {
      assert KeyChar(s[0 + 0], ignoreCase) == KeyChar(w[0], ignoreCase);
      forall m | 0 <= m < |w| - 1
        ensures KeyChar(x[0 + m], ignoreCase) == KeyChar(w[1..][m], ignoreCase)
      {
        assert KeyChar(s[0 + (m + 1)], ignoreCase) == KeyChar(w[m + 1], ignoreCase);
      }
    }
  }

  /** If the replacement cannot combine with its neighbours into the pattern,
      no occurrence of the pattern survives the rewrite. */
  lemma {:induction false} NoOccurrenceRemains(s: string, p: string, q: string, ignoreCase: bool)
    requires p != [] && Separated(p, q, ignoreCase)
    ensures !Occurs(ReplaceAll(s, p, q, ignoreCase), p, ignoreCase)
    decreases |s|
  {
    if |s| < |p| {
      ReplaceAllShort(s, p, q, ignoreCase);
    } else if MatchesAt(s, 0, p, ignoreCase) {
      NoOccurrenceRemains(s[|p|..], p, q, ignoreCase);
      NoOccurrenceAfterMatch(s, p, q, ignoreCase);
    } else {
      NoOccurrenceRemains(s[1..], p, q, ignoreCase);
      NoOccurrenceAfterSkip(s, p, q, ignoreCase);
    }
  }

  /** A replaced occurrence: the replacement starts no match, and the rest
      holds none. */
  lemma {:induction false} NoOccurrenceAfterMatch(s: string, p: string, q: string, ignoreCase: bool)
    requires p != [] && Separated(p, q, ignoreCase)
    requires |p| <= |s| && MatchesAt(s, 0, p, ignoreCase)
    requires !Occurs(ReplaceAll(s[|p|..], p, q, ignoreCase), p, ignoreCase)
    ensures !Occurs(ReplaceAll(s, p, q, ignoreCase), p, ignoreCase)
  {
    var r := ReplaceAll(s, p, q, ignoreCase);
    ReplaceAllMatch(s, p, q, ignoreCase);
    var x := ReplaceAll(s[|p|..], p, q, ignoreCase);
    forall i: nat | i + |p| <= |r|
      ensures !MatchesAt(r, i, p, ignoreCase)
    {
      if i < |q| {
        assert Clash(q[i..], p, ignoreCase);
        var m: nat :| m < |q| - i && m < |p| && KeyChar(q[i..][m], ignoreCase) != KeyChar(p[m], ignoreCase);
        assert r[i + m] == q[i..][m];
      } else {
        MatchesAtShift(r, |q|, i - |q|, p, ignoreCase);
        assert r[|q|..] == x;
      }
    }
  }

  /** A copied first character: it starts no match, and the rest holds none. */
  lemma {:induction false} NoOccurrenceAfterSkip(s: string, p: string, q: string, ignoreCase: bool)
    requires p != [] && Separated(p, q, ignoreCase)
    requires |p| <= |s| && !MatchesAt(s, 0, p, ignoreCase)
    requires !Occurs(ReplaceAll(s[1..], p, q, ignoreCase), p, ignoreCase)
    ensures !Occurs(ReplaceAll(s, p, q, ignoreCase), p, ignoreCase)
  {
    var r := ReplaceAll(s, p, q, ignoreCase);
    ReplaceAllSkip(s, p, q, ignoreCase);
    var x := ReplaceAll(s[1..], p, q, ignoreCase);
    StartFromSource(s, p, q, ignoreCase);
    forall i: nat | 0 < i && i + |p| <= |r|
      ensures !MatchesAt(r, i, p, ignoreCase)
    {
      MatchesAtShift(r, 1, i - 1, p, ignoreCase);
      assert r[1..] == x;
    }
  }

  /** The step of NoOccurrenceRemains at the first position of a text that
      does not start with the pattern. */
  lemma {:induction false} StartFromSource(s: string, p: string, q: string, ignoreCase: bool)
    requires p != [] && Separated(p, q, ignoreCase)
    requires |p| <= |s| && !MatchesAt(s, 0, p, ignoreCase)
    ensures |p| > |ReplaceAll(s, p, q, ignoreCase)| || !MatchesAt(ReplaceAll(s, p, q, ignoreCase), 0, p, ignoreCase)
  {
    ReplaceAllSkip(s, p, q, ignoreCase);
    var r := ReplaceAll(s, p, q, ignoreCase);
    var x := ReplaceAll(s[1..], p, q, ignoreCase);
    if |p| <= |r| && MatchesAt(r, 0, p, ignoreCase) {
      assert KeyChar(s[0], ignoreCase) == KeyChar(p[0], ignoreCase) by {
        assert r[0 + 0] == s[0];
      }
      if |p| > 1 {
        assert MatchesAt(x, 0, p[1..], ignoreCase) by {
          forall m | 0 <= m < |p| - 1
            ensures KeyChar(x[0 + m], ignoreCase) == KeyChar(p[1..][m], ignoreCase)
          {
            assert x[m] == r[0 + (m + 1)];
          }
        }
        SuffixComesFromSource(s[1..], p, q, ignoreCase, 1);
      }
      assert false;
    }
  }
}
