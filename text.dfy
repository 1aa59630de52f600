/** String helpers that the synchroniser's text logic rests on: case folding,
    line joining, comma splitting, decimal rendering of lengths and stripping
    of line terminators. */
module Text {

  /** ASCII case folding of one character. */
  function FoldChar(c: char): char
  {
    if 'A' <= c <= 'Z' then (c as int - 'A' as int + 'a' as int) as char else c
  }

  /** Two characters that are equal once case is ignored: the same
      character, or an upper-case ASCII letter and its lower-case partner. */
  predicate SameIgnoringCase(a: char, b: char)
  {
    || a == b
    || ('A' <= a <= 'Z' && b as int == a as int + 32)
    || ('A' <= b <= 'Z' && a as int == b as int + 32)
  }

  /** Case folding of a whole line: same length, no upper-case letter left,
      and each character equal to the original one once case is ignored. */
  function Fold(s: string): (r: string)
    ensures |r| == |s|
    ensures forall i :: 0 <= i < |r| ==> !('A' <= r[i] <= 'Z')
    ensures forall i :: 0 <= i < |s| ==> SameIgnoringCase(s[i], r[i])
  {
    seq(|s|, i requires 0 <= i < |s| => FoldChar(s[i]))
  }

  lemma {:induction false} FoldIdempotent(s: string)
    ensures Fold(Fold(s)) == Fold(s)
  {
  }

  lemma FoldCharSame(a: char, b: char)
    ensures FoldChar(a) == FoldChar(b) <==> SameIgnoringCase(a, b)
  {
  }

  /** Two lines fold to the same text exactly when they have the same length
      and agree character by character once case is ignored. */
  lemma {:induction false} FoldEqualIff(a: string, b: string)
    ensures Fold(a) == Fold(b) <==> |a| == |b| && forall i :: 0 <= i < |a| ==> SameIgnoringCase(a[i], b[i])
  {
    if |a| == |b| {
      forall i | 0 <= i < |a|
        ensures Fold(a)[i] == Fold(b)[i] <==> SameIgnoringCase(a[i], b[i])
      {
        FoldCharSame(a[i], b[i]);
      }
      if forall i :: 0 <= i < |a| ==> SameIgnoringCase(a[i], b[i]) {
        assert Fold(a) == Fold(b);
      }
    }
  }

  /** `sep.join(lines)`: the lines with `sep` between each neighbouring pair. */
  function Join(lines: seq<string>, sep: string): string
    decreases |lines|
  {
    if |lines| == 0 then ""
    else if |lines| == 1 then lines[0]
    else lines[0] + sep + Join(lines[1..], sep)
  }

  /** `s.split(d)` for a one-character delimiter: never empty, and no part
      holds the delimiter. */
  function Split(s: string, d: char): (parts: seq<string>)
    ensures |parts| >= 1
    ensures forall k, j :: 0 <= k < |parts| && 0 <= j < |parts[k]| ==> parts[k][j] != d
    decreases |s|
  {
    if s == [] then [""]
    else if s[0] == d then [""] + Split(s[1..], d)
    else
      var rest := Split(s[1..], d);
      [[s[0]] + rest[0]] + rest[1..]
  }

  lemma {:induction false} JoinCons(a: string, rest: seq<string>, sep: string)
    requires rest != []
    ensures Join([a] + rest, sep) == a + sep + Join(rest, sep)
  {
    assert ([a] + rest)[1..] == rest;
  }

  /** Joining the parts of a split with the delimiter gives back the text. */
  lemma {:induction false} JoinSplit(s: string, d: char)
    ensures Join(Split(s, d), [d]) == s
    decreases |s|
  {
    if s != [] {
      JoinSplit(s[1..], d);
      var rest := Split(s[1..], d);
      var parts := Split(s, d);
      if s[0] == d {
        assert parts == [""] + rest;
        JoinCons("", rest, [d]);
        assert Join(parts, [d]) == [d] + s[1..];
      } else {
        assert parts == [[s[0]] + rest[0]] + rest[1..];
        JoinSplitHead(s[0], rest, d);
        assert Join(parts, [d]) == [s[0]] + Join(rest, [d]);
      }
      assert s == [s[0]] + s[1..];
    }
  }

  lemma {:induction false} JoinSplitHead(c: char, rest: seq<string>, d: char)
    requires rest != []
    ensures Join([[c] + rest[0]] + rest[1..], [d]) == [c] + Join(rest, [d])
  {
    var head, tail := rest[0], rest[1..];
    var lines := [[c] + head] + tail;
    if tail == [] {
      assert lines == [[c] + head];
    } else {
      var j := Join(tail, [d]);
      assert lines[1..] == tail;
      assert Join(lines, [d]) == ([c] + head) + [d] + j;
      assert Join(rest, [d]) == head + [d] + j;
      assert ([c] + head) + [d] + j == [c] + (head + [d] + j);
    }
  }

  predicate IsLineEnd(c: char)
  {
    c == '\r' || c == '\n'
  }

  /** `s.rstrip("\r\n")`: the longest prefix of `s` that does not end in a
      carriage return or line feed, all that is removed being such characters. */
  function StripLineEnd(s: string): (r: string)
    ensures |r| <= |s| && r == s[..|r|]
    ensures r == [] || !IsLineEnd(r[|r| - 1])
    ensures forall i :: |r| <= i < |s| ==> IsLineEnd(s[i])
    decreases |s|
  {
    if s != [] && IsLineEnd(s[|s| - 1]) then StripLineEnd(s[..|s| - 1]) else s
  }

  function Digit(d: nat): char
    requires d < 10
  {
    ('0' as int + d) as char
  }

  /** `str(n)` for a natural number: its decimal digits, most significant first. */
  function DecimalString(n: nat): (r: string)
    decreases n
  {
    if n < 10 then [Digit(n)] else DecimalString(n / 10) + [Digit(n % 10)]
  }

  predicate IsDigit(c: char)
  {
    '0' <= c <= '9'
  }

  /** Reads a string of decimal digits back as a number. */
  function ParseDecimal(s: string): int
    decreases |s|
  {
    if s == [] then 0 else ParseDecimal(s[..|s| - 1]) * 10 + (s[|s| - 1] as int - '0' as int)
  }

  /** The decimal rendering consists of digits, has no leading zero unless
      it is `0` itself, and reads back as the number. */
  lemma {:induction false} DecimalRoundTrip(n: nat)
    ensures |DecimalString(n)| >= 1
    ensures forall i :: 0 <= i < |DecimalString(n)| ==> IsDigit(DecimalString(n)[i])
    ensures DecimalString(n)[0] != '0' || n == 0
    ensures ParseDecimal(DecimalString(n)) == n
    decreases n
  {
    if n >= 10 {
      DecimalRoundTrip(n / 10);
      var s := DecimalString(n);
      assert s[..|s| - 1] == DecimalString(n / 10);
    }
  }

  /** Different numbers have different renderings. */
  lemma {:induction false} DecimalStringInjective(m: nat, n: nat)
    requires m != n
    ensures DecimalString(m) != DecimalString(n)
  {
    DecimalRoundTrip(m);
    DecimalRoundTrip(n);
  }
}
