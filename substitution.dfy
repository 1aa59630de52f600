/** Placeholder substitution: every `{key}` in the local lines is replaced by
    the server's value for `key`, one variable after the other, overwriting
    the lines in place. */
module Substitution {
  import opened Rewrite

  /** The placeholder for a variable: its name between braces. */
  function Token(key: string): (t: string)
    ensures |t| == |key| + 2 && t[0] == '{' && t[|t| - 1] == '}'
    ensures t[1..|t| - 1] == key
  {
    "{" + key + "}"
  }

  /** One line after all substitutions, applied in the order of `vars`. */
  function Substitute(line: string, vars: seq<(string, string)>): string
    decreases |vars|
  {
    if vars == [] then line
    else
      var (key, value) := vars[|vars| - 1];
      ReplaceAll(Substitute(line, vars[..|vars| - 1]), Token(key), value, false)
  }

  function SubstituteLines(lines: seq<string>, vars: seq<(string, string)>): seq<string>
  {
    seq(|lines|, i requires 0 <= i < |lines| => Substitute(lines[i], vars))
  }

  /** The substitution loop: for each variable in turn, every line of `text`
      is rewritten in place; the same list is handed back. */
  method ReplaceVars(text: array<string>, vars: seq<(string, string)>) returns (result: array<string>)
    modifies text
    ensures result == text
    ensures text[..] == SubstituteLines(old(text[..]), vars)
  {
    for j := 0 to |vars|
      invariant forall i :: 0 <= i < text.Length ==> text[i] == Substitute(old(text[i]), vars[..j])
    {
      var (key, value) := vars[j];
      var pattern := Token(key);
      assert vars[..j + 1][..j] == vars[..j];
      for i := 0 to text.Length
        invariant forall m :: 0 <= m < i ==> text[m] == Substitute(old(text[m]), vars[..j + 1])
        invariant forall m :: i <= m < text.Length ==> text[m] == Substitute(old(text[m]), vars[..j])
      {
        text[i] := ReplaceAll(text[i], pattern, value, false);
      }
    }
    assert vars[..|vars|] == vars;
    result := text;
  }

  predicate BraceFree(s: string)
  {
    forall i :: 0 <= i < |s| ==> s[i] != '{' && s[i] != '}'
  }

  /** Variable names and values hold no brace. */
  predicate PlainVars(vars: seq<(string, string)>)
  {
    forall j :: 0 <= j < |vars| ==> BraceFree(vars[j].0) && BraceFree(vars[j].1)
  }

  /** The first brace of `u`, if any, is a closing one. */
  predicate OpensProperly(u: string)
    decreases |u|
  {
    u == [] || u[0] == '}' || (u[0] != '{' && OpensProperly(u[1..]))
  }

  /** After every `{` the next brace is a `}`: no placeholder inside another. */
  predicate NoNestedBraces(s: string)
    decreases |s|
  {
    s == [] || ((s[0] == '{' ==> OpensProperly(s[1..])) && NoNestedBraces(s[1..]))
  }

  lemma {:induction false} NoNestedSuffix(s: string, n: nat)
    requires n <= |s| && NoNestedBraces(s)
    ensures NoNestedBraces(s[n..])
    decreases n
  {
    if n > 0 {
      NoNestedSuffix(s[1..], n - 1);
      assert s[1..][n - 1..] == s[n..];
    }
  }

  lemma {:induction false} NoNestedAfterPlain(v: string, x: string)
    requires BraceFree(v) && NoNestedBraces(x)
    ensures NoNestedBraces(v + x)
    decreases |v|
  {
    if v != [] {
      NoNestedAfterPlain(v[1..], x);
      var s := v + x;
      assert s[0] == v[0] && v[0] != '{';
      assert s[1..] == v[1..] + x;
      assert NoNestedBraces(s[1..]);
    } else {
      assert v + x == x;
    }
  }

  /** A rewrite step keeps a leading closing brace in front of any opening one. */
  lemma {:induction false} OpensProperlyPreserved(u: string, key: string, value: string)
    requires BraceFree(value) && OpensProperly(u)
    ensures OpensProperly(ReplaceAll(u, Token(key), value, false))
    decreases |u|
  {
    var p := Token(key);
    if |u| < |p| {
      ReplaceAllShort(u, p, value, false);
    } else if MatchesAt(u, 0, p, false) {
      assert false;
    } else {
      ReplaceAllSkip(u, p, value, false);
      var x := ReplaceAll(u[1..], p, value, false);
      if u[0] != '}' {
        OpensProperlyPreserved(u[1..], key, value);
      }
      assert ([u[0]] + x)[1..] == x;
    }
  }

  /** A rewrite step with a brace-free value creates no nesting. */
  lemma {:induction false} NoNestedPreserved(s: string, key: string, value: string)
    requires BraceFree(value) && NoNestedBraces(s)
    ensures NoNestedBraces(ReplaceAll(s, Token(key), value, false))
    decreases |s|
  {
    var p := Token(key);
    if |s| < |p| {
      ReplaceAllShort(s, p, value, false);
    } else if MatchesAt(s, 0, p, false) {
      ReplaceAllMatch(s, p, value, false);
      NoNestedSuffix(s, |p|);
      NoNestedPreserved(s[|p|..], key, value);
      NoNestedAfterPlain(value, ReplaceAll(s[|p|..], p, value, false));
    } else {
      ReplaceAllSkip(s, p, value, false);
      var x := ReplaceAll(s[1..], p, value, false);
      NoNestedPreserved(s[1..], key, value);
      if s[0] == '{' {
        OpensProperlyPreserved(s[1..], key, value);
      }
      assert ([s[0]] + x)[1..] == x;
    }
  }

  /** If the rewritten text starts with `t}` for a brace-free `t`, so did the
      text before the rewrite, provided its first brace closes. */
  lemma {:induction false} ClosingComesFromSource(u: string, key: string, value: string, t: string)
    requires BraceFree(value) && BraceFree(t) && OpensProperly(u)
    requires |t| + 1 <= |ReplaceAll(u, Token(key), value, false)|
    requires MatchesAt(ReplaceAll(u, Token(key), value, false), 0, t + "}", false)
    ensures |t| + 1 <= |u| && MatchesAt(u, 0, t + "}", false)
    decreases |u|
  {
    var p := Token(key);
    var r := ReplaceAll(u, p, value, false);
    if |u| < |p| {
      ReplaceAllShort(u, p, value, false);
    } else if MatchesAt(u, 0, p, false) {
      assert false;
    } else {
      ReplaceAllSkip(u, p, value, false);
      var x := ReplaceAll(u[1..], p, value, false);
      var w := t + "}";
      MatchesCons(u[0], x, w, false);
      if t != [] {
        assert w[1..] == t[1..] + "}";
        ClosingComesFromSource(u[1..], key, value, t[1..]);
      }
      assert u == [u[0]] + u[1..];
      MatchesCons(u[0], u[1..], w, false);
    }
  }

  /** A placeholder found at position `i` after one rewrite step was already in
      the text, and is not the one that step replaced. */
  lemma {:induction false} TokenFromSourceAt(s: string, key: string, value: string, t: string, i: nat)
    requires BraceFree(value) && BraceFree(t) && NoNestedBraces(s)
    requires i + |Token(t)| <= |ReplaceAll(s, Token(key), value, false)|
    requires MatchesAt(ReplaceAll(s, Token(key), value, false), i, Token(t), false)
    ensures Occurs(s, Token(t), false) && t != key
    decreases |s|, 1
  {
    var p := Token(key);
    if |s| < |p| {
      ReplaceAllShort(s, p, value, false);
    } else if MatchesAt(s, 0, p, false) {
      TokenAfterMatch(s, key, value, t, i);
    } else if i == 0 {
      TokenAtStart(s, key, value, t);
    } else {
      TokenAfterSkip(s, key, value, t, i);
    }
  }

  /** The text starts with the replaced placeholder: the one found lies in the
      rewritten rest, since the value holds no brace. */
  lemma {:induction false} TokenAfterMatch(s: string, key: string, value: string, t: string, i: nat)
    requires BraceFree(value) && BraceFree(t) && NoNestedBraces(s)
    requires |Token(key)| <= |s| && MatchesAt(s, 0, Token(key), false)
    requires i + |Token(t)| <= |ReplaceAll(s, Token(key), value, false)|
    requires MatchesAt(ReplaceAll(s, Token(key), value, false), i, Token(t), false)
    ensures Occurs(s, Token(t), false) && t != key
    decreases |s|, 0
  {
    var p := Token(key);
    var tok := Token(t);
    var r := ReplaceAll(s, p, value, false);
    ReplaceAllMatch(s, p, value, false);
    var x := ReplaceAll(s[|p|..], p, value, false);
    if i < |value| {
      assert false;
    } else {
      MatchesAtShift(r, |value|, i - |value|, tok, false);
      assert r[|value|..] == x;
      NoNestedSuffix(s, |p|);
      TokenFromSourceAt(s[|p|..], key, value, t, i - |value|);
      OccursInSuffix(s, |p|, tok);
    }
  }

  /** The text does not start with the replaced placeholder, and the one found
      starts the rewritten text: it starts the original text too. */
  lemma {:induction false} TokenAtStart(s: string, key: string, value: string, t: string)
    requires BraceFree(value) && BraceFree(t) && NoNestedBraces(s)
    requires |Token(key)| <= |s| && !MatchesAt(s, 0, Token(key), false)
    requires |Token(t)| <= |ReplaceAll(s, Token(key), value, false)|
    requires MatchesAt(ReplaceAll(s, Token(key), value, false), 0, Token(t), false)
    ensures Occurs(s, Token(t), false) && t != key
  {
    var p := Token(key);
    var tok := Token(t);
    ReplaceAllSkip(s, p, value, false);
    var x := ReplaceAll(s[1..], p, value, false);
    assert tok[1..] == t + "}";
    MatchesCons(s[0], x, tok, false);
    ClosingComesFromSource(s[1..], key, value, t);
    assert s == [s[0]] + s[1..];
    MatchesCons(s[0], s[1..], tok, false);
    assert MatchesAt(s, 0, tok, false);
  }

  /** The text does not start with the replaced placeholder, and the one found
      lies further on: it lies in the rewritten rest. */
  lemma {:induction false} TokenAfterSkip(s: string, key: string, value: string, t: string, i: nat)
    requires BraceFree(value) && BraceFree(t) && NoNestedBraces(s)
    requires |Token(key)| <= |s| && !MatchesAt(s, 0, Token(key), false) && 0 < i
    requires i + |Token(t)| <= |ReplaceAll(s, Token(key), value, false)|
    requires MatchesAt(ReplaceAll(s, Token(key), value, false), i, Token(t), false)
    ensures Occurs(s, Token(t), false) && t != key
    decreases |s|, 0
  {
    var p := Token(key);
    var tok := Token(t);
    var r := ReplaceAll(s, p, value, false);
    ReplaceAllSkip(s, p, value, false);
    var x := ReplaceAll(s[1..], p, value, false);
    MatchesAtShift(r, 1, i - 1, tok, false);
    assert r[1..] == x;
    NoNestedSuffix(s, 1);
    TokenFromSourceAt(s[1..], key, value, t, i - 1);
    OccursInSuffix(s, 1, tok);
  }

  lemma {:induction false} OccursInSuffix(s: string, n: nat, tok: string)
    requires n <= |s| && Occurs(s[n..], tok, false)
    ensures Occurs(s, tok, false)
  {
    var j: nat :| j + |tok| <= |s[n..]| && MatchesAt(s[n..], j, tok, false);
    MatchesAtShift(s, n, j, tok, false);
  }

  lemma {:induction false} TokenFromSource(s: string, key: string, value: string, t: string)
    requires BraceFree(value) && BraceFree(t) && NoNestedBraces(s)
    requires Occurs(ReplaceAll(s, Token(key), value, false), Token(t), false)
    ensures Occurs(s, Token(t), false) && t != key
  {
    var r := ReplaceAll(s, Token(key), value, false);
    var i: nat :| i + |Token(t)| <= |r| && MatchesAt(r, i, Token(t), false);
    TokenFromSourceAt(s, key, value, t, i);
  }

  /** On a line without nested braces, and with brace-free names and values,
      substitution leaves no placeholder of any variable and creates no nesting. */
  lemma {:induction false} SubstituteClearsTokens(line: string, vars: seq<(string, string)>)
    requires PlainVars(vars) && NoNestedBraces(line)
    ensures NoNestedBraces(Substitute(line, vars))
    ensures forall j :: 0 <= j < |vars| ==> !Occurs(Substitute(line, vars), Token(vars[j].0), false)
    decreases |vars|
  {
    if vars != [] {
      var n := |vars|;
      var init := vars[..n - 1];
      var (key, value) := vars[n - 1];
      assert PlainVars(init) by {
        forall j | 0 <= j < |init| ensures BraceFree(init[j].0) && BraceFree(init[j].1) {
          assert init[j] == vars[j];
        }
      }
      SubstituteClearsTokens(line, init);
      var prev := Substitute(line, init);
      assert Substitute(line, vars) == ReplaceAll(prev, Token(key), value, false);
      NoNestedPreserved(prev, key, value);
      assert forall j :: 0 <= j < n - 1 ==> init[j] == vars[j];
      StepClearsTokens(prev, vars);
    }
  }

  /** The last substitution step keeps every placeholder away: those of the
      earlier variables were already gone, and its own is replaced. */
  lemma {:induction false} StepClearsTokens(prev: string, vars: seq<(string, string)>)
    requires vars != [] && PlainVars(vars) && NoNestedBraces(prev)
    requires forall j :: 0 <= j < |vars| - 1 ==> !Occurs(prev, Token(vars[j].0), false)
    ensures forall j :: 0 <= j < |vars| ==>
      !Occurs(ReplaceAll(prev, Token(vars[|vars| - 1].0), vars[|vars| - 1].1, false), Token(vars[j].0), false)
  {
    var (key, value) := vars[|vars| - 1];
    var r := ReplaceAll(prev, Token(key), value, false);
    forall j | 0 <= j < |vars|
      ensures !Occurs(r, Token(vars[j].0), false)
    {
      var t := vars[j].0;
      if Occurs(r, Token(t), false) {
        TokenFromSource(prev, key, value, t);
        assert false;
      }
    }
  }

  /** A line that holds no placeholder of any variable is left unchanged. */
  lemma {:induction false} SubstituteWithoutTokens(s: string, vars: seq<(string, string)>)
    requires forall j :: 0 <= j < |vars| ==> !Occurs(s, Token(vars[j].0), false)
    ensures Substitute(s, vars) == s
    decreases |vars|
  {
    if vars != [] {
      var n := |vars|;
      var init := vars[..n - 1];
      forall j | 0 <= j < |init|
        ensures !Occurs(s, Token(init[j].0), false)
      {
        assert init[j] == vars[j];
      }
      SubstituteWithoutTokens(s, init);
      ReplaceAllNoOccurrence(s, Token(vars[n - 1].0), vars[n - 1].1, false);
    }
  }

  /** Under the same conditions, `ReplaceVars` leaves no placeholder in any
      line, and running it again changes nothing. */
  lemma {:induction false} ReplaceVarsClearsTokens(lines: seq<string>, vars: seq<(string, string)>)
    requires PlainVars(vars)
    requires forall i :: 0 <= i < |lines| ==> NoNestedBraces(lines[i])
    ensures forall i, j :: 0 <= i < |lines| && 0 <= j < |vars| ==>
      !Occurs(SubstituteLines(lines, vars)[i], Token(vars[j].0), false)
    ensures SubstituteLines(SubstituteLines(lines, vars), vars) == SubstituteLines(lines, vars)
  {
    var once := SubstituteLines(lines, vars);
    forall i | 0 <= i < |lines|
      ensures forall j :: 0 <= j < |vars| ==> !Occurs(once[i], Token(vars[j].0), false)
      ensures Substitute(once[i], vars) == once[i]
    {
      SubstituteClearsTokens(lines[i], vars);
      SubstituteWithoutTokens(once[i], vars);
    }
  }

  /** Brace-free values alone do not suffice: with `{"a": "a"}` the line
      `{{a}}` becomes `{a}`, which still holds the placeholder, and a second
      run changes it again. */
  lemma NestedBracesDefeatSubstitution()
    ensures var vars := [("a", "a")];
      && PlainVars(vars)
      && !NoNestedBraces("{{a}}")
      && Substitute("{{a}}", vars) == "{a}"
      && Occurs(Substitute("{{a}}", vars), Token("a"), false)
      && Substitute(Substitute("{{a}}", vars), vars) == "a"
  {
    var vars := [("a", "a")];
    var p := Token("a");
    assert p == "{a}";
    assert !MatchesAt("{{a}}", 0, p, false) by {
      assert "{{a}}"[0 + 1] != p[1];
    }
    ReplaceAllSkip("{{a}}", p, "a", false);
    assert "{{a}}"[1..] == "{a}}";
    assert MatchesAt("{a}}", 0, p, false);
    ReplaceAllMatch("{a}}", p, "a", false);
    assert "{a}}"[3..] == "}";
    ReplaceAllShort("}", p, "a", false);
    assert vars[..0] == [];
    assert Substitute("{{a}}", vars) == "{a}";
    assert MatchesAt("{a}", 0, p, false);
    ReplaceAllMatch("{a}", p, "a", false);
    assert "{a}"[3..] == "";
    ReplaceAllShort("", p, "a", false);
    assert !OpensProperly("{a}}");
  }
}
