/** The line comparator: the local lines of a procedure against the lines the
    server holds, compared after case folding, with the number of recorded
    content mismatches capped. */
module Compare {
  import opened Text

  /** One entry of the comparison result: `{"line": …, "left": …, "right": …}`. */
  datatype Mismatch = Mismatch(line: nat, left: string, right: string)

  /** Number of positions at which both sequences have a line. */
  function Common(left: seq<string>, right: seq<string>): nat
  {
    if |left| < |right| then |left| else |right|
  }

  predicate Differs(left: seq<string>, right: seq<string>, i: nat)
    requires i < |left| && i < |right|
  {
    Fold(left[i]) != Fold(right[i])
  }

  /** The positions below `n` whose lines differ once case is folded. */
  function DiffIndices(left: seq<string>, right: seq<string>, n: nat): (ix: seq<nat>)
    requires n <= |left| && n <= |right|
    ensures forall k :: 0 <= k < |ix| ==> ix[k] < n && Differs(left, right, ix[k])
    ensures forall k, j :: 0 <= k < j < |ix| ==> ix[k] < ix[j]
    decreases n
  {
    if n == 0 then []
    else DiffIndices(left, right, n - 1) + (if Differs(left, right, n - 1) then [n - 1] else [])
  }

  /** The record the comparator makes for a differing position. */
  function Record(left: seq<string>, right: seq<string>, i: nat): Mismatch
    requires i < |left| && i < |right|
  {
    Mismatch(i, Fold(left[i]), Fold(right[i]))
  }

  function Records(left: seq<string>, right: seq<string>, ix: seq<nat>): seq<Mismatch>
    requires forall k :: 0 <= k < |ix| ==> ix[k] < |left| && ix[k] < |right|
  {
    seq(|ix|, k requires 0 <= k < |ix| => Record(left, right, ix[k]))
  }

  /** How many content records the comparator keeps: at most `maxErrors`. */
  function Kept(found: nat, maxErrors: int): nat
  {
    if maxErrors <= 0 then 0 else if maxErrors < found then maxErrors else found
  }

  /** The content records: the first `maxErrors` differing positions of the
      common part, in order. */
  function ContentRecords(left: seq<string>, right: seq<string>, maxErrors: int): seq<Mismatch>
  {
    var ix := DiffIndices(left, right, Common(left, right));
    Records(left, right, ix[..Kept(|ix|, maxErrors)])
  }

  /** The synthetic record for sequences of different lengths. */
  function LengthRecord(left: seq<string>, right: seq<string>): Mismatch
  {
    Mismatch(0, DecimalString(|left|), DecimalString(|right|))
  }

  /** The whole comparison result. */
  function Report(left: seq<string>, right: seq<string>, maxErrors: int): seq<Mismatch>
  {
    ContentRecords(left, right, maxErrors)
      + (if |left| != |right| then [LengthRecord(left, right)] else [])
  }

  /** The two definitions agree: same number of lines, and each pair of lines
      equal once case is folded. */
  predicate Equivalent(left: seq<string>, right: seq<string>)
  {
    |left| == |right| && forall i :: 0 <= i < |left| ==> Fold(left[i]) == Fold(right[i])
  }

  /** The comparison loop: walks both sequences in lockstep, stops at the end
      of either or once `maxErrors` mismatches are recorded, and appends the
      length record when the lengths differ. */
  method CompareFileToDatabase(left: seq<string>, right: seq<string>, maxErrors: int)
    returns (errors: seq<Mismatch>)
    ensures errors == Report(left, right, maxErrors)
    ensures maxErrors >= 1 ==> (errors == [] <==> Equivalent(left, right))
  {
    var line := 0;
    errors := [];
    while line < |left| && line < |right| && |errors| < maxErrors
      invariant line <= Common(left, right)
      invariant errors == Records(left, right, DiffIndices(left, right, line))
      invariant |errors| <= (if maxErrors < 0 then 0 else maxErrors)
    {
      var l := Fold(left[line]);
      var r := Fold(right[line]);
      RecordsStep(left, right, line);
      if l != r {
        errors := errors + [Mismatch(line, l, r)];
      }
      line := line + 1;
    }
    StoppedWalk(left, right, maxErrors, line);
    assert errors == ContentRecords(left, right, maxErrors);
    if |left| != |right| {
      errors := errors + [Mismatch(0, DecimalString(|left|), DecimalString(|right|))];
      assert errors == ContentRecords(left, right, maxErrors) + [LengthRecord(left, right)];
    }
    if maxErrors >= 1 {
      ReportEmptyIffEquivalent(left, right, maxErrors);
    }
  }

  /** One more position walked adds its record when its lines differ. */
  lemma {:induction false} RecordsStep(left: seq<string>, right: seq<string>, line: nat)
    requires line < |left| && line < |right|
    ensures Records(left, right, DiffIndices(left, right, line + 1))
         == Records(left, right, DiffIndices(left, right, line))
            + (if Differs(left, right, line) then [Mismatch(line, Fold(left[line]), Fold(right[line]))] else [])
  {
    var a := DiffIndices(left, right, line);
    if Differs(left, right, line) {
      assert DiffIndices(left, right, line + 1) == a + [line];
    } else {
      assert DiffIndices(left, right, line + 1) == a + [];
      assert a + [] == a;
    }
  }

  /** Where the walk stops, the records made so far are the content records. */
  lemma {:induction false} StoppedWalk(left: seq<string>, right: seq<string>, maxErrors: int, line: nat)
    requires line <= Common(left, right)
    requires line == Common(left, right) || |DiffIndices(left, right, line)| >= maxErrors
    requires |DiffIndices(left, right, line)| <= (if maxErrors < 0 then 0 else maxErrors)
    ensures Records(left, right, DiffIndices(left, right, line)) == ContentRecords(left, right, maxErrors)
  {
    var all := DiffIndices(left, right, Common(left, right));
    DiffIndicesPrefix(left, right, line, Common(left, right));
    assert all[..Kept(|all|, maxErrors)] == DiffIndices(left, right, line);
  }

  /** The differing positions below `m` are the first ones below `n`. */
  lemma {:induction false} DiffIndicesPrefix(left: seq<string>, right: seq<string>, m: nat, n: nat)
    requires m <= n <= |left| && n <= |right|
    ensures |DiffIndices(left, right, m)| <= |DiffIndices(left, right, n)|
    ensures DiffIndices(left, right, m) == DiffIndices(left, right, n)[..|DiffIndices(left, right, m)|]
    decreases n - m
  {
    if m < n {
      DiffIndicesPrefix(left, right, m, n - 1);
      var a := DiffIndices(left, right, m);
      var b := DiffIndices(left, right, n - 1);
      assert DiffIndices(left, right, n)[..|b|] == b;
      assert b[..|a|] == a;
    }
  }

  /** A differing position `i` is the `k`-th differing position, where `k`
      counts the differing positions before it. */
  lemma {:induction false} DiffIndicesAt(left: seq<string>, right: seq<string>, n: nat, i: nat)
    requires i < n <= |left| && n <= |right| && Differs(left, right, i)
    ensures |DiffIndices(left, right, i)| < |DiffIndices(left, right, n)|
    ensures DiffIndices(left, right, n)[|DiffIndices(left, right, i)|] == i
  {
    DiffIndicesPrefix(left, right, i + 1, n);
    assert DiffIndices(left, right, i + 1) == DiffIndices(left, right, i) + [i];
  }

  /** No position below `n` differs exactly when there is no differing index. */
  lemma {:induction false} DiffIndicesEmpty(left: seq<string>, right: seq<string>, n: nat)
    requires n <= |left| && n <= |right|
    ensures DiffIndices(left, right, n) == [] <==> forall i :: 0 <= i < n ==> !Differs(left, right, i)
    decreases n
  {
    if n > 0 {
      DiffIndicesEmpty(left, right, n - 1);
    }
  }

  /** The content records are ordered, lie in the common part, hold the folded
      lines of a differing position, and are exactly the differing positions
      preceded by fewer than `maxErrors` other differing positions. */
  lemma {:induction false} ContentRecordsAreFirstMismatches(left: seq<string>, right: seq<string>, maxErrors: int)
    ensures var cs := ContentRecords(left, right, maxErrors);
      && (forall k :: 0 <= k < |cs| ==>
            && cs[k].line < Common(left, right)
            && Differs(left, right, cs[k].line)
            && cs[k].left == Fold(left[cs[k].line])
            && cs[k].right == Fold(right[cs[k].line]))
      && (forall k, j :: 0 <= k < j < |cs| ==> cs[k].line < cs[j].line)
      && (forall i :: 0 <= i < Common(left, right) && Differs(left, right, i) ==>
            ((exists k :: 0 <= k < |cs| && cs[k].line == i)
             <==> |DiffIndices(left, right, i)| < maxErrors))
  {
    var cs := ContentRecords(left, right, maxErrors);
    var c := Common(left, right);
    var ix := DiffIndices(left, right, c);
    var n := Kept(|ix|, maxErrors);
    assert forall k :: 0 <= k < |cs| ==> cs[k].line == ix[k];
    forall i | 0 <= i < c && Differs(left, right, i)
      ensures (exists k :: 0 <= k < |cs| && cs[k].line == i) <==> |DiffIndices(left, right, i)| < maxErrors
    {
      RecordedIff(left, right, maxErrors, i);
    }
  }

  lemma {:induction false} RecordedIff(left: seq<string>, right: seq<string>, maxErrors: int, i: nat)
    requires i < Common(left, right) && Differs(left, right, i)
    ensures var cs := ContentRecords(left, right, maxErrors);
      (exists k :: 0 <= k < |cs| && cs[k].line == i) <==> |DiffIndices(left, right, i)| < maxErrors
  {
    var cs := ContentRecords(left, right, maxErrors);
    var c := Common(left, right);
    var ix := DiffIndices(left, right, c);
    var n := Kept(|ix|, maxErrors);
    assert |cs| == n;
    DiffIndicesAt(left, right, c, i);
    var at := |DiffIndices(left, right, i)|;
    if exists k :: 0 <= k < |cs| && cs[k].line == i {
      var k :| 0 <= k < |cs| && cs[k].line == i;
      assert cs[k].line == ix[k];
      assert ix[k] == i == ix[at];
      assert k == at;
    }
    if at < maxErrors {
      assert at < n;
      assert cs[at].line == i;
    }
  }

  /** At most `maxErrors` content records, and the length record makes the
      only possible extra entry: it is the last one, and it holds the two
      lengths in decimal, which therefore differ as text. */
  lemma {:induction false} ReportShape(left: seq<string>, right: seq<string>, maxErrors: int)
    ensures var cs := ContentRecords(left, right, maxErrors);
      && |cs| <= (if maxErrors < 0 then 0 else maxErrors)
      && (|left| == |right| ==> Report(left, right, maxErrors) == cs)
    ensures |left| != |right| ==>
      var rs := Report(left, right, maxErrors);
      && |rs| >= 1
      && rs[..|rs| - 1] == ContentRecords(left, right, maxErrors)
      && rs[|rs| - 1] == LengthRecord(left, right)
      && rs[|rs| - 1].line == 0
      && ParseDecimal(rs[|rs| - 1].left) == |left|
      && ParseDecimal(rs[|rs| - 1].right) == |right|
      && rs[|rs| - 1].left != rs[|rs| - 1].right
  {
    if |left| != |right| {
      DecimalRoundTrip(|left|);
      DecimalRoundTrip(|right|);
      DecimalStringInjective(|left|, |right|);
      var rs := Report(left, right, maxErrors);
      assert rs[..|rs| - 1] == ContentRecords(left, right, maxErrors);
    }
  }

  /** With a cap of at least one, the result is empty exactly when the
      definitions are equivalent; a length difference alone is a mismatch. */
  lemma {:induction false} ReportEmptyIffEquivalent(left: seq<string>, right: seq<string>, maxErrors: int)
    requires maxErrors >= 1
    ensures Report(left, right, maxErrors) == [] <==> Equivalent(left, right)
  {
    var c := Common(left, right);
    DiffIndicesEmpty(left, right, c);
    var ix := DiffIndices(left, right, c);
    if ix != [] {
      assert |ContentRecords(left, right, maxErrors)| >= 1;
      assert Differs(left, right, ix[0]);
    } else {
      assert ContentRecords(left, right, maxErrors) == [];
      if |left| == |right| {
        assert c == |left|;
        forall i | 0 <= i < |left|
          ensures Fold(left[i]) == Fold(right[i])
        {
          assert !Differs(left, right, i);
        }
      }
    }
  }

  /** With a cap of zero or less no line is compared, so only the lengths count. */
  lemma {:induction false} ReportWithoutCap(left: seq<string>, right: seq<string>, maxErrors: int)
    requires maxErrors <= 0
    ensures Report(left, right, maxErrors) == [] <==> |left| == |right|
  {
  }

  /** The result depends on the lines only through their case-folded forms. */
  lemma {:induction false} ReportIgnoresCase(left: seq<string>, right: seq<string>,
                                             left': seq<string>, right': seq<string>, maxErrors: int)
    requires |left| == |left'| && |right| == |right'|
    requires forall i :: 0 <= i < |left| ==> Fold(left[i]) == Fold(left'[i])
    requires forall i :: 0 <= i < |right| ==> Fold(right[i]) == Fold(right'[i])
    ensures Report(left, right, maxErrors) == Report(left', right', maxErrors)
  {
    var c := Common(left, right);
    DiffIndicesFolded(left, right, left', right', c);
  }

  lemma {:induction false} DiffIndicesFolded(left: seq<string>, right: seq<string>,
                                             left': seq<string>, right': seq<string>, n: nat)
    requires |left| == |left'| && |right| == |right'| && n <= |left| && n <= |right|
    requires forall i :: 0 <= i < |left| ==> Fold(left[i]) == Fold(left'[i])
    requires forall i :: 0 <= i < |right| ==> Fold(right[i]) == Fold(right'[i])
    ensures DiffIndices(left, right, n) == DiffIndices(left', right', n)
    decreases n
  {
    if n > 0 {
      DiffIndicesFolded(left, right, left', right', n - 1);
    }
  }
}
