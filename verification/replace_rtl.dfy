/** The replacement as its docstring describes it: every selected occurrence
    rewritten, whatever the length of the replacement. The results are
    applied from the last to the first, so that rewriting one occurrence
    never moves the start of an occurrence still to be rewritten. */
module ReplaceRightToLeft {
  import opened Strings
  import opened Lines
  import opened Search
  import opened Positions
  import opened Replace

  /** The steps of one line, taken from the last start to the first. */
  function LineApplyRev(line: string, ss: seq<int>, term: string, repl: string, caseSensitive: bool): string
    decreases |ss|
  {
    if ss == [] then line
    else LineApplyRev(LineStep(line, ss[|ss| - 1], term, repl, caseSensitive), ss[..|ss| - 1], term, repl, caseSensitive)
  }

  /** The loop over the results, from the last to the first. */
  function ApplyAllRev(lines: seq<string>, ks: seq<Pos>, term: string, repl: string, caseSensitive: bool): (r: seq<string>)
    ensures |r| == |lines|
    decreases |ks|
  {
    if ks == [] then lines
    else ApplyAllRev(ApplyOne(lines, ks[|ks| - 1], term, repl, caseSensitive), ks[..|ks| - 1], term, repl, caseSensitive)
  }

  function ReplaceLinesRightToLeft(lines: seq<string>, rs: seq<SearchResult>, term: string, repl: string,
                                   caseSensitive: bool): (r: seq<string>)
    ensures |r| == |lines|
  {
    ApplyAllRev(lines, SortPos(Keys(rs)), term, repl, caseSensitive)
  }

  /** The corrected `_replace_in_text`. */
  function ReplaceInTextRightToLeft(text: string, rs: seq<SearchResult>, term: string, repl: string,
                                    caseSensitive: bool): string
  {
    Join(ReplaceLinesRightToLeft(Split(text), rs, term, repl, caseSensitive))
  }

  /** Taking one more, later start first. */
  lemma LineApplyRevSnoc(line: string, before: seq<int>, s: int, term: string, repl: string, caseSensitive: bool)
    ensures LineApplyRev(line, before + [s], term, repl, caseSensitive)
            == LineApplyRev(LineStep(line, s, term, repl, caseSensitive), before, term, repl, caseSensitive)
  {
    var all := before + [s];
    assert all[|all| - 1] == s && all[..|all| - 1] == before;
  }

  /** Each line ends up as its own steps applied last to first. */
  lemma {:induction false} ApplyAllRevAt(lines: seq<string>, ks: seq<Pos>, term: string, repl: string,
                                         caseSensitive: bool, i: int)
    requires 0 <= i < |lines|
    ensures ApplyAllRev(lines, ks, term, repl, caseSensitive)[i]
            == LineApplyRev(lines[i], StartsOn(ks, i + 1), term, repl, caseSensitive)
    decreases |ks|
  {
    if ks != [] {
      var last, init := ks[|ks| - 1], ks[..|ks| - 1];
      var next := ApplyOne(lines, last, term, repl, caseSensitive);
      assert ApplyAllRev(lines, ks, term, repl, caseSensitive) == ApplyAllRev(next, init, term, repl, caseSensitive);
      ApplyAllRevAt(next, init, term, repl, caseSensitive, i);
      StartsOnSnoc(ks, i + 1);
      ApplyOneAt(lines, last, term, repl, caseSensitive, i);
      if last.line == i + 1 {
        LineApplyRevSnoc(lines[i], StartsOn(init, i + 1), last.start, term, repl, caseSensitive);
      } else {
        assert StartsOn(init, i + 1) + [] == StartsOn(init, i + 1);
      }
    }
  }

  /** Line `i` of the output is the line's own steps in descending order of
      match start, whatever order the results came in. */
  lemma ReplaceLinesRightToLeftPerLine(lines: seq<string>, rs: seq<SearchResult>, term: string, repl: string,
                                       caseSensitive: bool, i: int, ss: seq<int>)
    requires 0 <= i < |lines|
    requires Ascending(ss) && multiset(ss) == multiset(StartsOn(Keys(rs), i + 1))
    ensures ReplaceLinesRightToLeft(lines, rs, term, repl, caseSensitive)[i]
            == LineApplyRev(lines[i], ss, term, repl, caseSensitive)
  {
    ApplyAllRevAt(lines, SortPos(Keys(rs)), term, repl, caseSensitive, i);
    SortedStartsOn(Keys(rs), i + 1, ss);
  }

  /** The stretches before the last one of a plan are a plan of the line
      with the last stretch rewritten. */
  lemma SnocPlan(line: string, pre: seq<int>, s: int, n: nat, repl: string, from: int)
    requires SplicePlan(line, pre + [s], n, from)
    ensures from <= s && s + n <= |line|
    ensures forall k :: 0 <= k < |pre| ==> pre[k] + n <= s
    ensures SplicePlan(Splice(line, s, n, repl), pre, n, from)
  {
    var ss := pre + [s];
    assert ss[|ss| - 1] == s;
    var line1 := Splice(line, s, n, repl);
    forall k | 0 <= k < |pre| ensures from <= pre[k] && pre[k] + n <= s {
      assert ss[k] == pre[k];
    }
    forall j, k | 0 <= j < k < |pre| ensures pre[j] + n <= pre[k] {
      assert ss[j] == pre[j] && ss[k] == pre[k];
    }
  }

  /** Rewriting the last planned stretch first leaves the earlier ones where
      they were. */
  lemma {:induction false} SplicedSnoc(line: string, pre: seq<int>, s: int, n: nat, repl: string, from: int)
    requires SplicePlan(line, pre + [s], n, from)
    ensures 0 <= s && s + n <= |line|
    ensures SplicePlan(Splice(line, s, n, repl), pre, n, from)
    ensures Spliced(Splice(line, s, n, repl), pre, n, repl, from) == Spliced(line, pre + [s], n, repl, from)
    decreases |pre|
  {
    SnocPlan(line, pre, s, n, repl, from);
    if pre == [] {
      assert pre + [s] == [s];
      SplicedLast(line, s, n, repl, from);
    } else {
      var ss := pre + [s];
      assert ss[1..] == pre[1..] + [s];
      PlanTail(line, ss, n, from);
      SplicedSnoc(line, pre[1..], s, n, repl, pre[0] + n);
      SplicedSnocStep(line, pre, s, n, repl, from);
    }
  }

  /** One step of `SplicedSnoc`: the first planned stretch is copied alike on
      both sides, and the rest is the shorter plan. */
  lemma SplicedSnocStep(line: string, pre: seq<int>, s: int, n: nat, repl: string, from: int)
    requires pre != [] && SplicePlan(line, pre + [s], n, from)
    requires 0 <= s && s + n <= |line|
    requires SplicePlan(Splice(line, s, n, repl), pre, n, from)
    requires SplicePlan(line, pre[1..] + [s], n, pre[0] + n)
    requires SplicePlan(Splice(line, s, n, repl), pre[1..], n, pre[0] + n)
    requires Spliced(Splice(line, s, n, repl), pre[1..], n, repl, pre[0] + n)
          == Spliced(line, pre[1..] + [s], n, repl, pre[0] + n)
    ensures Spliced(Splice(line, s, n, repl), pre, n, repl, from) == Spliced(line, pre + [s], n, repl, from)
  {
    var ss := pre + [s];
    assert ss[0] == pre[0] && ss[1..] == pre[1..] + [s];
    var line1 := Splice(line, s, n, repl);
    SnocHead(line, pre, s, n, repl, from);
    SplicedStep(line, ss, n, repl, from);
    SplicedStep(line1, pre, n, repl, from);
  }

  lemma SnocHead(line: string, pre: seq<int>, s: int, n: nat, repl: string, from: int)
    requires pre != [] && SplicePlan(line, pre + [s], n, from)
    ensures from <= pre[0] <= s && s + n <= |line|
    ensures Splice(line, s, n, repl)[from..pre[0]] == line[from..pre[0]]
  {
    var ss := pre + [s];
    assert ss[0] == pre[0] && ss[|ss| - 1] == s;
    var line1 := Splice(line, s, n, repl);
    assert line1 == line[..s] + (repl + line[s + n..]);
  }

  /** An occurrence before a rewritten stretch stays where it was. */
  lemma OccurBeforeSplice(line: string, s: int, term: string, repl: string, caseSensitive: bool, q: int)
    requires 0 <= q && q + |term| <= s && s + |term| <= |line|
    requires OccursAt(Normalize(line, caseSensitive), Normalize(term, caseSensitive), q)
    ensures OccursAt(Normalize(Splice(line, s, |term|, repl), caseSensitive), Normalize(term, caseSensitive), q)
  {
    var n := |term|;
    OccursNormalized(line, term, caseSensitive, q);
    SpliceKeepsBefore(line, s, n, repl, q, q + n);
    OccursNormalized(Splice(line, s, n, repl), term, caseSensitive, q);
  }

  /** Rewriting the last planned stretch keeps the earlier ones present. */
  lemma AllOccurBeforeSplice(line: string, pre: seq<int>, s: int, term: string, repl: string,
                             caseSensitive: bool)
    requires SplicePlan(line, pre + [s], |term|, 0) && AllOccur(line, pre + [s], term, caseSensitive)
    ensures OccursAt(Normalize(line, caseSensitive), Normalize(term, caseSensitive), s)
    ensures AllOccur(Splice(line, s, |term|, repl), pre, term, caseSensitive)
  {
    var ss := pre + [s];
    assert ss[|ss| - 1] == s;
    forall k | 0 <= k < |pre|
      ensures OccursAt(Normalize(Splice(line, s, |term|, repl), caseSensitive), Normalize(term, caseSensitive), pre[k])
    {
      assert ss[k] == pre[k];
      OccurBeforeSplice(line, s, term, repl, caseSensitive, pre[k]);
    }
  }

  /** Taken last to first, the steps of a line rewrite every selected
      occurrence, whatever the length of the replacement. */
  lemma {:induction false} LineApplyRevAllApplied(line: string, ss: seq<int>, term: string, repl: string,
                                                  caseSensitive: bool)
    requires SplicePlan(line, ss, |term|, 0) && AllOccur(line, ss, term, caseSensitive)
    ensures LineApplyRev(line, ss, term, repl, caseSensitive) == Spliced(line, ss, |term|, repl, 0)
    decreases |ss|
  {
    if ss == [] {
    } else {
      var pre, s := ss[..|ss| - 1], ss[|ss| - 1];
      assert ss == pre + [s];
      AllOccurBeforeSplice(line, pre, s, term, repl, caseSensitive);
      SplicedSnoc(line, pre, s, |term|, repl, 0);
      var line1 := Splice(line, s, |term|, repl);
      assert LineApplyRev(line, ss, term, repl, caseSensitive) == LineApplyRev(line1, pre, term, repl, caseSensitive);
      LineApplyRevAllApplied(line1, pre, term, repl, caseSensitive);
    }
  }

  /** The corrected replacement rewrites every selected, still present,
      non-overlapping occurrence on a line, for a replacement of any length. */
  lemma RightToLeftAllApplied(lines: seq<string>, rs: seq<SearchResult>, term: string, repl: string,
                              caseSensitive: bool, i: int, ss: seq<int>)
    requires 0 <= i < |lines|
    requires multiset(ss) == multiset(StartsOn(Keys(rs), i + 1))
    requires SplicePlan(lines[i], ss, |term|, 0) && AllOccur(lines[i], ss, term, caseSensitive)
    ensures ReplaceLinesRightToLeft(lines, rs, term, repl, caseSensitive)[i] == Spliced(lines[i], ss, |term|, repl, 0)
  {
    ReplaceLinesRightToLeftPerLine(lines, rs, term, repl, caseSensitive, i, ss);
    LineApplyRevAllApplied(lines[i], ss, term, repl, caseSensitive);
  }

  /** When the replacement is as long as the term the correction changes
      nothing: both orders rewrite the same occurrences. */
  lemma SameLengthAgrees(lines: seq<string>, rs: seq<SearchResult>, term: string, repl: string,
                         caseSensitive: bool, i: int, ss: seq<int>)
    requires 0 <= i < |lines| && |repl| == |term|
    requires multiset(ss) == multiset(StartsOn(Keys(rs), i + 1))
    requires SplicePlan(lines[i], ss, |term|, 0) && AllOccur(lines[i], ss, term, caseSensitive)
    ensures ReplaceLinesRightToLeft(lines, rs, term, repl, caseSensitive)[i]
            == ReplaceLines(lines, rs, term, repl, caseSensitive)[i]
  {
    RightToLeftAllApplied(lines, rs, term, repl, caseSensitive, i, ss);
    SameLengthAllApplied(lines, rs, term, repl, caseSensitive, i, ss);
  }

  /** A line no result points at is left as it was. */
  lemma UntouchedLineRightToLeft(text: string, rs: seq<SearchResult>, term: string, repl: string,
                                 caseSensitive: bool, i: int)
    requires 0 <= i < |Split(text)|
    requires forall k :: 0 <= k < |rs| ==> rs[k].lineNumber != i + 1
    ensures ReplaceLinesRightToLeft(Split(text), rs, term, repl, caseSensitive)[i] == Split(text)[i]
  {
    StartsOnNone(Keys(rs), i + 1);
    ReplaceLinesRightToLeftPerLine(Split(text), rs, term, repl, caseSensitive, i, []);
  }

  /** A text without a newline is one line, and its corrected rewrite is
      that line's. */
  lemma OneLineTextRightToLeft(line: string, rs: seq<SearchResult>, term: string, repl: string, caseSensitive: bool)
    requires '\n' !in line
    ensures ReplaceInTextRightToLeft(line, rs, term, repl, caseSensitive)
            == ReplaceLinesRightToLeft([line], rs, term, repl, caseSensitive)[0]
  {
    SplitSingle(line);
    var out := ReplaceLinesRightToLeft([line], rs, term, repl, caseSensitive);
    assert Join(out) == out[0];
  }

  /** On a one-line text the code as written is the line's steps in
      ascending order of start. */
  lemma OneLineAsWritten(line: string, rs: seq<SearchResult>, term: string, repl: string, ss: seq<int>)
    requires '\n' !in line
    requires Ascending(ss) && multiset(ss) == multiset(StartsOn(Keys(rs), 1))
    ensures ReplaceInText(line, rs, term, repl, true) == LineApply(line, ss, term, repl, true)
  {
    OneLineText(line, rs, term, repl, true);
    assert [line][0] == line;
    ReplaceLinesPerLine([line], rs, term, repl, true, 0, ss);
  }

  /** On a one-line text the corrected replacement is the line's steps in
      descending order of start. */
  lemma OneLineReversed(line: string, rs: seq<SearchResult>, term: string, repl: string, ss: seq<int>)
    requires '\n' !in line
    requires Ascending(ss) && multiset(ss) == multiset(StartsOn(Keys(rs), 1))
    ensures ReplaceInTextRightToLeft(line, rs, term, repl, true) == LineApplyRev(line, ss, term, repl, true)
  {
    OneLineTextRightToLeft(line, rs, term, repl, true);
    assert [line][0] == line;
    ReplaceLinesRightToLeftPerLine([line], rs, term, repl, true, 0, ss);
  }

  /** On a one-line text the corrected replacement is the reference splice. */
  lemma OneLineCorrected(line: string, rs: seq<SearchResult>, term: string, repl: string, ss: seq<int>)
    requires '\n' !in line
    requires multiset(ss) == multiset(StartsOn(Keys(rs), 1))
    requires SplicePlan(line, ss, |term|, 0) && AllOccur(line, ss, term, true)
    ensures ReplaceInTextRightToLeft(line, rs, term, repl, true) == Spliced(line, ss, |term|, repl, 0)
  {
    OneLineTextRightToLeft(line, rs, term, repl, true);
    assert [line][0] == line;
    RightToLeftAllApplied([line], rs, term, repl, true, 0, ss);
  }

  // ---------------------------------------------------------------------
  // The offset drift of the code as written, on a two-match line.

  function XAt(lineNumber: int, start: int): SearchResult {
    SearchResult("f", lineNumber, "x x", start, start + 1)
  }

  lemma DriftSteps(line: string)
    requires line == "x x"
    ensures LineStep(line, 0, "x", "yy", true) == "yy x"
    ensures LineStep("yy x", 2, "x", "yy", true) == "yy x"
  {
    assert OccursAt(line, "x", 0);
    assert "yy x"[2..3] == " ";
  }

  /** Replacing both `x` of `x x` by `yy`: the first rewrite moves the second
      `x` from index 2 to index 3, so the step for the second result no
      longer finds the term at its recorded start and skips it. */
  lemma OffsetDriftAsWritten(line: string)
    requires line == "x x"
    ensures ReplaceInText(line, [XAt(1, 0), XAt(1, 2)], "x", "yy", true) == "yy x"
  {
    DriftAsLineApply(line);
    DriftSteps(line);
    assert LineApply(line, [0, 2], "x", "yy", true) == "yy x" by {
      assert [0, 2][1..] == [2] && [2][1..] == [];
    }
  }

  lemma DriftStarts()
    ensures StartsOn(Keys([XAt(1, 0), XAt(1, 2)]), 1) == [0, 2]
  {
    var ks := Keys([XAt(1, 0), XAt(1, 2)]);
    assert ks == [Pos(1, 0), Pos(1, 2)];
    assert ks[1..] == [Pos(1, 2)] && ks[1..][1..] == [];
  }

  lemma DriftAsLineApply(line: string)
    requires line == "x x"
    ensures ReplaceInText(line, [XAt(1, 0), XAt(1, 2)], "x", "yy", true) == LineApply(line, [0, 2], "x", "yy", true)
  {
    DriftStarts();
    OneLineAsWritten(line, [XAt(1, 0), XAt(1, 2)], "x", "yy", [0, 2]);
  }

  lemma DriftPlan(line: string)
    requires line == "x x"
    ensures SplicePlan(line, [0, 2], 1, 0) && AllOccur(line, [0, 2], "x", true)
  {
    assert OccursAt(line, "x", 0) && OccursAt(line, "x", 2);
  }

  lemma DriftSpliced(line: string)
    requires line == "x x"
    ensures SplicePlan(line, [0, 2], 1, 0)
    ensures Spliced(line, [0, 2], 1, "yy", 0) == "yy yy"
  {
    DriftPlan(line);
    SplicedStep(line, [0, 2], 1, "yy", 0);
    assert [0, 2][1..] == [2];
    SplicedLast(line, 2, 1, "yy", 1);
    assert Splice(line, 2, 1, "yy")[1..] == " yy";
  }

  /** The corrected replacement rewrites both. */
  lemma OffsetDriftCorrected(line: string)
    requires line == "x x"
    ensures ReplaceInTextRightToLeft(line, [XAt(1, 0), XAt(1, 2)], "x", "yy", true) == "yy yy"
  {
    DriftPlan(line);
    DriftSpliced(line);
    assert ReplaceInTextRightToLeft(line, [XAt(1, 0), XAt(1, 2)], "x", "yy", true) == Spliced(line, [0, 2], 1, "yy", 0) by {
      DriftStarts();
      OneLineCorrected(line, [XAt(1, 0), XAt(1, 2)], "x", "yy", [0, 2]);
    }
  }

  // ---------------------------------------------------------------------
  // The drift can also rewrite the wrong text: on `a a` with `a` -> `aaa`,
  // the second step finds an `a` written by the first.

  function AAt(start: int): SearchResult {
    SearchResult("f", 1, "a a", start, start + 1)
  }

  lemma WrongTextSteps(line: string)
    requires line == "a a"
    ensures LineStep(line, 0, "a", "aaa", true) == "aaa a"
    ensures LineStep("aaa a", 2, "a", "aaa", true) == "aaaaa a"
  {
    assert OccursAt(line, "a", 0);
    assert OccursAt("aaa a", "a", 2);
    assert "aaa a"[..2] + "aaa" + "aaa a"[3..] == "aaaaa a";
  }

  lemma WrongTextStarts()
    ensures StartsOn(Keys([AAt(0), AAt(2)]), 1) == [0, 2]
  {
    var ks := Keys([AAt(0), AAt(2)]);
    assert ks == [Pos(1, 0), Pos(1, 2)];
    assert ks[1..] == [Pos(1, 2)] && ks[1..][1..] == [];
  }

  /** Replacing both `a` of `a a` by `aaa`: the first rewrite gives
      `aaa a`, and the step for the second result, still at index 2, finds
      the last `a` of the first replacement there and rewrites it, giving
      `aaaaa a` while the second `a` of the line stays as it was. */
  lemma WrongTextAsWritten(line: string)
    requires line == "a a"
    ensures ReplaceInText(line, [AAt(0), AAt(2)], "a", "aaa", true) == "aaaaa a"
  {
    WrongTextStarts();
    OneLineAsWritten(line, [AAt(0), AAt(2)], "a", "aaa", [0, 2]);
    WrongTextSteps(line);
    assert LineApply(line, [0, 2], "a", "aaa", true) == "aaaaa a" by {
      assert [0, 2][1..] == [2] && [2][1..] == [];
    }
  }

  lemma WrongTextSpliced(line: string)
    requires line == "a a"
    ensures SplicePlan(line, [0, 2], 1, 0) && AllOccur(line, [0, 2], "a", true)
    ensures Spliced(line, [0, 2], 1, "aaa", 0) == "aaa aaa"
  {
    assert OccursAt(line, "a", 0) && OccursAt(line, "a", 2);
    SplicedStep(line, [0, 2], 1, "aaa", 0);
    assert [0, 2][1..] == [2];
    SplicedLast(line, 2, 1, "aaa", 1);
    assert Splice(line, 2, 1, "aaa")[1..] == " aaa";
  }

  /** The corrected replacement rewrites the two `a` of the line. */
  lemma WrongTextCorrected(line: string)
    requires line == "a a"
    ensures ReplaceInTextRightToLeft(line, [AAt(0), AAt(2)], "a", "aaa", true) == "aaa aaa"
  {
    WrongTextSpliced(line);
    WrongTextStarts();
    OneLineCorrected(line, [AAt(0), AAt(2)], "a", "aaa", [0, 2]);
  }

  // ---------------------------------------------------------------------
  // The same drift on the line `Hello World Hello Hello`.

  function HelloAt(line: string, start: int): SearchResult {
    SearchResult("f", 1, line, start, start + 5)
  }

  lemma HelloStarts(line: string)
    ensures StartsOn(Keys([HelloAt(line, 0), HelloAt(line, 12), HelloAt(line, 18)]), 1) == [0, 12, 18]
  {
    var ks := Keys([HelloAt(line, 0), HelloAt(line, 12), HelloAt(line, 18)]);
    assert ks == [Pos(1, 0), Pos(1, 12), Pos(1, 18)];
    assert ks[1..] == [Pos(1, 12), Pos(1, 18)] && ks[1..][1..] == [Pos(1, 18)] && ks[1..][1..][1..] == [];
    assert StartsOn(ks[1..][1..], 1) == [18];
    assert StartsOn(ks[1..], 1) == [12, 18];
  }

  lemma HelloOccurs(line: string)
    requires line == "Hello World Hello Hello"
    ensures |line| == 23
    ensures line[0..5] == "Hello" && line[12..17] == "Hello" && line[18..23] == "Hello"
  {
  }

  lemma HelloFirstStep(line: string)
    requires line == "Hello World Hello Hello"
    ensures LineStep(line, 0, "Hello", "Hi", true) == "Hi World Hello Hello"
  {
    HelloOccurs(line);
    HelloRest();
    assert OccursAt(line, "Hello", 0);
    assert Splice(line, 0, 5, "Hi") == "Hi" + line[5..];
  }

  lemma HelloRest()
    ensures "Hello World Hello Hello"[5..] == " World Hello Hello"
    ensures "Hi" + " World Hello Hello" == "Hi World Hello Hello"
  {
  }

  lemma HelloLaterStepsSkip(l1: string)
    requires l1 == "Hi World Hello Hello"
    ensures LineStep(l1, 12, "Hello", "Hi", true) == l1
    ensures LineStep(l1, 18, "Hello", "Hi", true) == l1
  {
    assert l1[12..17] == "lo He";
    assert !OccursAt(l1, "Hello", 12);
    assert !OccursAt(l1, "Hello", 18);
  }

  /** The steps of the code as written on `Hello World Hello Hello`: the
      first rewrite shortens the line by three, so neither later `Hello` is
      found at its recorded start. */
  lemma HelloSteps(line: string)
    requires line == "Hello World Hello Hello"
    ensures LineApply(line, [0, 12, 18], "Hello", "Hi", true) == "Hi World Hello Hello"
  {
    var l1 := "Hi World Hello Hello";
    HelloFirstStep(line);
    HelloLaterStepsSkip(l1);
    calc {
      LineApply(line, [0, 12, 18], "Hello", "Hi", true);
      { assert [0, 12, 18][1..] == [12, 18]; }
      LineApply(l1, [12, 18], "Hello", "Hi", true);
      { assert [12, 18][1..] == [18]; }
      LineApply(l1, [18], "Hello", "Hi", true);
      { assert [18][1..] == []; }
      LineApply(l1, [], "Hello", "Hi", true);
    }
  }

  lemma HelloTail(line: string)
    requires line == "Hello World Hello Hello"
    ensures SplicePlan(line, [18], 5, 17) && Spliced(line, [18], 5, "Hi", 17) == " Hi"
  {
    HelloOccurs(line);
    SplicedStep(line, [18], 5, "Hi", 17);
    assert [18][1..] == [];
    assert line[17..18] == " " && line[23..] == [];
  }

  lemma HelloMiddle(line: string)
    requires line == "Hello World Hello Hello"
    ensures SplicePlan(line, [12, 18], 5, 5) && Spliced(line, [12, 18], 5, "Hi", 5) == " World Hi Hi"
  {
    HelloOccurs(line);
    HelloTail(line);
    SplicedStep(line, [12, 18], 5, "Hi", 5);
    assert [12, 18][1..] == [18];
    assert line[5..12] == " World ";
  }

  /** The three `Hello` are non-overlapping occurrences. */
  lemma HelloPlan(line: string)
    requires line == "Hello World Hello Hello"
    ensures SplicePlan(line, [0, 12, 18], 5, 0)
    ensures AllOccur(line, [0, 12, 18], "Hello", true)
  {
    HelloOccurs(line);
  }

  /** The corrected replacement's reference splice of the same line. */
  lemma HelloSpliced(line: string)
    requires line == "Hello World Hello Hello"
    ensures SplicePlan(line, [0, 12, 18], 5, 0)
    ensures Spliced(line, [0, 12, 18], 5, "Hi", 0) == "Hi World Hi Hi"
  {
    HelloPlan(line);
    HelloMiddle(line);
    SplicedStep(line, [0, 12, 18], 5, "Hi", 0);
    assert [0, 12, 18][1..] == [12, 18];
  }

  /** Replacing all three `Hello` of `Hello World Hello Hello` by `Hi`: the
      code as written rewrites only the first. */
  lemma HelloDriftAsWritten(line: string)
    requires line == "Hello World Hello Hello"
    ensures ReplaceInText(line, [HelloAt(line, 0), HelloAt(line, 12), HelloAt(line, 18)], "Hello", "Hi", true)
            == "Hi World Hello Hello"
  {
    HelloAsLineApply(line);
    HelloSteps(line);
  }

  lemma HelloAsLineApply(line: string)
    requires line == "Hello World Hello Hello"
    ensures ReplaceInText(line, [HelloAt(line, 0), HelloAt(line, 12), HelloAt(line, 18)], "Hello", "Hi", true)
            == LineApply(line, [0, 12, 18], "Hello", "Hi", true)
  {
    HelloStarts(line);
    OneLineAsWritten(line, [HelloAt(line, 0), HelloAt(line, 12), HelloAt(line, 18)], "Hello", "Hi", [0, 12, 18]);
  }

  /** The corrected replacement rewrites all three. */
  lemma HelloDriftCorrected(line: string)
    requires line == "Hello World Hello Hello"
    ensures ReplaceInTextRightToLeft(line, [HelloAt(line, 0), HelloAt(line, 12), HelloAt(line, 18)], "Hello", "Hi", true)
            == "Hi World Hi Hi"
  {
    var rs := [HelloAt(line, 0), HelloAt(line, 12), HelloAt(line, 18)];
    HelloPlan(line);
    HelloSpliced(line);
    assert ReplaceInTextRightToLeft(line, rs, "Hello", "Hi", true) == Spliced(line, [0, 12, 18], 5, "Hi", 0) by {
      HelloStarts(line);
      OneLineCorrected(line, rs, "Hello", "Hi", [0, 12, 18]);
    }
  }

  // ---------------------------------------------------------------------
  // Overlapping selections, which the search reports: there the two orders
  // rewrite different occurrences.

  function AaAt(start: int): SearchResult {
    SearchResult("f", 1, "aaa", start, start + 2)
  }

  /** The search for `aa` in `aaa` reports both overlapping occurrences. */
  lemma OverlapSearched(line: string)
    requires line == "aaa"
    ensures AaAt(0) in SearchInText(line, "aa", "f", true, false)
    ensures AaAt(1) in SearchInText(line, "aa", "f", true, false)
  {
    SplitSingle(line);
    assert Strip(line) == line by {
      assert !IsSpace(line[0]) && !IsSpace(line[2]);
    }
    assert line[0..2] == "aa" && line[1..3] == "aa";
    CorrectResultIsFound(line, "aa", "f", true, false, AaAt(0));
    CorrectResultIsFound(line, "aa", "f", true, false, AaAt(1));
  }

  lemma OverlapStarts()
    ensures StartsOn(Keys([AaAt(0), AaAt(1)]), 1) == [0, 1]
  {
    var ks := Keys([AaAt(0), AaAt(1)]);
    assert ks == [Pos(1, 0), Pos(1, 1)];
    assert ks[1..] == [Pos(1, 1)] && ks[1..][1..] == [];
  }

  lemma OverlapSteps(line: string)
    requires line == "aaa"
    ensures LineApply(line, [0, 1], "aa", "bb", true) == "bba"
    ensures LineApplyRev(line, [0, 1], "aa", "bb", true) == "abb"
  {
    assert OccursAt(line, "aa", 0) && OccursAt(line, "aa", 1);
    assert LineStep(line, 0, "aa", "bb", true) == "bba";
    assert LineStep(line, 1, "aa", "bb", true) == "abb";
    assert "bba"[1..3] == "ba" && "abb"[0..2] == "ab";
    assert [0, 1][1..] == [1] && [1][1..] == [];
    assert [0, 1][..1] == [0] && [0][..0] == [];
  }

  lemma OverlapAsLineApply(line: string)
    requires line == "aaa"
    ensures ReplaceInText(line, [AaAt(0), AaAt(1)], "aa", "bb", true) == LineApply(line, [0, 1], "aa", "bb", true)
  {
    OverlapStarts();
    OneLineAsWritten(line, [AaAt(0), AaAt(1)], "aa", "bb", [0, 1]);
  }

  lemma OverlapAsLineApplyRev(line: string)
    requires line == "aaa"
    ensures ReplaceInTextRightToLeft(line, [AaAt(0), AaAt(1)], "aa", "bb", true)
            == LineApplyRev(line, [0, 1], "aa", "bb", true)
  {
    OverlapStarts();
    OneLineReversed(line, [AaAt(0), AaAt(1)], "aa", "bb", [0, 1]);
  }

  /** Replacing both selected, overlapping `aa` of `aaa` by `bb`: the code as
      written rewrites the first and then no longer finds the second; the
      corrected replacement rewrites the second and then no longer finds the
      first. Neither can rewrite both, but the outputs differ. */
  lemma OverlapOrderMatters(line: string)
    requires line == "aaa"
    ensures ReplaceInText(line, [AaAt(0), AaAt(1)], "aa", "bb", true) == "bba"
    ensures ReplaceInTextRightToLeft(line, [AaAt(0), AaAt(1)], "aa", "bb", true) == "abb"
  {
    OverlapAsLineApply(line);
    OverlapAsLineApplyRev(line);
    OverlapSteps(line);
  }
}
