/** `_replace_in_text`: rewriting the selected matches of a text, line by
    line, in (line number, match start) order, each only if the term is
    still found exactly at its recorded start. */
module Replace {
  import opened Strings
  import opened Lines
  import opened Search
  import opened Positions

  /** The sort key of a result: the only fields the replace step reads. */
  function KeyOf(r: SearchResult): Pos {
    Pos(r.lineNumber, r.matchStart)
  }

  function Keys(rs: seq<SearchResult>): seq<Pos> {
    seq(|rs|, i requires 0 <= i < |rs| => KeyOf(rs[i]))
  }

  /** `line[:s] + repl + line[s + n:]`. */
  function Splice(line: string, s: int, n: nat, repl: string): string
    requires 0 <= s && s + n <= |line|
  {
    line[..s] + repl + line[s + n..]
  }

  /** The rewrite of one line for one result: the term (lower-cased in
      case-insensitive mode) is searched from `s`, and only a hit exactly at
      `s` rewrites the line. A negative `s` never matches: Python's find
      would then count from the end, but its answer is never negative. */
  function LineStep(line: string, s: int, term: string, repl: string, caseSensitive: bool): (r: string)
    ensures OccursAt(Normalize(line, caseSensitive), Normalize(term, caseSensitive), s) ==>
              (|term| + s <= |line| && r == Splice(line, s, |term|, repl))
    ensures !OccursAt(Normalize(line, caseSensitive), Normalize(term, caseSensitive), s) ==> r == line
  {
    NormalizeLength(line, caseSensitive);
    NormalizeLength(term, caseSensitive);
    if s < 0 then line
    else
      match FindFrom(Normalize(line, caseSensitive), Normalize(term, caseSensitive), s)
      case None => line
      case Some(pos) =>
        if pos == s then line[..pos] + repl + line[pos + |term|..] else line
  }

  /** One iteration of the loop over the sorted results: a result whose line
      number is outside the text changes nothing. */
  function ApplyOne(lines: seq<string>, k: Pos, term: string, repl: string, caseSensitive: bool): (r: seq<string>)
    ensures |r| == |lines|
  {
    if 1 <= k.line <= |lines| then
      lines[k.line - 1 := LineStep(lines[k.line - 1], k.start, term, repl, caseSensitive)]
    else lines
  }

  /** The loop over the results, in the order given. */
  function ApplyAll(lines: seq<string>, ks: seq<Pos>, term: string, repl: string, caseSensitive: bool): (r: seq<string>)
    ensures |r| == |lines|
    decreases |ks|
  {
    if ks == [] then lines
    else ApplyAll(ApplyOne(lines, ks[0], term, repl, caseSensitive), ks[1..], term, repl, caseSensitive)
  }

  /** The steps the loop performs on one line, in the order given. */
  function LineApply(line: string, ss: seq<int>, term: string, repl: string, caseSensitive: bool): string
    decreases |ss|
  {
    if ss == [] then line
    else LineApply(LineStep(line, ss[0], term, repl, caseSensitive), ss[1..], term, repl, caseSensitive)
  }

  /** The rewritten lines: the results sorted by (line number, match start),
      then applied one after the other. */
  function ReplaceLines(lines: seq<string>, rs: seq<SearchResult>, term: string, repl: string,
                        caseSensitive: bool): (r: seq<string>)
    ensures |r| == |lines|
  {
    ApplyAll(lines, SortPos(Keys(rs)), term, repl, caseSensitive)
  }

  /** `_replace_in_text(text, results, search_text, replacement)`. */
  function ReplaceInText(text: string, rs: seq<SearchResult>, term: string, repl: string,
                         caseSensitive: bool): string
  {
    Join(ReplaceLines(Split(text), rs, term, repl, caseSensitive))
  }

  // ---------------------------------------------------------------------
  // The loop acts on each line independently.

  /** The loop keeps the number of lines, and each line ends up as the steps
      of the results on that line applied to it in order. */
  lemma {:induction false} ApplyAllPerLine(lines: seq<string>, ks: seq<Pos>, term: string, repl: string,
                                           caseSensitive: bool)
    ensures |ApplyAll(lines, ks, term, repl, caseSensitive)| == |lines|
    ensures forall i :: 0 <= i < |lines| ==>
              ApplyAll(lines, ks, term, repl, caseSensitive)[i]
              == LineApply(lines[i], StartsOn(ks, i + 1), term, repl, caseSensitive)
    decreases |ks|
  {
    if ks != [] {
      var next := ApplyOne(lines, ks[0], term, repl, caseSensitive);
      ApplyAllPerLine(next, ks[1..], term, repl, caseSensitive);
      forall i | 0 <= i < |lines|
        ensures ApplyAll(lines, ks, term, repl, caseSensitive)[i]
                == LineApply(lines[i], StartsOn(ks, i + 1), term, repl, caseSensitive)
      {
        var rest := StartsOn(ks[1..], i + 1);
        assert ApplyAll(lines, ks, term, repl, caseSensitive)[i]
               == LineApply(next[i], rest, term, repl, caseSensitive);
        if ks[0].line == i + 1 {
          assert next[i] == LineStep(lines[i], ks[0].start, term, repl, caseSensitive);
          assert StartsOn(ks, i + 1) == [ks[0].start] + rest;
          assert ([ks[0].start] + rest)[1..] == rest;
          assert LineApply(lines[i], [ks[0].start] + rest, term, repl, caseSensitive)
                 == LineApply(next[i], rest, term, repl, caseSensitive);
        } else {
          assert next[i] == lines[i];
          assert StartsOn(ks, i + 1) == [] + rest;
          assert [] + rest == rest;
        }
      }
    }
  }

  /** One step of the loop changes line `i` only if the position is on it. */
  lemma ApplyOneAt(lines: seq<string>, k: Pos, term: string, repl: string, caseSensitive: bool, i: int)
    requires 0 <= i < |lines|
    ensures ApplyOne(lines, k, term, repl, caseSensitive)[i]
            == if k.line == i + 1 then LineStep(lines[i], k.start, term, repl, caseSensitive) else lines[i]
  {
  }

  lemma KeysConcat(a: seq<SearchResult>, b: seq<SearchResult>)
    ensures Keys(a + b) == Keys(a) + Keys(b)
  {
  }

  /** Reordering the results reorders their keys. */
  lemma {:induction false} KeysPermutation(a: seq<SearchResult>, b: seq<SearchResult>)
    requires multiset(a) == multiset(b)
    ensures multiset(Keys(a)) == multiset(Keys(b))
    decreases |a|
  {
    if a == [] {
      assert |b| == |multiset(b)| == 0;
    } else {
      var x := a[0];
      var j := RemoveOne(a, b);
      var b' := b[..j] + b[j + 1..];
      KeysPermutation(a[1..], b');
      assert a == [x] + a[1..];
      assert b == b[..j] + [x] + b[j + 1..];
      KeysConcat([x], a[1..]);
      KeysConcat(b[..j] + [x], b[j + 1..]);
      KeysConcat(b[..j], [x]);
      KeysConcat(b[..j], b[j + 1..]);
      assert Keys([x]) == [KeyOf(x)];
    }
  }

  /** Line `i` of the output is the line's own steps, taken in ascending
      order of match start, whatever order the results came in. */
  lemma ReplaceLinesPerLine(lines: seq<string>, rs: seq<SearchResult>, term: string, repl: string,
                            caseSensitive: bool, i: int, ss: seq<int>)
    requires 0 <= i < |lines|
    requires Ascending(ss) && multiset(ss) == multiset(StartsOn(Keys(rs), i + 1))
    ensures |ReplaceLines(lines, rs, term, repl, caseSensitive)| == |lines|
    ensures ReplaceLines(lines, rs, term, repl, caseSensitive)[i] == LineApply(lines[i], ss, term, repl, caseSensitive)
  {
    ApplyAllPerLine(lines, SortPos(Keys(rs)), term, repl, caseSensitive);
    SortedStartsOn(Keys(rs), i + 1, ss);
  }

  /** Two selections with the same match starts on every line rewrite the
      text identically. */
  lemma SameStartsSameOutput(lines: seq<string>, rs1: seq<SearchResult>, rs2: seq<SearchResult>,
                             term: string, repl: string, caseSensitive: bool)
    requires forall ln :: 1 <= ln <= |lines| ==>
               multiset(StartsOn(Keys(rs1), ln)) == multiset(StartsOn(Keys(rs2), ln))
    ensures ReplaceLines(lines, rs1, term, repl, caseSensitive) == ReplaceLines(lines, rs2, term, repl, caseSensitive)
  {
    var out1 := ReplaceLines(lines, rs1, term, repl, caseSensitive);
    var out2 := ReplaceLines(lines, rs2, term, repl, caseSensitive);
    forall i | 0 <= i < |lines| ensures out1[i] == out2[i] {
      SameStartsSameLine(lines, rs1, rs2, term, repl, caseSensitive, i);
    }
  }

  lemma SameStartsSameLine(lines: seq<string>, rs1: seq<SearchResult>, rs2: seq<SearchResult>,
                           term: string, repl: string, caseSensitive: bool, i: int)
    requires 0 <= i < |lines|
    requires multiset(StartsOn(Keys(rs1), i + 1)) == multiset(StartsOn(Keys(rs2), i + 1))
    ensures ReplaceLines(lines, rs1, term, repl, caseSensitive)[i] == ReplaceLines(lines, rs2, term, repl, caseSensitive)[i]
  {
    var sorted := SortPos(Keys(rs1));
    var ss := StartsOn(sorted, i + 1);
    StartsOnSorted(sorted, i + 1);
    StartsOnPermutation(Keys(rs1), sorted, i + 1);
    ReplaceLinesPerLine(lines, rs1, term, repl, caseSensitive, i, ss);
    ReplaceLinesPerLine(lines, rs2, term, repl, caseSensitive, i, ss);
  }

  // ---------------------------------------------------------------------
  // What the replacement leaves alone.

  /** An empty selection gives the text back unchanged. */
  lemma ReplaceNothing(text: string, term: string, repl: string, caseSensitive: bool)
    ensures ReplaceInText(text, [], term, repl, caseSensitive) == text
  {
    assert Keys([]) == [];
    JoinSplit(text);
  }

  /** A line no result points at is left as it was. */
  lemma UntouchedLine(text: string, rs: seq<SearchResult>, term: string, repl: string,
                      caseSensitive: bool, i: int)
    requires 0 <= i < |Split(text)|
    requires forall k :: 0 <= k < |rs| ==> rs[k].lineNumber != i + 1
    ensures ReplaceLines(Split(text), rs, term, repl, caseSensitive)[i] == Split(text)[i]
  {
    StartsOnNone(Keys(rs), i + 1);
    ReplaceLinesPerLine(Split(text), rs, term, repl, caseSensitive, i, []);
  }

  /** Results whose line number lies outside the text change nothing. */
  lemma OutOfRangeIgnored(text: string, rs: seq<SearchResult>, extra: seq<SearchResult>,
                          term: string, repl: string, caseSensitive: bool)
    requires forall k :: 0 <= k < |extra| ==> !(1 <= extra[k].lineNumber <= |Split(text)|)
    ensures ReplaceInText(text, rs + extra, term, repl, caseSensitive) == ReplaceInText(text, rs, term, repl, caseSensitive)
  {
    var lines := Split(text);
    KeysConcat(rs, extra);
    forall ln | 1 <= ln <= |lines|
      ensures multiset(StartsOn(Keys(rs + extra), ln)) == multiset(StartsOn(Keys(rs), ln))
    {
      StartsOnConcat(Keys(rs), Keys(extra), ln);
      StartsOnNone(Keys(extra), ln);
      assert StartsOn(Keys(rs + extra), ln) == StartsOn(Keys(rs), ln) + [];
    }
    SameStartsSameOutput(lines, rs + extra, rs, term, repl, caseSensitive);
  }

  /** The output does not depend on the order the results are supplied in. */
  lemma OrderIndependent(text: string, rs1: seq<SearchResult>, rs2: seq<SearchResult>,
                         term: string, repl: string, caseSensitive: bool)
    requires multiset(rs1) == multiset(rs2)
    ensures ReplaceInText(text, rs1, term, repl, caseSensitive) == ReplaceInText(text, rs2, term, repl, caseSensitive)
  {
    var lines := Split(text);
    KeysPermutation(rs1, rs2);
    forall ln | 1 <= ln <= |lines|
      ensures multiset(StartsOn(Keys(rs1), ln)) == multiset(StartsOn(Keys(rs2), ln))
    {
      StartsOnPermutation(Keys(rs1), Keys(rs2), ln);
    }
    SameStartsSameOutput(lines, rs1, rs2, term, repl, caseSensitive);
  }

  /** Sorting a single key leaves it alone. */
  lemma SortSingle(x: Pos)
    ensures SortPos([x]) == [x]
  {
    assert [x][1..] == [];
  }

  /** A single result applies `line[:s] + repl + line[s + |term|:]` when the
      term is still at its start, and leaves the lines alone otherwise. */
  lemma SingleResult(lines: seq<string>, r: SearchResult, term: string, repl: string, caseSensitive: bool)
    ensures var i := r.lineNumber - 1;
            ReplaceLines(lines, [r], term, repl, caseSensitive)
            == if 0 <= i < |lines| && OccursAt(Normalize(lines[i], caseSensitive), Normalize(term, caseSensitive), r.matchStart)
               then lines[i := Splice(lines[i], r.matchStart, |term|, repl)]
               else lines
  {
    assert Keys([r]) == [KeyOf(r)];
    SortSingle(KeyOf(r));
    var next := ApplyOne(lines, KeyOf(r), term, repl, caseSensitive);
    assert ApplyAll(lines, [KeyOf(r)], term, repl, caseSensitive) == ApplyAll(next, [], term, repl, caseSensitive);
  }

  /** A result whose term is no longer at its start is skipped. */
  lemma StaleResultSkipped(text: string, r: SearchResult, term: string, repl: string, caseSensitive: bool)
    requires 1 <= r.lineNumber <= |Split(text)|
    requires !OccursAt(Normalize(Split(text)[r.lineNumber - 1], caseSensitive), Normalize(term, caseSensitive), r.matchStart)
    ensures ReplaceInText(text, [r], term, repl, caseSensitive) == text
  {
    SingleResult(Split(text), r, term, repl, caseSensitive);
    JoinSplit(text);
  }

  /** A text without a newline is one line, and its rewrite is that line's. */
  lemma OneLineText(line: string, rs: seq<SearchResult>, term: string, repl: string, caseSensitive: bool)
    requires '\n' !in line
    ensures ReplaceInText(line, rs, term, repl, caseSensitive) == ReplaceLines([line], rs, term, repl, caseSensitive)[0]
  {
    SplitSingle(line);
    var out := ReplaceLines([line], rs, term, repl, caseSensitive);
    assert Join(out) == out[0];
  }

  // ---------------------------------------------------------------------
  // Line structure and round trip.

  lemma {:induction false} LineApplyNoNewline(line: string, ss: seq<int>, term: string, repl: string,
                                              caseSensitive: bool)
    requires '\n' !in line && '\n' !in repl
    ensures '\n' !in LineApply(line, ss, term, repl, caseSensitive)
    decreases |ss|
  {
    if ss != [] {
      if OccursAt(Normalize(line, caseSensitive), Normalize(term, caseSensitive), ss[0]) {
        SpliceNoNewline(line, ss[0], |term|, repl);
      }
      LineApplyNoNewline(LineStep(line, ss[0], term, repl, caseSensitive), ss[1..], term, repl, caseSensitive);
    }
  }

  /** A splice of newline-free pieces has no newline. */
  lemma SpliceNoNewline(line: string, s: int, n: nat, repl: string)
    requires '\n' !in line && '\n' !in repl && 0 <= s && s + n <= |line|
    ensures '\n' !in Splice(line, s, n, repl)
  {
    assert '\n' !in line[..s] && '\n' !in line[s + n..];
  }

  /** With a replacement free of newlines the rewritten text has exactly the
      rewritten lines, so the line count is unchanged. */
  lemma LineCountPreserved(text: string, rs: seq<SearchResult>, term: string, repl: string, caseSensitive: bool)
    requires '\n' !in repl
    ensures Split(ReplaceInText(text, rs, term, repl, caseSensitive)) == ReplaceLines(Split(text), rs, term, repl, caseSensitive)
    ensures |Split(ReplaceInText(text, rs, term, repl, caseSensitive))| == |Split(text)|
  {
    var lines := Split(text);
    var out := ReplaceLines(lines, rs, term, repl, caseSensitive);
    var ks := SortPos(Keys(rs));
    ApplyAllPerLine(lines, ks, term, repl, caseSensitive);
    forall i | 0 <= i < |out| ensures '\n' !in out[i] {
      LineApplyNoNewline(lines[i], StartsOn(ks, i + 1), term, repl, caseSensitive);
    }
    SplitJoin(out);
  }

  lemma {:induction false} LineApplyIdentity(line: string, ss: seq<int>, term: string)
    ensures LineApply(line, ss, term, term, true) == line
    decreases |ss|
  {
    if ss != [] {
      var s := ss[0];
      if OccursAt(line, term, s) {
        assert line[..s] + term + line[s + |term|..] == line by {
          assert line == line[..s] + line[s..s + |term|] + line[s + |term|..];
        }
      }
      LineApplyIdentity(line, ss[1..], term);
    }
  }

  /** Case-sensitive replacement of any selection by the term itself gives
      the text back. */
  lemma ReplaceWithTermIsIdentity(text: string, rs: seq<SearchResult>, term: string)
    ensures ReplaceInText(text, rs, term, term, true) == text
  {
    var lines := Split(text);
    var ks := SortPos(Keys(rs));
    var out := ReplaceLines(lines, rs, term, term, true);
    ApplyAllPerLine(lines, ks, term, term, true);
    forall i | 0 <= i < |lines| ensures out[i] == lines[i] {
      LineApplyIdentity(lines[i], StartsOn(ks, i + 1), term);
    }
    assert out == lines;
    JoinSplit(text);
  }

  /** In particular, searching case-sensitively and replacing every result
      by the term reproduces the text. */
  lemma SearchReplaceRoundTrip(text: string, term: string, path: string, wholeWord: bool)
    ensures ReplaceInText(text, SearchInText(text, term, path, true, wholeWord), term, term, true) == text
  {
    ReplaceWithTermIsIdentity(text, SearchInText(text, term, path, true, wholeWord), term);
  }

  // ---------------------------------------------------------------------
  // Reference definition: every selected occurrence of a line rewritten.

  /** The starts are pairwise at least `n` apart, so the occurrences they
      mark do not overlap (and none is listed twice). */
  predicate Gapped(ss: seq<int>, n: nat) {
    forall j, k :: 0 <= j < k < |ss| ==> ss[j] + n <= ss[k]
  }

  /** `ss` marks non-overlapping stretches of `n` characters of `line`, all at
      or after `from`. */
  predicate SplicePlan(line: string, ss: seq<int>, n: nat, from: int) {
    && 0 <= from <= |line|
    && Gapped(ss, n)
    && forall k :: 0 <= k < |ss| ==> from <= ss[k] && ss[k] + n <= |line|
  }

  /** `line[from:]` with each of the stretches marked by `ss` replaced by
      `repl`: the result the dialog promises when it replaces every
      selected occurrence. */
  function Spliced(line: string, ss: seq<int>, n: nat, repl: string, from: int): string
    requires SplicePlan(line, ss, n, from)
    decreases |ss|
  {
    if ss == [] then line[from..]
    else line[from..ss[0]] + repl + Spliced(line, ss[1..], n, repl, ss[0] + n)
  }

  /** Unfolding the reference splice once. */
  lemma SplicedStep(line: string, ss: seq<int>, n: nat, repl: string, from: int)
    requires SplicePlan(line, ss, n, from) && ss != []
    ensures SplicePlan(line, ss[1..], n, ss[0] + n)
    ensures Spliced(line, ss, n, repl, from) == line[from..ss[0]] + repl + Spliced(line, ss[1..], n, repl, ss[0] + n)
  {
    PlanTail(line, ss, n, from);
  }

  /** A plan with one stretch: the line with that stretch rewritten. */
  lemma SplicedLast(line: string, s: int, n: nat, repl: string, from: int)
    requires 0 <= from <= s && s + n <= |line|
    ensures SplicePlan(line, [s], n, from)
    ensures Spliced(line, [s], n, repl, from) == Splice(line, s, n, repl)[from..]
  {
    assert Spliced(line, [s], n, repl, from) == line[from..s] + repl + line[s + n..] by {
      assert [s][1..] == [];
    }
    var line1 := Splice(line, s, n, repl);
    assert line1 == line[..s] + (repl + line[s + n..]);
    assert line[..s][from..] == line[from..s];
  }

  /** Every start in `ss` is still an occurrence of the term in `line`. */
  predicate AllOccur(line: string, ss: seq<int>, term: string, caseSensitive: bool) {
    forall k :: 0 <= k < |ss| ==> OccursAt(Normalize(line, caseSensitive), Normalize(term, caseSensitive), ss[k])
  }

  /** Exact occurrences are occurrences in either mode. */
  lemma AllOccurAnyCase(line: string, ss: seq<int>, term: string, caseSensitive: bool)
    requires AllOccur(line, ss, term, true)
    ensures AllOccur(line, ss, term, caseSensitive)
  {
    forall k | 0 <= k < |ss|
      ensures OccursAt(Normalize(line, caseSensitive), Normalize(term, caseSensitive), ss[k])
    {
      OccursFold(line, term, ss[k]);
    }
  }

  /** `ss` is a plan of non-overlapping stretches of `line` from `from` on,
      each still an occurrence of the term. */
  predicate Planned(line: string, ss: seq<int>, term: string, caseSensitive: bool, from: int) {
    SplicePlan(line, ss, |term|, from) && AllOccur(line, ss, term, caseSensitive)
  }

  /** Dropping the first start leaves a plan for the rest of the line. */
  lemma PlanTail(line: string, ss: seq<int>, n: nat, from: int)
    requires SplicePlan(line, ss, n, from) && ss != []
    ensures SplicePlan(line, ss[1..], n, ss[0] + n)
  {
    forall k | 0 <= k < |ss[1..]| ensures ss[0] + n <= ss[1..][k] {
      assert ss[1..][k] == ss[k + 1];
    }
  }

  /** The splice of a line only reads the line from `from` on. */
  lemma {:induction false} SplicedSuffix(a: string, b: string, ss: seq<int>, n: nat, repl: string, from: int)
    requires |a| == |b| && SplicePlan(a, ss, n, from) && a[from..] == b[from..]
    ensures SplicePlan(b, ss, n, from)
    ensures Spliced(a, ss, n, repl, from) == Spliced(b, ss, n, repl, from)
    decreases |ss|
  {
    if ss != [] {
      SplicedStep(a, ss, n, repl, from);
      assert SplicePlan(b, ss, n, from);
      SplicedStep(b, ss, n, repl, from);
      SameFrom(a, b, from, ss[0], ss[0] + n);
      SplicedSuffix(a, b, ss[1..], n, repl, ss[0] + n);
    }
  }

  /** Two equally long strings that agree from `from` on agree on every
      piece starting at or after it. */
  lemma SameFrom(a: string, b: string, from: int, i: int, j: int)
    requires |a| == |b| && 0 <= from <= i <= j <= |a| && a[from..] == b[from..]
    ensures a[from..i] == b[from..i] && a[j..] == b[j..]
  {
    assert a[from..i] == a[from..][..i - from];
    assert b[from..i] == b[from..][..i - from];
    assert a[j..] == a[from..][j - from..];
    assert b[j..] == b[from..][j - from..];
  }

  /** An occurrence in a line stays one when an earlier stretch of the same
      length is rewritten. */
  lemma OccurAfterSplice(line: string, s: int, term: string, repl: string, caseSensitive: bool, q: int)
    requires |repl| == |term| && 0 <= s && s + |term| <= q
    requires OccursAt(Normalize(line, caseSensitive), Normalize(term, caseSensitive), q)
    ensures OccursAt(Normalize(Splice(line, s, |term|, repl), caseSensitive), Normalize(term, caseSensitive), q)
  {
    OccursNormalized(line, term, caseSensitive, q);
    SpliceKeepsAfter(line, s, |term|, repl, q, q + |term|);
    OccursNormalized(Splice(line, s, |term|, repl), term, caseSensitive, q);
  }

  /** A splice with a replacement of the cut length leaves the characters
      after the cut where they were. */
  lemma SpliceKeepsAfter(line: string, s: int, n: nat, repl: string, a: int, b: int)
    requires |repl| == n && 0 <= s && s + n <= a <= b <= |line|
    ensures |Splice(line, s, n, repl)| == |line|
    ensures Splice(line, s, n, repl)[a..b] == line[a..b]
  {
    var r := Splice(line, s, n, repl);
    forall k | a <= k < b ensures r[k] == line[k] {
      assert r == (line[..s] + repl) + line[s + n..];
    }
  }

  /** A splice with a replacement of the cut length keeps what follows the cut. */
  lemma SpliceKeepsSuffix(line: string, s: int, n: nat, repl: string)
    requires |repl| == n && 0 <= s && s + n <= |line|
    ensures |Splice(line, s, n, repl)| == |line|
    ensures Splice(line, s, n, repl)[s + n..] == line[s + n..]
  {
    var r := Splice(line, s, n, repl);
    assert r == (line[..s] + repl) + line[s + n..];
  }

  /** A splice leaves the characters before the cut where they were. */
  lemma SpliceKeepsBefore(line: string, s: int, n: nat, repl: string, a: int, b: int)
    requires 0 <= a <= b <= s && s + n <= |line|
    ensures Splice(line, s, n, repl)[a..b] == line[a..b]
  {
    var r := Splice(line, s, n, repl);
    forall k | a <= k < b ensures r[k] == line[k] {
      assert r == line[..s] + (repl + line[s + n..]);
    }
  }

  /** Rewriting the first planned stretch keeps the rest of the plan valid. */
  lemma AllOccurAfterSplice(line: string, ss: seq<int>, term: string, repl: string, caseSensitive: bool,
                            from: int)
    requires |repl| == |term| && ss != []
    requires Planned(line, ss, term, caseSensitive, from)
    ensures Planned(Splice(line, ss[0], |term|, repl), ss[1..], term, caseSensitive, ss[0] + |term|)
  {
    var n := |term|;
    PlanTail(line, ss, n, from);
    forall k | 0 <= k < |ss[1..]|
      ensures OccursAt(Normalize(Splice(line, ss[0], n, repl), caseSensitive), Normalize(term, caseSensitive), ss[1..][k])
    {
      assert ss[1..][k] == ss[k + 1];
      OccurAfterSplice(line, ss[0], term, repl, caseSensitive, ss[k + 1]);
    }
  }

  /** The first step of a line rewrites a stretch that is still there. */
  lemma LineApplyFirst(line: string, ss: seq<int>, term: string, repl: string, caseSensitive: bool)
    requires ss != [] && OccursAt(Normalize(line, caseSensitive), Normalize(term, caseSensitive), ss[0])
    ensures 0 <= ss[0] && ss[0] + |term| <= |line|
    ensures LineApply(line, ss, term, repl, caseSensitive)
            == LineApply(Splice(line, ss[0], |term|, repl), ss[1..], term, repl, caseSensitive)
  {
  }

  /** Unfolding the reference splice once, seen from the start of the line. */
  lemma SplicedUnfold(line: string, ss: seq<int>, n: nat, repl: string, from: int)
    requires SplicePlan(line, ss, n, from) && ss != []
    requires SplicePlan(line, ss[1..], n, ss[0] + n)
    ensures line[..from] + Spliced(line, ss, n, repl, from)
            == line[..ss[0]] + repl + Spliced(line, ss[1..], n, repl, ss[0] + n)
  {
    var s := ss[0];
    var tail := Spliced(line, ss[1..], n, repl, s + n);
    assert Spliced(line, ss, n, repl, from) == line[from..s] + repl + tail;
    PrefixJoin(line, from, s);
    ConcatAssoc(line[..from], line[from..s], repl, tail);
  }

  lemma PrefixJoin<T>(a: seq<T>, i: int, j: int)
    requires 0 <= i <= j <= |a|
    ensures a[..i] + a[i..j] == a[..j]
  {
  }

  lemma ConcatAssoc<T>(a: seq<T>, b: seq<T>, c: seq<T>, d: seq<T>)
    ensures a + (b + c + d) == a + b + c + d
  {
  }

  lemma SpliceHead(line: string, s: int, n: nat, repl: string)
    requires 0 <= s && s + n <= |line|
    ensures Splice(line, s, n, repl)[..s + |repl|] == line[..s] + repl
  {
    var r := Splice(line, s, n, repl);
    assert r == (line[..s] + repl) + line[s + n..];
  }

  /** With a replacement as long as the term, the steps in ascending order
      rewrite every selected occurrence. */
  lemma {:induction false} LineApplySameLength(line: string, ss: seq<int>, term: string, repl: string,
                                               caseSensitive: bool, from: int)
    requires |repl| == |term|
    requires Planned(line, ss, term, caseSensitive, from)
    ensures LineApply(line, ss, term, repl, caseSensitive) == line[..from] + Spliced(line, ss, |term|, repl, from)
    decreases |ss|, 1
  {
    if ss == [] {
      assert line == line[..from] + line[from..];
    } else {
      SameLengthStep(line, ss, term, repl, caseSensitive, from);
    }
  }

  /** The inductive step: the rest of the line becomes its reference splice
      once the first planned stretch is rewritten. */
  lemma {:induction false} SameLengthStep(line: string, ss: seq<int>, term: string, repl: string,
                                          caseSensitive: bool, from: int)
    requires |repl| == |term| && ss != []
    requires Planned(line, ss, term, caseSensitive, from)
    ensures LineApply(line, ss, term, repl, caseSensitive) == line[..from] + Spliced(line, ss, |term|, repl, from)
    decreases |ss|, 0
  {
    var line1, rest, from1 := SameLengthPrepare(line, ss, term, repl, caseSensitive, from);
    LineApplySameLength(line1, rest, term, repl, caseSensitive, from1);
  }

  /** Rewriting the first planned stretch gives a shorter plan on the
      rewritten line: the remaining steps start from that line, and its
      reference splice (after the untouched head) is the reference splice
      of the whole plan. */
  lemma SameLengthPrepare(line: string, ss: seq<int>, term: string, repl: string, caseSensitive: bool, from: int)
    returns (line1: string, rest: seq<int>, from1: int)
    requires |repl| == |term| && ss != []
    requires Planned(line, ss, term, caseSensitive, from)
    ensures |rest| < |ss|
    ensures Planned(line1, rest, term, caseSensitive, from1)
    ensures LineApply(line, ss, term, repl, caseSensitive) == LineApply(line1, rest, term, repl, caseSensitive)
    ensures line1[..from1] + Spliced(line1, rest, |term|, repl, from1)
            == line[..from] + Spliced(line, ss, |term|, repl, from)
  {
    line1, rest, from1 := Splice(line, ss[0], |term|, repl), ss[1..], ss[0] + |term|;
    AllOccurAfterSplice(line, ss, term, repl, caseSensitive, from);
    LineApplyFirst(line, ss, term, repl, caseSensitive);
    SameLengthJoin(line, ss, |term|, repl, from, line1, rest, from1);
  }

  /** The rewritten line's head followed by its reference splice of the rest
      of the plan is the reference splice of the whole plan. */
  lemma SameLengthJoin(line: string, ss: seq<int>, n: nat, repl: string, from: int,
                       line1: string, rest: seq<int>, from1: int)
    requires SplicePlan(line, ss, n, from) && ss != [] && |repl| == n
    requires line1 == Splice(line, ss[0], n, repl) && rest == ss[1..] && from1 == ss[0] + n
    ensures SplicePlan(line1, rest, n, from1)
    ensures line1[..from1] + Spliced(line1, rest, n, repl, from1) == line[..from] + Spliced(line, ss, n, repl, from)
  {
    SplicedAfterSplice(line, ss, n, repl, from);
    assert line1[..from1] == line1[..ss[0] + n];
    assert Spliced(line1, rest, n, repl, from1) == Spliced(line1, rest, n, repl, ss[0] + n);
    SameLengthAssemble(line, ss, n, repl, from);
  }

  /** Rewriting the first planned stretch in place leaves the reference
      splice of the rest of the plan as it was. */
  lemma SplicedAfterSplice(line: string, ss: seq<int>, n: nat, repl: string, from: int)
    requires SplicePlan(line, ss, n, from) && ss != [] && |repl| == n
    ensures SplicePlan(Splice(line, ss[0], n, repl), ss[1..], n, ss[0] + n)
    ensures Spliced(Splice(line, ss[0], n, repl), ss[1..], n, repl, ss[0] + n)
            == Spliced(line, ss[1..], n, repl, ss[0] + n)
  {
    PlanTail(line, ss, n, from);
    SpliceKeepsSuffix(line, ss[0], n, repl);
    SplicedSuffix(line, Splice(line, ss[0], n, repl), ss[1..], n, repl, ss[0] + n);
  }

  /** The first stretch rewritten in place, followed by the reference splice
      of the rest, is the reference splice of the whole plan. */
  lemma SameLengthAssemble(line: string, ss: seq<int>, n: nat, repl: string, from: int)
    requires SplicePlan(line, ss, n, from) && ss != [] && |repl| == n
    ensures SplicePlan(line, ss[1..], n, ss[0] + n)
    ensures Splice(line, ss[0], n, repl)[..ss[0] + n] + Spliced(line, ss[1..], n, repl, ss[0] + n)
            == line[..from] + Spliced(line, ss, n, repl, from)
  {
    PlanTail(line, ss, n, from);
    SpliceHead(line, ss[0], n, repl);
    SplicedUnfold(line, ss, n, repl, from);
  }

  /** When the replacement is as long as the term, every selected, still
      present, non-overlapping occurrence on a line is replaced: the line
      becomes the reference splice of its selected starts. */
  lemma SameLengthAllApplied(lines: seq<string>, rs: seq<SearchResult>, term: string, repl: string,
                             caseSensitive: bool, i: int, ss: seq<int>)
    requires 0 <= i < |lines| && |repl| == |term|
    requires multiset(ss) == multiset(StartsOn(Keys(rs), i + 1))
    requires SplicePlan(lines[i], ss, |term|, 0) && AllOccur(lines[i], ss, term, caseSensitive)
    ensures ReplaceLines(lines, rs, term, repl, caseSensitive)[i] == Spliced(lines[i], ss, |term|, repl, 0)
  {
    ReplaceLinesPerLine(lines, rs, term, repl, caseSensitive, i, ss);
    LineApplySameLength(lines[i], ss, term, repl, caseSensitive, 0);
  }
}
