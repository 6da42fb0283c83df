/** The line-based literal search of the multi-file find dialog: the
    whole-word test, the per-line scan that restarts one character after
    every match, and the search of a whole text. The dialog's two checkboxes
    are the `caseSensitive` and `wholeWord` parameters. */
module Search {
  import opened Strings
  import opened Lines

  /** One match: the file, the 1-based line, the stripped line text and the
      half-open range of the match within the line. */
  datatype SearchResult = SearchResult(
    filePath: string,
    lineNumber: int,
    lineText: string,
    matchStart: int,
    matchEnd: int)

  /** The match of `length` characters at `pos` is bounded on both sides by
      the edge of the text or a non-alphanumeric character. */
  predicate IsWholeWord(text: string, pos: int, length: int)
    requires 0 <= pos <= |text| && 0 <= length
  {
    && (pos == 0 || !IsAlnum(text[pos - 1]))
    && (pos + length >= |text| || !IsAlnum(text[pos + length]))
  }

  /** `needle` occurs in `hay` at `p` and, in whole-word mode, passes the
      whole-word test there. */
  predicate Hit(hay: string, needle: string, wholeWord: bool, p: int) {
    OccursAt(hay, needle, p) && (wholeWord ==> IsWholeWord(hay, p, |needle|))
  }

  /** The declarative meaning of a match at `p` of `line`: the normalized term
      occurs in the normalized line there (and is a whole word when asked). */
  predicate IsMatch(line: string, term: string, caseSensitive: bool, wholeWord: bool, p: int) {
    Hit(Normalize(line, caseSensitive), Normalize(term, caseSensitive), wholeWord, p)
  }

  /** The inner scanning loop: find from `start`, skip a whole-word reject,
      record a match, and always resume one character after the position
      just found. The result is every hit at or after `start`, in strictly
      increasing order, overlapping hits included. */
  function ScanLine(hay: string, needle: string, wholeWord: bool, start: nat): (ps: seq<nat>)
    ensures forall i :: 0 <= i < |ps| ==> start <= ps[i] && Hit(hay, needle, wholeWord, ps[i])
    ensures forall p :: start <= p && Hit(hay, needle, wholeWord, p) ==> p in ps
    ensures forall i, j :: 0 <= i < j < |ps| ==> ps[i] < ps[j]
    decreases |hay| + 1 - start
  {
    match FindFrom(hay, needle, start)
    case None => []
    case Some(p) =>
      var rest := ScanLine(hay, needle, wholeWord, p + 1);
      var ps := if wholeWord && !IsWholeWord(hay, p, |needle|) then rest else [p] + rest;
      ScanBehind(hay, needle, wholeWord, start, p, rest, ps);
      ps
  }

  /** One round of the scan: the hits from `p + 1` on, preceded by `p` when
      it passes the whole-word test, are the hits from `start` on when `p`
      is the first occurrence at or after `start`. */
  lemma ScanBehind(hay: string, needle: string, wholeWord: bool, start: nat, p: nat, rest: seq<nat>, ps: seq<nat>)
    requires start <= p && OccursAt(hay, needle, p)
    requires forall q :: start <= q < p ==> !OccursAt(hay, needle, q)
    requires forall i :: 0 <= i < |rest| ==> p + 1 <= rest[i] && Hit(hay, needle, wholeWord, rest[i])
    requires forall q :: p + 1 <= q && Hit(hay, needle, wholeWord, q) ==> q in rest
    requires forall i, j :: 0 <= i < j < |rest| ==> rest[i] < rest[j]
    requires ps == if wholeWord && !IsWholeWord(hay, p, |needle|) then rest else [p] + rest
    ensures forall i :: 0 <= i < |ps| ==> start <= ps[i] && Hit(hay, needle, wholeWord, ps[i])
    ensures forall q :: start <= q && Hit(hay, needle, wholeWord, q) ==> q in ps
    ensures forall i, j :: 0 <= i < j < |ps| ==> ps[i] < ps[j]
  {
  }

  /** The results the scan of one line produces. */
  function LineResults(path: string, lineNumber: int, line: string, term: string,
                       caseSensitive: bool, wholeWord: bool): seq<SearchResult>
  {
    var ps := ScanLine(Normalize(line, caseSensitive), Normalize(term, caseSensitive), wholeWord, 0);
    seq(|ps|, i requires 0 <= i < |ps| =>
      SearchResult(path, lineNumber, Strip(line), ps[i], ps[i] + |Normalize(term, caseSensitive)|))
  }

  /** `r` is a correct result for `lines`: its line exists, its range lies
      inside that line, the term matches there, and its other fields are
      the file path and the stripped line. */
  predicate Correct(r: SearchResult, path: string, lines: seq<string>, term: string,
                    caseSensitive: bool, wholeWord: bool)
  {
    && Located(r, path, lines, term)
    && 0 <= r.matchStart && r.matchEnd <= |lines[r.lineNumber - 1]|
    && IsMatch(lines[r.lineNumber - 1], term, caseSensitive, wholeWord, r.matchStart)
  }

  /** The fields of `r` other than its start are the ones the search
      records for a match at that start. */
  predicate Located(r: SearchResult, path: string, lines: seq<string>, term: string) {
    && r.filePath == path
    && 1 <= r.lineNumber <= |lines|
    && r.lineText == Strip(lines[r.lineNumber - 1])
    && r.matchEnd == r.matchStart + |term|
  }

  /** Some result reports line `lineNumber` at `p`. */
  ghost predicate Reported(rs: seq<SearchResult>, lineNumber: int, p: int) {
    exists j :: 0 <= j < |rs| && rs[j].lineNumber == lineNumber && rs[j].matchStart == p
  }

  /** `a` comes strictly before `b` in (line number, match start) order. */
  predicate Before(a: SearchResult, b: SearchResult) {
    a.lineNumber < b.lineNumber || (a.lineNumber == b.lineNumber && a.matchStart < b.matchStart)
  }

  /** Results are strictly increasing by line, then by start; in particular
      no position is reported twice. */
  predicate Ordered(rs: seq<SearchResult>) {
    forall i, j :: 0 <= i < j < |rs| ==> Before(rs[i], rs[j])
  }

  predicate AllCorrect(rs: seq<SearchResult>, path: string, lines: seq<string>, term: string,
                       caseSensitive: bool, wholeWord: bool)
  {
    forall j :: 0 <= j < |rs| ==> Correct(rs[j], path, lines, term, caseSensitive, wholeWord)
  }

  /** Every result of `rs` is on line `ln`. */
  predicate AllOnLine(rs: seq<SearchResult>, ln: int) {
    forall j :: 0 <= j < |rs| ==> rs[j].lineNumber == ln
  }

  /** Every result of `rs` is on a line after `ln`. */
  predicate AllAfter(rs: seq<SearchResult>, ln: int) {
    forall j :: 0 <= j < |rs| ==> ln < rs[j].lineNumber
  }

  lemma OrderedConcat(a: seq<SearchResult>, b: seq<SearchResult>, ln: int)
    requires Ordered(a) && Ordered(b) && AllOnLine(a, ln) && AllAfter(b, ln)
    ensures Ordered(a + b)
  {
    forall i, j | 0 <= i < j < |a + b|
      ensures Before((a + b)[i], (a + b)[j])
    {
      if j < |a| {
        assert (a + b)[i] == a[i] && (a + b)[j] == a[j];
      } else if i >= |a| {
        assert (a + b)[i] == b[i - |a|] && (a + b)[j] == b[j - |a|];
      } else {
        assert (a + b)[i] == a[i] && (a + b)[j] == b[j - |a|];
      }
    }
  }

  lemma AllCorrectConcat(a: seq<SearchResult>, b: seq<SearchResult>, path: string, lines: seq<string>,
                          term: string, caseSensitive: bool, wholeWord: bool)
    requires AllCorrect(a, path, lines, term, caseSensitive, wholeWord)
    requires AllCorrect(b, path, lines, term, caseSensitive, wholeWord)
    ensures AllCorrect(a + b, path, lines, term, caseSensitive, wholeWord)
  {
    forall j | 0 <= j < |a + b| ensures Correct((a + b)[j], path, lines, term, caseSensitive, wholeWord) {
      if j < |a| {
        assert (a + b)[j] == a[j];
      } else {
        assert (a + b)[j] == b[j - |a|];
      }
    }
  }

  lemma AllAfterConcat(a: seq<SearchResult>, b: seq<SearchResult>, k: int)
    requires AllOnLine(a, k + 1) && AllAfter(b, k + 1)
    ensures AllAfter(a + b, k)
  {
    forall j | 0 <= j < |a + b| ensures k < (a + b)[j].lineNumber {
      if j < |a| {
        assert (a + b)[j] == a[j];
      } else {
        assert (a + b)[j] == b[j - |a|];
      }
    }
  }

  lemma LineResultsProps(path: string, k: nat, lines: seq<string>, term: string,
                         caseSensitive: bool, wholeWord: bool)
    requires k < |lines|
    ensures AllCorrect(LineResults(path, k + 1, lines[k], term, caseSensitive, wholeWord),
                       path, lines, term, caseSensitive, wholeWord)
    ensures AllOnLine(LineResults(path, k + 1, lines[k], term, caseSensitive, wholeWord), k + 1)
    ensures forall p :: IsMatch(lines[k], term, caseSensitive, wholeWord, p) ==>
              Reported(LineResults(path, k + 1, lines[k], term, caseSensitive, wholeWord), k + 1, p)
    ensures Ordered(LineResults(path, k + 1, lines[k], term, caseSensitive, wholeWord))
  {
    var hay := Normalize(lines[k], caseSensitive);
    var needle := Normalize(term, caseSensitive);
    NormalizeLength(lines[k], caseSensitive);
    NormalizeLength(term, caseSensitive);
    var ps := ScanLine(hay, needle, wholeWord, 0);
    var lr := LineResults(path, k + 1, lines[k], term, caseSensitive, wholeWord);
    assert |lr| == |ps|;
    forall j | 0 <= j < |lr|
      ensures lr[j].lineNumber == k + 1 && Correct(lr[j], path, lines, term, caseSensitive, wholeWord)
    {
      assert lr[j] == SearchResult(path, k + 1, Strip(lines[k]), ps[j], ps[j] + |term|);
      assert Hit(hay, needle, wholeWord, ps[j]);
    }
    forall p | IsMatch(lines[k], term, caseSensitive, wholeWord, p)
      ensures Reported(lr, k + 1, p)
    {
      assert p in ps;
      var j :| 0 <= j < |ps| && ps[j] == p;
      assert lr[j].lineNumber == k + 1 && lr[j].matchStart == p;
    }
    forall i, j | 0 <= i < j < |lr|
      ensures Before(lr[i], lr[j])
    {
      assert lr[i].matchStart == ps[i] && lr[j].matchStart == ps[j];
    }
  }

  /** The outer loop over the lines from index `k` on. */
  function SearchFrom(path: string, lines: seq<string>, k: nat, term: string,
                      caseSensitive: bool, wholeWord: bool): seq<SearchResult>
    decreases |lines| - k
  {
    if k >= |lines| then []
    else LineResults(path, k + 1, lines[k], term, caseSensitive, wholeWord)
         + SearchFrom(path, lines, k + 1, term, caseSensitive, wholeWord)
  }

  lemma ReportedConcat(a: seq<SearchResult>, b: seq<SearchResult>, ln: int, p: int)
    ensures Reported(a + b, ln, p) <==> Reported(a, ln, p) || Reported(b, ln, p)
  {
    if Reported(a, ln, p) {
      var j :| 0 <= j < |a| && a[j].lineNumber == ln && a[j].matchStart == p;
      assert (a + b)[j] == a[j];
    }
    if Reported(b, ln, p) {
      var j :| 0 <= j < |b| && b[j].lineNumber == ln && b[j].matchStart == p;
      assert (a + b)[|a| + j] == b[j];
    }
    if Reported(a + b, ln, p) {
      var j :| 0 <= j < |a + b| && (a + b)[j].lineNumber == ln && (a + b)[j].matchStart == p;
      if j < |a| {
        assert a[j] == (a + b)[j];
      } else {
        assert b[j - |a|] == (a + b)[j];
      }
    }
  }

  /** Every result from line `k + 1` on is a correct result on a later line. */
  lemma {:induction false} SearchFromCorrect(path: string, lines: seq<string>, k: nat, term: string,
                                             caseSensitive: bool, wholeWord: bool)
    ensures AllCorrect(SearchFrom(path, lines, k, term, caseSensitive, wholeWord),
                       path, lines, term, caseSensitive, wholeWord)
    ensures AllAfter(SearchFrom(path, lines, k, term, caseSensitive, wholeWord), k)
    decreases |lines| - k
  {
    if k < |lines| {
      var lr := LineResults(path, k + 1, lines[k], term, caseSensitive, wholeWord);
      var rest := SearchFrom(path, lines, k + 1, term, caseSensitive, wholeWord);
      assert SearchFrom(path, lines, k, term, caseSensitive, wholeWord) == lr + rest;
      LineResultsProps(path, k, lines, term, caseSensitive, wholeWord);
      SearchFromCorrect(path, lines, k + 1, term, caseSensitive, wholeWord);
      AllCorrectConcat(lr, rest, path, lines, term, caseSensitive, wholeWord);
      AllAfterConcat(lr, rest, k);
    }
  }

  /** Every match on a line after `k` is reported. */
  lemma {:induction false} SearchFromComplete(path: string, lines: seq<string>, k: nat, term: string,
                                              caseSensitive: bool, wholeWord: bool)
    ensures forall ln, p :: k < ln <= |lines| && IsMatch(lines[ln - 1], term, caseSensitive, wholeWord, p)
              ==> Reported(SearchFrom(path, lines, k, term, caseSensitive, wholeWord), ln, p)
    decreases |lines| - k
  {
    if k < |lines| {
      var lr := LineResults(path, k + 1, lines[k], term, caseSensitive, wholeWord);
      var rest := SearchFrom(path, lines, k + 1, term, caseSensitive, wholeWord);
      assert SearchFrom(path, lines, k, term, caseSensitive, wholeWord) == lr + rest;
      LineResultsProps(path, k, lines, term, caseSensitive, wholeWord);
      SearchFromComplete(path, lines, k + 1, term, caseSensitive, wholeWord);
      CompleteConcat(lr, rest, lines, k, term, caseSensitive, wholeWord);
    }
  }

  /** The results of line `k + 1` followed by complete results for the later
      lines are complete for the lines after `k`. */
  lemma CompleteConcat(lr: seq<SearchResult>, rest: seq<SearchResult>, lines: seq<string>, k: nat,
                       term: string, caseSensitive: bool, wholeWord: bool)
    requires k < |lines|
    requires forall p :: IsMatch(lines[k], term, caseSensitive, wholeWord, p) ==> Reported(lr, k + 1, p)
    requires forall ln, p :: k + 1 < ln <= |lines| && IsMatch(lines[ln - 1], term, caseSensitive, wholeWord, p)
               ==> Reported(rest, ln, p)
    ensures forall ln, p :: k < ln <= |lines| && IsMatch(lines[ln - 1], term, caseSensitive, wholeWord, p)
              ==> Reported(lr + rest, ln, p)
  {
    forall ln, p | k < ln <= |lines| && IsMatch(lines[ln - 1], term, caseSensitive, wholeWord, p)
      ensures Reported(lr + rest, ln, p)
    {
      ReportedConcat(lr, rest, ln, p);
    }
  }

  /** The results from line `k + 1` on are in strict (line, start) order. */
  lemma {:induction false} SearchFromOrdered(path: string, lines: seq<string>, k: nat, term: string,
                                             caseSensitive: bool, wholeWord: bool)
    ensures Ordered(SearchFrom(path, lines, k, term, caseSensitive, wholeWord))
    decreases |lines| - k
  {
    if k < |lines| {
      var lr := LineResults(path, k + 1, lines[k], term, caseSensitive, wholeWord);
      var rest := SearchFrom(path, lines, k + 1, term, caseSensitive, wholeWord);
      assert SearchFrom(path, lines, k, term, caseSensitive, wholeWord) == lr + rest;
      LineResultsProps(path, k, lines, term, caseSensitive, wholeWord);
      SearchFromCorrect(path, lines, k + 1, term, caseSensitive, wholeWord);
      SearchFromOrdered(path, lines, k + 1, term, caseSensitive, wholeWord);
      OrderedConcat(lr, rest, k + 1);
    }
  }

  /** A reported position is a match on an existing line. */
  lemma ReportedIsMatch(rs: seq<SearchResult>, path: string, lines: seq<string>, term: string,
                        caseSensitive: bool, wholeWord: bool, ln: int, p: int)
    requires AllCorrect(rs, path, lines, term, caseSensitive, wholeWord)
    requires Reported(rs, ln, p)
    ensures 1 <= ln <= |lines| && IsMatch(lines[ln - 1], term, caseSensitive, wholeWord, p)
  {
    var j :| 0 <= j < |rs| && rs[j].lineNumber == ln && rs[j].matchStart == p;
    CorrectIsMatch(rs[j], path, lines, term, caseSensitive, wholeWord, ln, p);
  }

  /** A correct result at line `ln` and start `p` is a match there. */
  lemma CorrectIsMatch(r: SearchResult, path: string, lines: seq<string>, term: string,
                       caseSensitive: bool, wholeWord: bool, ln: int, p: int)
    requires Correct(r, path, lines, term, caseSensitive, wholeWord)
    requires r.lineNumber == ln && r.matchStart == p
    ensures 1 <= ln <= |lines| && IsMatch(lines[ln - 1], term, caseSensitive, wholeWord, p)
  {
  }

  /** `_search_in_text`: every result is correct, every match is reported,
      and results come in (line, start) order, each position once. */
  function SearchInText(text: string, term: string, path: string,
                        caseSensitive: bool, wholeWord: bool): (rs: seq<SearchResult>)
    ensures forall j :: 0 <= j < |rs| ==> Correct(rs[j], path, Split(text), term, caseSensitive, wholeWord)
    ensures forall ln, p :: Reported(rs, ln, p) <==>
              1 <= ln <= |Split(text)| && IsMatch(Split(text)[ln - 1], term, caseSensitive, wholeWord, p)
    ensures Ordered(rs)
  {
    var lines := Split(text);
    var rs := SearchFrom(path, lines, 0, term, caseSensitive, wholeWord);
    SearchFromCorrect(path, lines, 0, term, caseSensitive, wholeWord);
    SearchFromComplete(path, lines, 0, term, caseSensitive, wholeWord);
    SearchFromOrdered(path, lines, 0, term, caseSensitive, wholeWord);
    assert forall ln, p :: Reported(rs, ln, p) ==> 1 <= ln <= |lines| && IsMatch(lines[ln - 1], term, caseSensitive, wholeWord, p) by {
      forall ln, p | Reported(rs, ln, p)
        ensures 1 <= ln <= |lines| && IsMatch(lines[ln - 1], term, caseSensitive, wholeWord, p)
      {
        ReportedIsMatch(rs, path, lines, term, caseSensitive, wholeWord, ln, p);
      }
    }
    rs
  }

  /** A located result is determined by its line and its start. */
  lemma LocatedUnique(a: SearchResult, b: SearchResult, path: string, lines: seq<string>, term: string)
    requires Located(a, path, lines, term) && Located(b, path, lines, term)
    requires a.lineNumber == b.lineNumber && a.matchStart == b.matchStart
    ensures a == b
  {
  }

  /** A correct result is exactly the one the search reports at its position:
      the other fields are determined by the line and the start. */
  lemma CorrectResultIsFound(text: string, term: string, path: string,
                             caseSensitive: bool, wholeWord: bool, r: SearchResult)
    requires Correct(r, path, Split(text), term, caseSensitive, wholeWord)
    ensures r in SearchInText(text, term, path, caseSensitive, wholeWord)
  {
    var lines := Split(text);
    var rs := SearchInText(text, term, path, caseSensitive, wholeWord);
    assert Reported(rs, r.lineNumber, r.matchStart);
    ReportedCorrectIn(rs, path, lines, term, caseSensitive, wholeWord, r);
  }

  /** In a list of correct results, a correct result whose position is
      reported is itself in the list. */
  lemma ReportedCorrectIn(rs: seq<SearchResult>, path: string, lines: seq<string>, term: string,
                          caseSensitive: bool, wholeWord: bool, r: SearchResult)
    requires AllCorrect(rs, path, lines, term, caseSensitive, wholeWord)
    requires Correct(r, path, lines, term, caseSensitive, wholeWord)
    requires Reported(rs, r.lineNumber, r.matchStart)
    ensures r in rs
  {
    var j :| 0 <= j < |rs| && rs[j].lineNumber == r.lineNumber && rs[j].matchStart == r.matchStart;
    assert Correct(rs[j], path, lines, term, caseSensitive, wholeWord);
    LocatedUnique(rs[j], r, path, lines, term);
  }

  /** Lower-casing the text does not change the whole-word verdict. */
  lemma WholeWordFold(text: string, pos: int, length: int)
    requires 0 <= pos <= |text| && 0 <= length
    ensures IsWholeWord(Fold(text), pos, length) == IsWholeWord(text, pos, length)
  {
    if pos > 0 {
      AlnumFold(text[pos - 1]);
    }
    if pos + length < |text| {
      AlnumFold(text[pos + length]);
    }
  }

  /** The result `r` passes the whole-word test on its (normalized) line. */
  predicate WholeWordResult(r: SearchResult, lines: seq<string>, term: string, caseSensitive: bool) {
    && 1 <= r.lineNumber <= |lines|
    && 0 <= r.matchStart <= |Normalize(lines[r.lineNumber - 1], caseSensitive)|
    && IsWholeWord(Normalize(lines[r.lineNumber - 1], caseSensitive), r.matchStart, |Normalize(term, caseSensitive)|)
  }

  /** Turning on whole-word mode only removes results: the whole-word
      results are exactly the plain results that pass the whole-word test. */
  lemma WholeWordOnlyRemoves(text: string, term: string, path: string, caseSensitive: bool, r: SearchResult)
    ensures r in SearchInText(text, term, path, caseSensitive, true)
        <==> r in SearchInText(text, term, path, caseSensitive, false)
             && WholeWordResult(r, Split(text), term, caseSensitive)
  {
    if r in SearchInText(text, term, path, caseSensitive, true) {
      WholeWordIsPlain(text, term, path, caseSensitive, r);
    }
    if r in SearchInText(text, term, path, caseSensitive, false) && WholeWordResult(r, Split(text), term, caseSensitive) {
      PlainWholeWordIsWhole(text, term, path, caseSensitive, r);
    }
  }

  lemma WholeWordIsPlain(text: string, term: string, path: string, caseSensitive: bool, r: SearchResult)
    requires r in SearchInText(text, term, path, caseSensitive, true)
    ensures r in SearchInText(text, term, path, caseSensitive, false)
    ensures WholeWordResult(r, Split(text), term, caseSensitive)
  {
    var whole := SearchInText(text, term, path, caseSensitive, true);
    var j :| 0 <= j < |whole| && whole[j] == r;
    assert Correct(r, path, Split(text), term, caseSensitive, true);
    CorrectResultIsFound(text, term, path, caseSensitive, false, r);
  }

  lemma PlainWholeWordIsWhole(text: string, term: string, path: string, caseSensitive: bool, r: SearchResult)
    requires r in SearchInText(text, term, path, caseSensitive, false)
    requires WholeWordResult(r, Split(text), term, caseSensitive)
    ensures r in SearchInText(text, term, path, caseSensitive, true)
  {
    var plain := SearchInText(text, term, path, caseSensitive, false);
    var j :| 0 <= j < |plain| && plain[j] == r;
    assert Correct(r, path, Split(text), term, caseSensitive, false);
    CorrectResultIsFound(text, term, path, caseSensitive, true, r);
  }

  /** Turning on case sensitivity only removes results: every exact-case
      result is also a result of the case-insensitive search. */
  lemma CaseSensitiveOnlyRemoves(text: string, term: string, path: string, wholeWord: bool, r: SearchResult)
    requires r in SearchInText(text, term, path, true, wholeWord)
    ensures r in SearchInText(text, term, path, false, wholeWord)
  {
    var lines := Split(text);
    var exact := SearchInText(text, term, path, true, wholeWord);
    var j :| 0 <= j < |exact| && exact[j] == r;
    assert Correct(r, path, lines, term, true, wholeWord);
    var line := lines[r.lineNumber - 1];
    OccursFold(line, term, r.matchStart);
    if wholeWord {
      WholeWordFold(line, r.matchStart, |term|);
    }
    assert IsMatch(line, term, false, wholeWord, r.matchStart);
    CorrectResultIsFound(text, term, path, false, wholeWord, r);
  }

  /** Searching the empty text for a non-empty term finds nothing. */
  lemma EmptyTextNoResults(term: string, path: string, caseSensitive: bool, wholeWord: bool)
    requires term != []
    ensures SearchInText([], term, path, caseSensitive, wholeWord) == []
  {
    var lines := Split([]);
    assert lines == [[]];
    var needle := Normalize(term, caseSensitive);
    NormalizeLength(term, caseSensitive);
    assert FindFrom(Normalize([], caseSensitive), needle, 0) == None;
    assert ScanLine(Normalize([], caseSensitive), needle, wholeWord, 0) == [];
    assert LineResults(path, 1, [], term, caseSensitive, wholeWord) == [];
    assert SearchFrom(path, lines, 1, term, caseSensitive, wholeWord) == [];
  }

  /** How a find-all request ends: refused for an empty search text or an
      empty file set, or else the files with matches, each with its
      results, and the total number of matches. */
  datatype FindOutcome =
    | EmptySearchText
    | NoFilesToSearch
    | Found(fileResults: seq<(string, seq<SearchResult>)>, total: nat)

  /** No path is listed twice. */
  predicate DistinctPaths(entries: seq<(string, seq<SearchResult>)>) {
    forall i, j :: 0 <= i < j < |entries| ==> entries[i].0 != entries[j].0
  }

  /** `path` is listed in `entries`. */
  ghost predicate Listed(entries: seq<(string, seq<SearchResult>)>, path: string) {
    exists k :: 0 <= k < |entries| && entries[k].0 == path
  }

  /** `file_results[path] = matches` on an insertion-ordered dict: an
      existing key keeps its place and gets the new value, a new key is
      appended. */
  function Assign(entries: seq<(string, seq<SearchResult>)>, path: string,
                  matches: seq<SearchResult>): (r: seq<(string, seq<SearchResult>)>)
    requires DistinctPaths(entries)
    ensures DistinctPaths(r)
    ensures forall k :: 0 <= k < |r| && r[k].0 == path ==> r[k].1 == matches
    ensures Listed(r, path)
    ensures forall k :: 0 <= k < |r| && r[k].0 != path ==> r[k] in entries
    ensures forall e :: e in entries && e.0 != path ==> e in r
    ensures Listed(entries, path) ==> |r| == |entries| && forall k :: 0 <= k < |r| ==> r[k].0 == entries[k].0
    ensures !Listed(entries, path) ==> r == entries + [(path, matches)]
  {
    if entries == [] then
      var r := [(path, matches)];
      assert r[0].0 == path;
      r
    else if entries[0].0 == path then
      assert forall e :: e in entries[1..] ==> e.0 != path;
      var r := [(path, matches)] + entries[1..];
      assert r[0].0 == path;
      assert Listed(entries, path) by { assert entries[0].0 == path; }
      r
    else
      var rest := Assign(entries[1..], path, matches);
      AssignBehind(entries, path, matches, rest);
      AssignPlaceBehind(entries, path, matches, rest);
      [entries[0]] + rest
  }

  /** Putting back the first entry keeps the places of the listed paths, and
      keeps a new path at the end. */
  lemma AssignPlaceBehind(entries: seq<(string, seq<SearchResult>)>, path: string,
                          matches: seq<SearchResult>, rest: seq<(string, seq<SearchResult>)>)
    requires entries != [] && entries[0].0 != path
    requires Listed(entries[1..], path) ==>
               |rest| == |entries[1..]| && forall k :: 0 <= k < |rest| ==> rest[k].0 == entries[1..][k].0
    requires !Listed(entries[1..], path) ==> rest == entries[1..] + [(path, matches)]
    ensures Listed(entries, path) ==>
              |[entries[0]] + rest| == |entries|
              && forall k :: 0 <= k < |[entries[0]] + rest| ==> ([entries[0]] + rest)[k].0 == entries[k].0
    ensures !Listed(entries, path) ==> [entries[0]] + rest == entries + [(path, matches)]
  {
    if Listed(entries, path) {
      var k :| 0 <= k < |entries| && entries[k].0 == path;
      assert entries[1..][k - 1].0 == path;
    } else {
      assert !Listed(entries[1..], path) by {
        forall k | 0 <= k < |entries[1..]| ensures entries[1..][k].0 != path {
          assert entries[1..][k] == entries[k + 1];
        }
      }
      assert entries == [entries[0]] + entries[1..];
    }
  }

  /** Putting back the first entry, whose path is not `path`, in front of
      the assignment into the remaining entries. */
  lemma AssignBehind(entries: seq<(string, seq<SearchResult>)>, path: string,
                     matches: seq<SearchResult>, rest: seq<(string, seq<SearchResult>)>)
    requires DistinctPaths(entries) && entries != [] && entries[0].0 != path
    requires DistinctPaths(rest) && Listed(rest, path)
    requires forall k :: 0 <= k < |rest| && rest[k].0 == path ==> rest[k].1 == matches
    requires forall k :: 0 <= k < |rest| && rest[k].0 != path ==> rest[k] in entries[1..]
    requires forall e :: e in entries[1..] && e.0 != path ==> e in rest
    ensures DistinctPaths([entries[0]] + rest) && Listed([entries[0]] + rest, path)
    ensures forall k :: 0 <= k < |[entries[0]] + rest| && ([entries[0]] + rest)[k].0 == path
              ==> ([entries[0]] + rest)[k].1 == matches
    ensures forall k :: 0 <= k < |[entries[0]] + rest| && ([entries[0]] + rest)[k].0 != path
              ==> ([entries[0]] + rest)[k] in entries
    ensures forall e :: e in entries && e.0 != path ==> e in [entries[0]] + rest
  {
    var r := [entries[0]] + rest;
    assert forall k :: 1 <= k < |r| ==> r[k] == rest[k - 1];
    forall k | 0 <= k < |rest| ensures rest[k].0 != entries[0].0 {
      if rest[k].0 != path {
        var e := rest[k];
        assert e in entries[1..];
        var i :| 0 <= i < |entries[1..]| && entries[1..][i] == e;
        assert entries[i + 1] == e;
      }
    }
    var k :| 0 <= k < |rest| && rest[k].0 == path;
    assert r[k + 1].0 == path;
    forall e | e in entries && e.0 != path ensures e in r {
      if e != entries[0] {
        var i :| 0 <= i < |entries| && entries[i] == e;
        assert e in entries[1..] by { assert entries[1..][i - 1] == e; }
      }
    }
  }

  /** Total number of matches over a sequence of `(path, content)` files. */
  function TotalMatches(files: seq<(string, string)>, term: string,
                        caseSensitive: bool, wholeWord: bool): nat
  {
    if files == [] then 0
    else
      var last := files[|files| - 1];
      TotalMatches(files[..|files| - 1], term, caseSensitive, wholeWord)
        + |SearchInText(last.1, term, last.0, caseSensitive, wholeWord)|
  }

  /** The search loop of `find_all` over the files in order, recording the
      results of every file that has any. */
  function Collect(files: seq<(string, string)>, term: string, caseSensitive: bool,
                   wholeWord: bool): (entries: seq<(string, seq<SearchResult>)>)
    ensures DistinctPaths(entries)
  {
    if files == [] then []
    else
      var prev := Collect(files[..|files| - 1], term, caseSensitive, wholeWord);
      var f := files[|files| - 1];
      var matches := SearchInText(f.1, term, f.0, caseSensitive, wholeWord);
      if matches != [] then Assign(prev, f.0, matches) else prev
  }

  /** `e` holds the results of one of `files` with `e`'s path. */
  ghost predicate FromSomeFile(e: (string, seq<SearchResult>), files: seq<(string, string)>, term: string,
                               caseSensitive: bool, wholeWord: bool)
  {
    exists f :: f in files && f.0 == e.0 && e.1 == SearchInText(f.1, term, f.0, caseSensitive, wholeWord)
  }

  /** Every entry is a non-empty result list of some file of that path. */
  ghost predicate EntriesFromFiles(entries: seq<(string, seq<SearchResult>)>, files: seq<(string, string)>,
                                   term: string, caseSensitive: bool, wholeWord: bool)
  {
    forall k :: 0 <= k < |entries| ==>
      entries[k].1 != [] && FromSomeFile(entries[k], files, term, caseSensitive, wholeWord)
  }

  /** Every file with a match has its path listed. */
  ghost predicate FilesWithMatchesListed(entries: seq<(string, seq<SearchResult>)>, files: seq<(string, string)>,
                                         term: string, caseSensitive: bool, wholeWord: bool)
  {
    forall f :: f in files && SearchInText(f.1, term, f.0, caseSensitive, wholeWord) != [] ==> Listed(entries, f.0)
  }

  /** Every recorded entry is the non-empty result list of a file of that path. */
  lemma {:induction false} CollectFromFiles(files: seq<(string, string)>, term: string,
                                            caseSensitive: bool, wholeWord: bool)
    ensures EntriesFromFiles(Collect(files, term, caseSensitive, wholeWord), files, term, caseSensitive, wholeWord)
  {
    if files != [] {
      var init := files[..|files| - 1];
      var f := files[|files| - 1];
      assert files == init + [f];
      var prev := Collect(init, term, caseSensitive, wholeWord);
      var matches := SearchInText(f.1, term, f.0, caseSensitive, wholeWord);
      CollectFromFiles(init, term, caseSensitive, wholeWord);
      if matches == [] {
        assert Collect(files, term, caseSensitive, wholeWord) == prev;
        forall k | 0 <= k < |prev|
          ensures prev[k].1 != [] && FromSomeFile(prev[k], files, term, caseSensitive, wholeWord)
        {
          FromSomeFileOfPrefix(prev[k], files, term, caseSensitive, wholeWord);
        }
      } else {
        var entries := Assign(prev, f.0, matches);
        assert Collect(files, term, caseSensitive, wholeWord) == entries;
        forall k | 0 <= k < |entries|
          ensures entries[k].1 != [] && FromSomeFile(entries[k], files, term, caseSensitive, wholeWord)
        {
          if entries[k].0 == f.0 {
            assert f in files;
          } else {
            var k' :| 0 <= k' < |prev| && prev[k'] == entries[k];
            FromSomeFileOfPrefix(entries[k], files, term, caseSensitive, wholeWord);
          }
        }
      }
    }
  }

  /** An entry from a file of `files` minus its last file is from a file of `files`. */
  lemma FromSomeFileOfPrefix(e: (string, seq<SearchResult>), files: seq<(string, string)>, term: string,
                             caseSensitive: bool, wholeWord: bool)
    requires files != [] && FromSomeFile(e, files[..|files| - 1], term, caseSensitive, wholeWord)
    ensures FromSomeFile(e, files, term, caseSensitive, wholeWord)
  {
    var g :| g in files[..|files| - 1] && g.0 == e.0 && e.1 == SearchInText(g.1, term, g.0, caseSensitive, wholeWord);
    assert g in files;
  }

  /** An entry from a file of `files` carries the path of one of them. */
  lemma FromSomeFilePath(e: (string, seq<SearchResult>), files: seq<(string, string)>, term: string,
                         caseSensitive: bool, wholeWord: bool)
    requires FromSomeFile(e, files, term, caseSensitive, wholeWord)
    ensures exists i :: 0 <= i < |files| && files[i].0 == e.0
  {
    var g :| g in files && g.0 == e.0 && e.1 == SearchInText(g.1, term, g.0, caseSensitive, wholeWord);
    var i :| 0 <= i < |files| && files[i] == g;
  }

  /** Every file with a match is recorded. */
  lemma {:induction false} CollectListsMatches(files: seq<(string, string)>, term: string,
                                               caseSensitive: bool, wholeWord: bool)
    ensures FilesWithMatchesListed(Collect(files, term, caseSensitive, wholeWord), files, term, caseSensitive, wholeWord)
  {
    if files != [] {
      var init := files[..|files| - 1];
      var f := files[|files| - 1];
      assert files == init + [f];
      var prev := Collect(init, term, caseSensitive, wholeWord);
      var matches := SearchInText(f.1, term, f.0, caseSensitive, wholeWord);
      CollectListsMatches(init, term, caseSensitive, wholeWord);
      var entries := Collect(files, term, caseSensitive, wholeWord);
      forall g | g in files && SearchInText(g.1, term, g.0, caseSensitive, wholeWord) != []
        ensures Listed(entries, g.0)
      {
        if g != f {
          assert g in init;
          if !(matches != [] && g.0 == f.0) {
            var k :| 0 <= k < |prev| && prev[k].0 == g.0;
            assert prev[k] in entries;
          }
        }
      }
    }
  }

  /** The match total is zero exactly when nothing was recorded. */
  lemma {:induction false} CollectEmptyIffNoMatches(files: seq<(string, string)>, term: string,
                                                    caseSensitive: bool, wholeWord: bool)
    ensures TotalMatches(files, term, caseSensitive, wholeWord) == 0
        <==> Collect(files, term, caseSensitive, wholeWord) == []
  {
    if files != [] {
      var init := files[..|files| - 1];
      var f := files[|files| - 1];
      var matches := SearchInText(f.1, term, f.0, caseSensitive, wholeWord);
      CollectEmptyIffNoMatches(init, term, caseSensitive, wholeWord);
      var entries := Collect(files, term, caseSensitive, wholeWord);
      if matches != [] {
        assert Listed(entries, f.0);
      }
    }
  }

  /** The paths of `entries`, in order. */
  function Paths(entries: seq<(string, seq<SearchResult>)>): seq<string> {
    seq(|entries|, k requires 0 <= k < |entries| => entries[k].0)
  }

  /** `ps` with every repetition dropped, each path kept where it first
      appears: the key order of a dict filled with `ps` in order. */
  function FirstOccurrences(ps: seq<string>): seq<string> {
    if ps == [] then []
    else
      var seen := FirstOccurrences(ps[..|ps| - 1]);
      if ps[|ps| - 1] in seen then seen else seen + [ps[|ps| - 1]]
  }

  /** The paths of the files with a match, in file order, repetitions kept. */
  function MatchedPaths(files: seq<(string, string)>, term: string, caseSensitive: bool,
                        wholeWord: bool): seq<string>
  {
    if files == [] then []
    else
      var f := files[|files| - 1];
      MatchedPaths(files[..|files| - 1], term, caseSensitive, wholeWord)
        + (if SearchInText(f.1, term, f.0, caseSensitive, wholeWord) != [] then [f.0] else [])
  }

  /** The recorded paths are the paths of the files with a match, in the
      order in which each first had one. */
  lemma {:induction false} CollectOrder(files: seq<(string, string)>, term: string,
                                        caseSensitive: bool, wholeWord: bool)
    ensures Paths(Collect(files, term, caseSensitive, wholeWord))
            == FirstOccurrences(MatchedPaths(files, term, caseSensitive, wholeWord))
  {
    if files != [] {
      var init := files[..|files| - 1];
      var f := files[|files| - 1];
      var prev := Collect(init, term, caseSensitive, wholeWord);
      var matches := SearchInText(f.1, term, f.0, caseSensitive, wholeWord);
      CollectOrder(init, term, caseSensitive, wholeWord);
      var before := MatchedPaths(init, term, caseSensitive, wholeWord);
      assert MatchedPaths(files, term, caseSensitive, wholeWord) == before + (if matches != [] then [f.0] else []);
      if matches != [] {
        FirstOccurrencesSnoc(before, f.0);
        AppendPath(prev, f.0, matches);
        assert Collect(files, term, caseSensitive, wholeWord) == Assign(prev, f.0, matches);
      } else {
        assert before + [] == before;
        assert Collect(files, term, caseSensitive, wholeWord) == prev;
      }
    }
  }

  lemma FirstOccurrencesSnoc(ps: seq<string>, p: string)
    ensures FirstOccurrences(ps + [p])
            == if p in FirstOccurrences(ps) then FirstOccurrences(ps) else FirstOccurrences(ps) + [p]
  {
    var all := ps + [p];
    assert all[..|all| - 1] == ps && all[|all| - 1] == p;
  }

  /** Assigning to a listed path keeps the paths; assigning to a new one
      appends it. */
  lemma AppendPath(prev: seq<(string, seq<SearchResult>)>, path: string, matches: seq<SearchResult>)
    requires DistinctPaths(prev)
    ensures Paths(Assign(prev, path, matches))
            == if path in Paths(prev) then Paths(prev) else Paths(prev) + [path]
  {
    var r := Assign(prev, path, matches);
    if path in Paths(prev) {
      var k :| 0 <= k < |prev| && Paths(prev)[k] == path;
      assert prev[k].0 == path;
      assert Paths(r) == Paths(prev);
    } else {
      assert !Listed(prev, path) by {
        forall k | 0 <= k < |prev| ensures prev[k].0 != path {
          assert Paths(prev)[k] == prev[k].0;
        }
      }
      assert Paths(r) == Paths(prev) + [path];
    }
  }

  /** No two files share a path. */
  predicate DistinctFilePaths(files: seq<(string, string)>) {
    forall i, j :: 0 <= i < j < |files| ==> files[i].0 != files[j].0
  }

  /** The number of results recorded over all entries. */
  function RecordedCount(entries: seq<(string, seq<SearchResult>)>): nat {
    if entries == [] then 0
    else RecordedCount(entries[..|entries| - 1]) + |entries[|entries| - 1].1|
  }

  /** When no two files share a path, no recorded list is overwritten, so
      the match total is the number of recorded results. */
  lemma {:induction false} CollectTotal(files: seq<(string, string)>, term: string,
                                        caseSensitive: bool, wholeWord: bool)
    ensures DistinctFilePaths(files) ==>
              TotalMatches(files, term, caseSensitive, wholeWord)
              == RecordedCount(Collect(files, term, caseSensitive, wholeWord))
  {
    if files != [] && DistinctFilePaths(files) {
      var init := files[..|files| - 1];
      var f := files[|files| - 1];
      var prev := Collect(init, term, caseSensitive, wholeWord);
      var matches := SearchInText(f.1, term, f.0, caseSensitive, wholeWord);
      assert DistinctFilePaths(init);
      CollectTotal(init, term, caseSensitive, wholeWord);
      assert TotalMatches(files, term, caseSensitive, wholeWord)
             == RecordedCount(prev) + |matches|;
      if matches != [] {
        NewPathNotListed(files, term, caseSensitive, wholeWord);
        var r := prev + [(f.0, matches)];
        assert Collect(files, term, caseSensitive, wholeWord) == Assign(prev, f.0, matches) == r;
        assert r[..|r| - 1] == prev;
        assert RecordedCount(r) == RecordedCount(prev) + |matches|;
      } else {
        assert Collect(files, term, caseSensitive, wholeWord) == prev;
      }
    }
  }

  /** With distinct paths, the last file's path is not among those recorded
      for the files before it. */
  lemma NewPathNotListed(files: seq<(string, string)>, term: string, caseSensitive: bool, wholeWord: bool)
    requires files != [] && DistinctFilePaths(files)
    ensures !Listed(Collect(files[..|files| - 1], term, caseSensitive, wholeWord), files[|files| - 1].0)
  {
    var init := files[..|files| - 1];
    var f := files[|files| - 1];
    var prev := Collect(init, term, caseSensitive, wholeWord);
    CollectFromFiles(init, term, caseSensitive, wholeWord);
    forall k | 0 <= k < |prev| ensures prev[k].0 != f.0 {
      FromSomeFilePath(prev[k], init, term, caseSensitive, wholeWord);
      var i :| 0 <= i < |init| && init[i].0 == prev[k].0;
      assert files[i] == init[i];
    }
  }

  /** `find_all` without the dialog: an empty search text and an empty file
      set are refused; otherwise every file is searched, the files with
      matches are listed once each with their results, and the matches are
      counted. */
  function FindAll(files: seq<(string, string)>, term: string, caseSensitive: bool,
                   wholeWord: bool): (o: FindOutcome)
    ensures o.EmptySearchText? <==> term == []
    ensures o.NoFilesToSearch? <==> term != [] && files == []
    ensures o.Found? ==> DistinctPaths(o.fileResults)
    ensures o.Found? ==> EntriesFromFiles(o.fileResults, files, term, caseSensitive, wholeWord)
    ensures o.Found? ==> FilesWithMatchesListed(o.fileResults, files, term, caseSensitive, wholeWord)
    ensures o.Found? ==> (o.total == 0 <==> o.fileResults == [])
    ensures o.Found? ==> Paths(o.fileResults) == FirstOccurrences(MatchedPaths(files, term, caseSensitive, wholeWord))
    ensures o.Found? && DistinctFilePaths(files) ==> o.total == RecordedCount(o.fileResults)
  {
    if term == [] then EmptySearchText
    else if files == [] then NoFilesToSearch
    else
      CollectFromFiles(files, term, caseSensitive, wholeWord);
      CollectListsMatches(files, term, caseSensitive, wholeWord);
      CollectEmptyIffNoMatches(files, term, caseSensitive, wholeWord);
      CollectOrder(files, term, caseSensitive, wholeWord);
      CollectTotal(files, term, caseSensitive, wholeWord);
      Found(Collect(files, term, caseSensitive, wholeWord), TotalMatches(files, term, caseSensitive, wholeWord))
  }
}
