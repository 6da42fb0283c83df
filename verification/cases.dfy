/** Concrete cases of the search and the replacement, among them the ones
    the repository's tests check (tests/test_multi_file_find.py). */
module Cases {
  import opened Strings
  import opened Lines
  import opened Search
  import opened Positions
  import opened Replace

  /** `hello` and `world` are whole words of `hello world`; `est` inside
      `testing` is not. */
  lemma WholeWordCases()
    ensures IsWholeWord("hello world", 0, 5)
    ensures IsWholeWord("hello world", 6, 5)
    ensures !IsWholeWord("testing", 1, 3)
  {
    assert "hello world"[5] == ' ';
    assert "testing"[0] == 't';
  }

  /** A one-line text with one result whose term is still in place, in
      either case mode. */
  lemma OneLineOneResult(text: string, r: SearchResult, term: string, repl: string, caseSensitive: bool)
    requires '\n' !in text && r.lineNumber == 1 && OccursAt(text, term, r.matchStart)
    ensures ReplaceInText(text, [r], term, repl, caseSensitive) == Splice(text, r.matchStart, |term|, repl)
  {
    SplitSingle(text);
    OccursFold(text, term, r.matchStart);
    SingleResult([text], r, term, repl, caseSensitive);
  }

  /** Replacing the `b` of `a b c` by the longer `longer` rewrites it in
      place and shifts the rest of the line, in either case mode. */
  lemma LongerReplacement(text: string, caseSensitive: bool)
    requires text == "a b c"
    ensures ReplaceInText(text, [SearchResult("test.txt", 1, text, 2, 3)], "b", "longer", caseSensitive) == "a longer c"
  {
    assert text[2..3] == "b";
    OneLineOneResult(text, SearchResult("test.txt", 1, text, 2, 3), "b", "longer", caseSensitive);
    assert Splice(text, 2, 1, "longer") == "a longer c";
  }

  /** Replacing `world` in `Hello world` by nothing deletes it. */
  lemma EmptyReplacement(text: string, caseSensitive: bool)
    requires text == "Hello world"
    ensures ReplaceInText(text, [SearchResult("test.txt", 1, text, 6, 11)], "world", "", caseSensitive) == "Hello "
  {
    assert text[6..11] == "world";
    OneLineOneResult(text, SearchResult("test.txt", 1, text, 6, 11), "world", "", caseSensitive);
    assert Splice(text, 6, 5, "") == "Hello ";
  }

  /** A line with exactly one selected start, where the term still occurs,
      gets that occurrence rewritten, in either case mode. */
  lemma OneStartOnLine(lines: seq<string>, rs: seq<SearchResult>, term: string, repl: string,
                       caseSensitive: bool, i: int, s: int)
    requires 0 <= i < |lines| && StartsOn(Keys(rs), i + 1) == [s] && OccursAt(lines[i], term, s)
    ensures ReplaceLines(lines, rs, term, repl, caseSensitive)[i] == Splice(lines[i], s, |term|, repl)
  {
    ReplaceLinesPerLine(lines, rs, term, repl, caseSensitive, i, [s]);
    OccursFold(lines[i], term, s);
    assert [s][1..] == [];
  }

  /** Two newline-free lines joined by a newline split back into the two. */
  lemma TwoLineText(a: string, b: string)
    requires '\n' !in a && '\n' !in b
    ensures Split(a + "\n" + b) == [a, b]
  {
    SplitAfterLine(a, b);
    SplitSingle(b);
  }

  function HelloOn(lineNumber: int, lineText: string): SearchResult {
    SearchResult("test.txt", lineNumber, lineText, 0, 5)
  }

  lemma TwoLineStarts(a: string, b: string)
    ensures StartsOn(Keys([HelloOn(1, a), HelloOn(2, b)]), 1) == [0]
    ensures StartsOn(Keys([HelloOn(1, a), HelloOn(2, b)]), 2) == [0]
  {
    var ks := Keys([HelloOn(1, a), HelloOn(2, b)]);
    assert ks == [Pos(1, 0), Pos(2, 0)];
    assert ks[1..] == [Pos(2, 0)] && ks[1..][1..] == [];
    assert StartsOn(ks[1..], 1) == [] && StartsOn(ks[1..], 2) == [0];
  }

  /** Each of two lines starting with the term gets that occurrence rewritten. */
  lemma TwoLinesRewritten(a: string, b: string, repl: string, caseSensitive: bool)
    requires OccursAt(a, "Hello", 0) && OccursAt(b, "Hello", 0)
    ensures ReplaceLines([a, b], [HelloOn(1, a), HelloOn(2, b)], "Hello", repl, caseSensitive)
            == [Splice(a, 0, 5, repl), Splice(b, 0, 5, repl)]
  {
    var rs := [HelloOn(1, a), HelloOn(2, b)];
    TwoLineStarts(a, b);
    OneStartOnLine([a, b], rs, "Hello", repl, caseSensitive, 0, 0);
    OneStartOnLine([a, b], rs, "Hello", repl, caseSensitive, 1, 0);
  }

  /** A two-line text whose lines both start with the term. */
  lemma TwoLinesText(a: string, b: string, repl: string, caseSensitive: bool)
    requires '\n' !in a && '\n' !in b && OccursAt(a, "Hello", 0) && OccursAt(b, "Hello", 0)
    ensures ReplaceInText(a + "\n" + b, [HelloOn(1, a), HelloOn(2, b)], "Hello", repl, caseSensitive)
            == Splice(a, 0, 5, repl) + "\n" + Splice(b, 0, 5, repl)
  {
    TwoLineText(a, b);
    TwoLinesRewritten(a, b, repl, caseSensitive);
    var x, y := Splice(a, 0, 5, repl), Splice(b, 0, 5, repl);
    JoinCons(x, [y]);
    assert [x] + [y] == [x, y];
  }

  /** Replacing the `Hello` that starts each line of `Hello world` /
      `Hello again` by `Hi`, in either case mode. */
  lemma TwoLines(a: string, b: string, repl: string, caseSensitive: bool)
    requires a == "Hello world" && b == "Hello again" && repl == "Hi"
    ensures ReplaceInText(a + "\n" + b, [HelloOn(1, a), HelloOn(2, b)], "Hello", repl, caseSensitive)
            == "Hi world" + "\n" + "Hi again"
  {
    HelloLine(a, " world", "Hi world");
    HelloLine(b, " again", "Hi again");
    TwoLinesText(a, b, repl, caseSensitive);
  }

  /** A line `Hello` + `rest` without a newline: the term occurs at its
      start, and rewriting it gives `Hi` + `rest`. */
  lemma HelloLine(line: string, rest: string, out: string)
    requires line == "Hello" + rest && out == "Hi" + rest && '\n' !in rest
    ensures '\n' !in line && OccursAt(line, "Hello", 0) && Splice(line, 0, 5, "Hi") == out
  {
    assert line[0..5] == "Hello" && line[5..] == rest;
  }

  function Test(line: string, start: int): SearchResult {
    SearchResult("test.txt", 1, line, start, start + 4)
  }

  /** The three `test` of `test test test`, on line 1 at 0, 5 and 10. */
  lemma ThreeStarts(line: string)
    ensures StartsOn(Keys([Test(line, 0), Test(line, 5), Test(line, 10)]), 1) == [0, 5, 10]
  {
    var ks := Keys([Test(line, 0), Test(line, 5), Test(line, 10)]);
    assert ks == [Pos(1, 0), Pos(1, 5), Pos(1, 10)];
    assert ks[1..] == [Pos(1, 5), Pos(1, 10)] && ks[1..][1..] == [Pos(1, 10)] && ks[1..][1..][1..] == [];
    assert StartsOn(ks[1..][1..], 1) == [10];
    assert StartsOn(ks[1..], 1) == [5, 10];
  }

  lemma ThreePlan(line: string)
    requires line == "test test test"
    ensures SplicePlan(line, [0, 5, 10], 4, 0) && AllOccur(line, [0, 5, 10], "test", true)
  {
    assert line[0..4] == "test";
    assert line[5..9] == "test";
    assert line[10..14] == "test";
  }

  lemma ThreeTail(line: string)
    requires line == "test test test"
    ensures SplicePlan(line, [5, 10], 4, 4)
    ensures Spliced(line, [5, 10], 4, "TEST", 4) == " TEST TEST"
  {
    assert SplicePlan(line, [5, 10], 4, 4);
    SplicedStep(line, [5, 10], 4, "TEST", 4);
    assert [5, 10][1..] == [10];
    SplicedLast(line, 10, 4, "TEST", 9);
    assert line[4..5] == " ";
    assert Splice(line, 10, 4, "TEST") == "test test TEST";
    assert "test test TEST"[9..] == " TEST";
  }

  /** Rewriting the three of them gives `TEST TEST TEST`. */
  lemma ThreeSpliced(line: string)
    requires line == "test test test"
    ensures SplicePlan(line, [0, 5, 10], 4, 0)
    ensures Spliced(line, [0, 5, 10], 4, "TEST", 0) == "TEST TEST TEST"
  {
    ThreePlan(line);
    ThreeTail(line);
    SplicedStep(line, [0, 5, 10], 4, "TEST", 0);
    assert [0, 5, 10][1..] == [5, 10];
  }

  /** A one-line text with a replacement as long as the term. */
  lemma OneLineSameLength(line: string, rs: seq<SearchResult>, term: string, repl: string,
                          caseSensitive: bool, ss: seq<int>)
    requires '\n' !in line && |repl| == |term|
    requires multiset(ss) == multiset(StartsOn(Keys(rs), 1))
    requires SplicePlan(line, ss, |term|, 0) && AllOccur(line, ss, term, caseSensitive)
    ensures ReplaceInText(line, rs, term, repl, caseSensitive) == Spliced(line, ss, |term|, repl, 0)
  {
    OneLineText(line, rs, term, repl, caseSensitive);
    assert [line][0] == line;
    SameLengthAllApplied([line], rs, term, repl, caseSensitive, 0, ss);
  }

  /** Replacing all three `test` of `test test test` by `TEST`, in either
      case mode: a replacement as long as the term, so every one is applied. */
  lemma ThreeOnOneLine(line: string, caseSensitive: bool)
    requires line == "test test test"
    ensures ReplaceInText(line, [Test(line, 0), Test(line, 5), Test(line, 10)], "test", "TEST", caseSensitive)
            == "TEST TEST TEST"
  {
    ThreePlan(line);
    AllOccurAnyCase(line, [0, 5, 10], "test", caseSensitive);
    ThreeSpliced(line);
    var rs := [Test(line, 0), Test(line, 5), Test(line, 10)];
    assert ReplaceInText(line, rs, "test", "TEST", caseSensitive) == Spliced(line, [0, 5, 10], 4, "TEST", 0) by {
      ThreeStarts(line);
      OneLineSameLength(line, rs, "test", "TEST", caseSensitive, [0, 5, 10]);
    }
  }

  /** Replacing the term by itself restores the text only in case-sensitive
      mode: in case-insensitive mode the found text takes the term's case. */
  lemma CaseInsensitiveRoundTripChangesCase(text: string)
    requires text == "Hello"
    ensures ReplaceInText(text, [SearchResult("f", 1, text, 0, 5)], "hello", "hello", false) == "hello"
  {
    var r := SearchResult("f", 1, text, 0, 5);
    SplitSingle(text);
    assert Fold(text) == "hello";
    assert Fold("hello") == "hello";
    assert OccursAt(Normalize(text, false), Normalize("hello", false), 0);
    SingleResult([text], r, "hello", "hello", false);
  }
}
