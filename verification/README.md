# Multi-file find and replace: the string engine

This project models the pure string logic behind the editor's "Find in
Files" dialog (`MultiFileFindDialog`). It covers:

- the `SearchResult` record;
- the whole-word test `_is_whole_word`;
- the line-by-line literal search `_search_in_text`;
- the rewrite of the selected results `_replace_in_text`;
- what `find_all` does with those pieces:
  - it refuses an empty search text or an empty file set;
  - it searches every file in order;
  - it records the files with matches in an insertion-ordered dict;
  - it counts the matches.

The two checkboxes of the dialog become the parameters `caseSensitive` and
`wholeWord`. The files to search become a sequence of `(path, content)` pairs.

Modules:

- `Strings` (strings.dfy) holds the character primitives:
  - ASCII lower-casing, `str.isalnum` and `str.isspace`;
  - literal occurrence `OccursAt`;
  - `str.find(sub, start)` as `FindFrom`, which returns the least index at or after `start`, or `None` for Python's `-1`;
  - `str.strip()`.
- `Lines` (lines.dfy) holds `text.split('\n')` and `'\n'.join(lines)`. Joining the lines of a split text gives the text back. Splitting joined lines gives the lines back only when there is at least one line and no line contains a newline.
- `Search` (search.dfy) holds the search side:
  - the result record and the whole-word test;
  - the scan of one line, which resumes one character after every position found, so overlapping matches are reported;
  - the search of a text;
  - the `find_all` loop and its outcome.
- `Positions` (positions.dfy) holds the `(line_number, match_start)` sort key, the sort, and the starts that fall on one line.
- `Replace` (replace.dfy) holds `_replace_in_text` as written. Each sorted result rewrites its line only if the term (lower-cased when case-insensitive) is still found exactly at its recorded start. It also holds the reference definition `Spliced` of "every selected occurrence rewritten".
- `ReplaceRightToLeft` (replace_rtl.dfy) holds the corrected replacement and the worked examples of the finding below.
- `Cases` (cases.dfy) holds concrete inputs taken from tests/test_multi_file_find.py.

## Model

| member | source | states |
|---|---|---|
| Strings.FindFrom | src/multi_file_find.py:253 | `find` returns an index at or after the start where the term occurs, and no earlier such index exists. `None` means the term occurs nowhere at or after the start. |
| Strings.Lower | src/multi_file_find.py:248-249 | Definition of lower-casing one character: `A`..`Z` map to `a`..`z`, everything else is kept. Its behaviour is stated by `Strings.AlnumFold` and `Search.WholeWordFold`. |
| Strings.Fold | src/multi_file_find.py:248-249 | Definition of `str.lower()` on a string, one character at a time. Its behaviour is stated by `Strings.NormalizeLength`, `Strings.OccursFold` and `Search.WholeWordFold`. |
| Strings.Normalize | src/multi_file_find.py:248-249 | Definition of the text a search scans: the string itself in case-sensitive mode, its lower-cased form otherwise. Its behaviour is stated by `Strings.NormalizeLength` and `Strings.OccursFold`. |
| Strings.NormalizeLength | src/multi_file_find.py:248-249 | Lower-casing keeps the length, so a position on the scanned line is the same position on the original line. |
| Strings.OccursFold | src/multi_file_find.py:248-249 | An occurrence of the term stays an occurrence, at the same position, after both texts are lower-cased. |
| Strings.IsAlnum | src/multi_file_find.py:278-279 | Definition of `str.isalnum()` on one character: an ASCII letter or digit. Its behaviour is stated by `Strings.AlnumFold` and `Search.WholeWordFold`. |
| Strings.AlnumFold | src/multi_file_find.py:278-279 | Lower-casing a character does not change whether it is alphanumeric. |
| Strings.IsSpace | src/multi_file_find.py:266 | Definition of `str.isspace()` on one character, over the code points Python treats as whitespace. Its behaviour is stated by `Strings.StripTrims`. |
| Strings.Strip | src/multi_file_find.py:266 | Definition of `str.strip()`. Its behaviour is stated by `Strings.StripTrims`. |
| Strings.StripTrims | src/multi_file_find.py:266 | The stored line text is a contiguous piece of the line. Everything cut from either end is whitespace, and the piece neither starts nor ends with whitespace. |
| Lines.Split | src/multi_file_find.py:245 | Splitting on `'\n'` gives one more line than there are newlines, and no line contains a newline. The empty text is one empty line (`Lines.SplitEmpty`). |
| Lines.SplitEmpty | src/multi_file_find.py:245 | The empty text splits into a single empty line. |
| Lines.PrependChar | src/multi_file_find.py:245 | Putting a character in front of the first line keeps the line count and puts the character in front of the joined text. A character other than a newline adds no newline to any line. |
| Lines.Join | src/multi_file_find.py:431 | Definition of `'\n'.join(lines)`. Its behaviour is stated by `Lines.JoinSplit` and `Lines.SplitJoin`. |
| Lines.JoinSplit | src/multi_file_find.py:411-431 | Joining the split lines with `'\n'` gives the original text back. |
| Lines.SplitJoin | src/multi_file_find.py:411-431 | Splitting joined newline-free lines gives the lines back. |
| Search.IsWholeWord | src/multi_file_find.py:276-280 | Definition: the match is preceded by the start of the line or a non-alphanumeric character, and followed by the end of the line or a non-alphanumeric character. Its behaviour is stated by `Search.WholeWordFold`, `Search.WholeWordOnlyRemoves` and `Cases.WholeWordCases`. |
| Search.WholeWordFold | src/multi_file_find.py:276-280 | The whole-word verdict is the same on the lower-cased line as on the original line. |
| Search.ScanLine | src/multi_file_find.py:251-272 | The inner `find` loop yields exactly the positions where the term occurs (and passes the whole-word test when asked). Overlapping positions are included, each once, in strictly increasing order. |
| Search.LineResults | src/multi_file_find.py:251-272 | Definition of the results for one line. Its behaviour is stated by `Search.LineResultsProps`, which is built on `Search.ScanLine`. |
| Search.LineResultsProps | src/multi_file_find.py:251-272 | Every result of one line is correct and on that line. Every match on the line is reported. The results are in strictly increasing order of start. |
| Search.SearchFrom | src/multi_file_find.py:247-272 | Definition of the loop over the lines from a given index on. Its behaviour is stated by `Search.SearchInText`. |
| Search.SearchInText | src/multi_file_find.py:242-274 | Every result is in bounds and correct: its line number is in 1..number of lines, it holds the path and the stripped line, its match end is its start plus the term length and lies within the line, and the normalized term occurs at its start (passing the whole-word test when asked). A position is reported iff it is such a match. Results are ordered by line, then strictly by start. |
| Search.CorrectResultIsFound | src/multi_file_find.py:263-269 | Any correct result record is among the search results. A result is determined by its line and start. |
| Search.WholeWordOnlyRemoves | src/multi_file_find.py:257-261 | The whole-word results are exactly the plain results that pass the whole-word test. |
| Search.CaseSensitiveOnlyRemoves | src/multi_file_find.py:248-249 | Every case-sensitive result is also a case-insensitive result. |
| Search.EmptyTextNoResults | tests/test_multi_file_find.py:176-180 | Searching the empty text for a non-empty term reports nothing. |
| Search.Assign | src/multi_file_find.py:186 | `file_results[path] = matches` on an insertion-ordered dict: paths stay distinct, `path` is listed with the new matches, and every other entry is kept and none is invented. A path already listed keeps its place and every path keeps its index. A new path is appended at the end. |
| Search.Collect | src/multi_file_find.py:183-187 | The loop over the files lists each path at most once. |
| Search.CollectFromFiles | src/multi_file_find.py:183-187 | Every recorded entry is the non-empty search result of a file with that path. |
| Search.CollectListsMatches | src/multi_file_find.py:183-187 | Every file with a match has its path recorded. |
| Search.CollectEmptyIffNoMatches | src/multi_file_find.py:183-197 | The match total is zero exactly when no file was recorded, which is when "No matches found" is reported. |
| Search.TotalMatches | src/multi_file_find.py:182-187 | Definition of `total_matches`: the sum over the files of the number of search results. Its behaviour is stated by `Search.CollectTotal` and `Search.CollectEmptyIffNoMatches`. |
| Search.FindAll | src/multi_file_find.py:162-197 | An empty search text is refused, and exactly then. Otherwise an empty file set is refused, and exactly then. Otherwise the recorded files are distinct, each holds its own search results, every file with a match is recorded, and the total is zero iff nothing was recorded. The recorded paths are the paths of the files with a match, in the order in which each first had one. When no two files share a path, the total is the number of recorded results. |
| Search.CollectOrder | src/multi_file_find.py:183-187 | The dict's key order: the recorded paths are those of the files with a match, without repetitions, in the order of each path's first file with a match. |
| Search.CollectTotal | src/multi_file_find.py:183-187 | When no two files share a path, `total_matches` equals the number of results recorded over all entries. |
| Positions.SortPos | src/multi_file_find.py:415 | The sort by `(line_number, match_start)` gives a lexicographically sorted permutation of the keys. |
| Positions.SortedStartsOn | src/multi_file_find.py:415 | After the sort, the starts on each line are the line's starts in ascending order. |
| Replace.LineStep | src/multi_file_find.py:421-429 | One result rewrites its line to `line[:s] + replacement + line[s+len(term):]` iff the (normalized) term occurs exactly at `s`. Otherwise the line is unchanged. |
| Replace.Splice | src/multi_file_find.py:429 | Definition of `line[:pos] + replacement + line[pos+len(search_text):]`. Its behaviour is stated by `Replace.LineStep`. |
| Replace.ApplyOne | src/multi_file_find.py:418-429 | Definition of one pass of the loop, including the `0 <= line_idx < len(lines)` test. Its behaviour is stated by `Replace.OutOfRangeIgnored` and `Replace.ApplyAllPerLine`. |
| Replace.ApplyAll | src/multi_file_find.py:417-429 | Definition of the `for result in sorted_results` loop over results in a given order. Its behaviour is stated by `Replace.ApplyAllPerLine`. |
| Replace.LineApply | src/multi_file_find.py:417-429 | Definition of the steps the loop performs on one line, in a given order of starts. Its behaviour is stated by `Replace.ApplyAllPerLine` and `Replace.SameLengthAllApplied`. |
| Replace.ReplaceLines | src/multi_file_find.py:415-429 | Definition of the sort by `(line_number, match_start)` followed by the loop. Its behaviour is stated by `Replace.ReplaceLinesPerLine` and `Replace.OrderIndependent`. |
| Replace.ReplaceInText | src/multi_file_find.py:409-431 | Definition of `_replace_in_text`: split, sort the keys, apply each step, join. Its behaviour is stated by `Replace.ReplaceLinesPerLine`, `Replace.OrderIndependent`, `Replace.OutOfRangeIgnored`, `Replace.StaleResultSkipped`, `Replace.ReplaceNothing`, `Replace.LineCountPreserved`, `Replace.ReplaceWithTermIsIdentity` and `Replace.SameLengthAllApplied`. |
| Replace.ApplyAllPerLine | src/multi_file_find.py:417-429 | The loop keeps the number of lines. Each line receives only the steps of the results on it, in the order they are taken. |
| Replace.ReplaceLinesPerLine | src/multi_file_find.py:415-429 | Each output line is that line's own steps taken in ascending order of start, whatever order the results were supplied in. |
| Replace.OrderIndependent | src/multi_file_find.py:415 | The output does not depend on the order in which the results are supplied. |
| Replace.OutOfRangeIgnored | src/multi_file_find.py:418-419 | Results whose line number lies outside the text change nothing. |
| Replace.UntouchedLine | src/multi_file_find.py:417-429 | A line that no result points at is unchanged. |
| Replace.SingleResult | src/multi_file_find.py:417-429 | A single result splices its line iff the term is still at its start. Otherwise the lines are unchanged. |
| Replace.StaleResultSkipped | src/multi_file_find.py:428 | A result whose term is no longer at its recorded start leaves the text unchanged. |
| Replace.ReplaceNothing | src/multi_file_find.py:409-431 | An empty selection gives the text back. |
| Replace.LineCountPreserved | src/multi_file_find.py:411-431 | With a newline-free replacement, the output splits into exactly the rewritten lines, so the line count is unchanged. |
| Replace.ReplaceWithTermIsIdentity | src/multi_file_find.py:409-431 | In case-sensitive mode, replacing any selection by the term itself gives the text back. |
| Replace.SearchReplaceRoundTrip | src/multi_file_find.py:409-431 | A case-sensitive search followed by replacing every result with the term reproduces the text. |
| Replace.SameLengthAllApplied | src/multi_file_find.py:409-431 | The replacement has the same length as the term, and the selected occurrences on a line do not overlap. Then every selected occurrence is rewritten, giving the reference splice. |
| ReplaceRightToLeft.ReplaceInTextRightToLeft | src/multi_file_find.py:409-431 | Definition of the corrected replacement: each line's sorted results are applied from the last to the first. Its behaviour is stated by `ReplaceRightToLeft.RightToLeftAllApplied` and `ReplaceRightToLeft.SameLengthAgrees`. |
| ReplaceRightToLeft.RightToLeftAllApplied | src/multi_file_find.py:409-431 | The corrected replacement takes each line's results from last to first. It rewrites every selected, still present, non-overlapping occurrence, whatever the replacement's length. |
| ReplaceRightToLeft.SameLengthAgrees | src/multi_file_find.py:409-431 | For a replacement as long as the term, the corrected and the as-written replacement agree on every line whose selected occurrences do not overlap and are still present. |
| ReplaceRightToLeft.UntouchedLineRightToLeft | src/multi_file_find.py:417-429 | The corrected replacement also leaves lines without results unchanged. |
| ReplaceRightToLeft.OffsetDriftAsWritten | src/multi_file_find.py:412-429 | As written, replacing both `x` of `x x` by `yy` gives `yy x`: the second result is skipped. |
| ReplaceRightToLeft.OffsetDriftCorrected | src/multi_file_find.py:409-431 | The corrected replacement turns `x x` into `yy yy`. |
| ReplaceRightToLeft.HelloDriftAsWritten | src/multi_file_find.py:412-429 | As written, replacing the three `Hello` of `Hello World Hello Hello` by `Hi` gives `Hi World Hello Hello`. |
| ReplaceRightToLeft.HelloDriftCorrected | src/multi_file_find.py:409-431 | The corrected replacement gives `Hi World Hi Hi`. |
| ReplaceRightToLeft.WrongTextAsWritten | src/multi_file_find.py:412-429 | As written, replacing both `a` of `a a` by `aaa` gives `aaaaa a`. The second step finds, at the stale start 2, an `a` written by the first step, and rewrites it instead of the line's second `a`. |
| ReplaceRightToLeft.WrongTextCorrected | src/multi_file_find.py:409-431 | The corrected replacement turns `a a` into `aaa aaa`. |
| ReplaceRightToLeft.OverlapSearched | src/multi_file_find.py:251-272 | The search for `aa` in `aaa` reports both overlapping occurrences, at 0 and at 1. |
| ReplaceRightToLeft.OverlapOrderMatters | src/multi_file_find.py:415-429 | Given those two overlapping results and `aa` → `bb`, the code as written gives `bba` and the corrected replacement gives `abb`. Neither rewrites both occurrences. |
| Cases.WholeWordCases | tests/test_multi_file_find.py:101-113 | `hello` and `world` are whole words of `hello world`; `est` in `testing` is not. |
| Cases.TwoLines | tests/test_multi_file_find.py:130-139 | `Hello world` / `Hello again` with `Hello` → `Hi` at the start of both lines becomes `Hi world` / `Hi again`, in either case mode. |
| Cases.ThreeOnOneLine | tests/test_multi_file_find.py:142-152 | `test test test` with all three results and `test` → `TEST` becomes `TEST TEST TEST`, in either case mode. |
| Cases.LongerReplacement | tests/test_multi_file_find.py:196-202 | `a b c` with `b` → `longer` becomes `a longer c`. |
| Cases.EmptyReplacement | tests/test_multi_file_find.py:205-211 | `Hello world` with `world` → empty becomes `Hello `. |
| Cases.CaseInsensitiveRoundTripChangesCase | src/multi_file_find.py:421-429 | In case-insensitive mode, replacing the term by itself does not restore the text. `Hello` with the term `hello` becomes `hello`: the match is found on the lower-cased line, but the literal replacement is written. |

## Left out

- The Qt dialog is not modelled: widgets, the results tree, double-click navigation and the status label. The status label is modelled only as the `FindOutcome` cases; its message text and pluralisation are not.
- Gathering the files is not modelled. `_get_open_tabs`, `_get_directory_files` and `_find_editor_for_file` enumerate widgets and walk the filesystem. The files to search are a parameter.
- `_perform_replacements` and the replace-all flow are not modelled: they write to editors or disk and show message boxes. Their reported count adds `len(results)` even when `_replace_in_text` skipped a stale result.
- The extra copy of every result appended to `self.results` during a search is dropped. The search returns its list, and that list is the one recorded per file.
- `self.results_tree.clear()` and the resetting of `self.results` are dropped. `FindAll` is a pure function of its inputs.
- Strings.Lower: lower-casing covers only `A`..`Z`. Python's `str.lower` follows Unicode, so case-insensitive search here does not find `É` for the term `é`, where the source does.
- Strings.Fold: the fold is character by character and keeps the length. Python's `str.lower` can change a string's length, which would make positions on the lower-cased line differ from positions on the original line. That case is not modelled.
- Strings.IsAlnum: only ASCII letters and digits count as alphanumeric. Python's `str.isalnum` also accepts other Unicode letters and digits, such as `é`.
- Search.IsWholeWord: because of `Strings.IsAlnum`, a non-ASCII letter next to a match counts as a word boundary. In `café`, the term `caf` is accepted as a whole word (and reported by `Search.SearchInText` in whole-word mode), while the source's test at src/multi_file_find.py:276-280 rejects it, since `'é'.isalnum()` is true. The whole-word results are exact only for text whose letters and digits are ASCII.
- `str.isspace`, used by `strip`, is modelled with the code points Python treats as whitespace.
- A negative `match_start` in the replace step never matches. Python's `find` with a negative start counts from the end, but the index it returns is never negative, so the `pos == result.match_start` test fails.
- The search does not require a non-empty term. `find_all` refuses an empty term. Called directly with an empty term, the scan reports every position of the line (`|line| + 1` of them), and `SearchInText`'s contract covers that case too.
- The search tests on literal texts (whole-word and case counts, multi-line whole word) are not restated on literals. The general contracts of `SearchInText`, `WholeWordOnlyRemoves` and `CaseSensitiveOnlyRemoves` cover them.
- Search.FindAll: the total is stated as the number of recorded results only when no two files share a path. With a repeated path, the dict keeps only the last matching file's results, while `total_matches` counts the matches of every file. Both sources of files give distinct paths: `_get_open_tabs` skips a path it has already seen (src/multi_file_find.py:204-212), and the directory walk lists each file under its one extension.
- src/main_window.py and src/markdown_preview.py are not part of this model. They hold menu wiring and a markdown preview.

## Findings

| source | as written | input that shows it | evidently intended | confidence | as-written member | corrected member |
|---|---|---|---|---|---|---|
| src/multi_file_find.py:412-429 | The sorted results are applied left to right at their original starts, and the `offset` variable is never updated. After a replacement of a different length, every later result on the same line points at a shifted position. Such a result is skipped as stale, or rewrites the wrong text. | Text `x x`, results at 0 and 2, term `x`, replacement `yy`: the output is `yy x`. Likewise `Hello World Hello Hello` with `Hello` → `Hi` gives `Hi World Hello Hello`. And `a a` with both `a` → `aaa` gives `aaaaa a`: the wrong text is rewritten. | Every selected occurrence is replaced ("accounting for position changes", line 410), giving `yy yy`, `Hi World Hi Hi` and `aaa aaa`. | not executed | ReplaceRightToLeft.OffsetDriftAsWritten | ReplaceRightToLeft.RightToLeftAllApplied |

The corrected replacement, `ReplaceRightToLeft.ReplaceInTextRightToLeft`, applies each line's sorted results from the last to the first, so no rewrite moves a start still to be used. `ReplaceRightToLeft.OffsetDriftCorrected`, `ReplaceRightToLeft.HelloDriftCorrected` and `ReplaceRightToLeft.WrongTextCorrected` prove that it gives the intended outputs on the three inputs above, and `ReplaceRightToLeft.WrongTextAsWritten` proves the wrong-text output of the code as written. `ReplaceRightToLeft.SameLengthAgrees` proves that it agrees with the code as written when the replacement is as long as the term and the selected occurrences on a line do not overlap and are still present.

The correction does change behaviour on overlapping selections, which the search produces because it resumes one character after each match. Given `aaa` with results at 0 and 1, term `aa` and replacement `bb`, the code as written rewrites the first occurrence and gives `bba`. The corrected replacement rewrites the second and gives `abb` (`ReplaceRightToLeft.OverlapOrderMatters`). Neither version can rewrite both overlapping occurrences.
