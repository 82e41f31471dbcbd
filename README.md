# compare_assets in Dafny

A verified model of the asset differ in `scripts/compare_assets.py`. The script
compares a root asset tree with a template asset tree. Every relative path found
in either tree gets one of four statuses:

- `identical`: in both trees, and the SHA-256 digests of the two files agree;
- `different`: in both trees, and the digests differ;
- `missing`: in the template only;
- `additional`: in the root only.

The script also keeps a counter per status and returns a report with a total and
an identical ratio. It renders that report as text: a header, one line per path,
and a summary block in a fixed status order, optionally coloured with ANSI codes.

The modules follow the script:

- `Order` (`order.dfy`): the lexicographic order on sequences that Python uses
  for strings and for lists, and the proof that it is a strict total order.
- `Text` (`text.dfy`): the string operations the report uses:
  - `join`, `ljust`, `upper` and `title` on ASCII text;
  - `str` of a non-negative integer.

  It also defines `split`, which the script never calls. It is the inverse of
  `join` and is used only to show that a joined text reads back into its parts.
- `Paths` (`paths.dfy`): relative paths as lists of components, ordered the way
  `pathlib` orders them (component by component), and `sorted` on a set of
  paths.
- `Differ` (`differ.dfy`): `compare_assets`, a method with a loop over the
  sorted union of paths. It is proved against `Describes`, a predicate that
  says what a correct report of two trees is.
- `TextReport` (`text_report.dfy`): `build_text_report`, a method with its two
  loops, proved against `ReportLines`, the list of lines the report consists
  of.

Inputs the script gets from outside are parameters of the model:

- Each tree is a map keyed by the relative paths that `gather_files` and
  `relative_to` build from a directory. In the script the map's values are the
  absolute file paths. In the model they stand for the bytes that `hash_file`
  would read from those files.
- `hash_file` is `digest`, an arbitrary function of those bytes. The differ
  only compares two digests for equality.
- The `:.2f` rendering of the ratio and of the percentages is `fmt`, an
  arbitrary function from a number to text.

Where the code says more than a short description of the tool would, the model
follows the code:

- The status label is `ljust(9)`: it is padded on the right and never cut, so
  `ADDITIONAL` is ten characters wide.
- With colour on, a result line is coloured as a whole, but a summary line is
  coloured only around its title.
- Paths sort by comparing their components, not the joined strings: `a/b`
  comes before `a-b`.
- An empty comparison has an identical ratio of 100 in the header, but its
  summary shows 0 percent for every status.

## Model

| member | source | states |
|---|---|---|
| Differ.CompareAssets | scripts/compare_assets.py:35-72 | The report lists each path of the union exactly once, in sorted order. Each path gets the status of the four-way rule. Each counter equals the number of entries with its status. The total is the number of entries. The ratio is the identical ratio of the counters. |
| Differ.ClassifyPath | scripts/compare_assets.py:48-59 | The status chosen for a path present in either tree follows the four-way rule: both with equal digests gives identical, both with different digests gives different, template only gives missing, root only gives additional. |
| Differ.StatusDetermined | scripts/compare_assets.py:51-59 | The four-way rule gives every path of the union exactly one status: some status obeys it, and no two do. |
| Differ.StatusesComplete | scripts/compare_assets.py:43 | Every status there is has a counter from the start. |
| Differ.CountsCoverResults | scripts/compare_assets.py:61-64 | Every entry is counted by exactly one counter, so the four counters add up to the number of entries. |
| Differ.IdenticalRatio | scripts/compare_assets.py:65 | The ratio is 100 when there are no paths. Otherwise it times the total equals 100 times the identical count. It lies between 0 and 100. It is 100 exactly when every path is identical. |
| Differ.EveryPathReported | scripts/compare_assets.py:45-47 | A path appears in the results if and only if it is in the root or in the template. |
| Differ.ResultsInPathOrder | scripts/compare_assets.py:45-47 | The result paths are strictly increasing, so no path is reported twice. |
| Differ.TotalIsUnionSize | scripts/compare_assets.py:45 | The total equals the sum of the four counters, and it equals the size of the union of the two trees' paths. The ratio lies between 0 and 100. |
| Differ.ReportDeterministic | scripts/compare_assets.py:35-72 | Two reports that both describe the same two trees are equal: the report is a function of the trees and the digest. |
| Differ.SameTreesAllIdentical | scripts/compare_assets.py:51-53 | Two trees with the same paths and the same content at every path give only identical entries, zero for the other counters, and a ratio of 100. |
| Differ.ScenarioOrder | scripts/compare_assets.py:45 | `a.txt` sorts before `b.txt`. |
| Differ.ScenarioMissingFile | scripts/compare_assets.py:35-72 | Root `{a.txt}`, template `{a.txt, b.txt}` with the same `a.txt`: the entries are `a.txt` identical then `b.txt` missing, the counters are 1/0/1/0, and the ratio is 50. |
| Differ.AllObeyAt | scripts/compare_assets.py:47-62 | When every entry appended so far obeyed the rule, each entry of the list obeys it. |
| Paths.SortedPaths | scripts/compare_assets.py:45 | `sorted` lists only paths of the set. |
| Paths.SortedPathsComplete | scripts/compare_assets.py:45 | `sorted` lists every path of the set, and its length is the size of the set. |
| Paths.SortedPathsIncreasing | scripts/compare_assets.py:45 | `sorted` lists the paths in strictly increasing `pathlib` order. |
| Paths.SortedPathsUnique | scripts/compare_assets.py:45 | Any strictly increasing list with the same paths as a set is `sorted` of that set. |
| Paths.IncreasingIsDistinct | scripts/compare_assets.py:45 | A strictly increasing list of paths has no repeats. |
| Paths.Least | scripts/compare_assets.py:45 | The chosen path is in the set and before every other path of it. |
| Paths.LeastUnique | scripts/compare_assets.py:45 | A set has at most one least path. |
| Paths.PathLessTransitive | scripts/compare_assets.py:45 | `pathlib`'s order on paths is transitive. |
| Paths.PathLessTotal | scripts/compare_assets.py:45 | Any two distinct paths are ordered one way or the other. |
| Paths.PathLessIrreflexive | scripts/compare_assets.py:45 | No path comes before itself. |
| Paths.PathText | scripts/compare_assets.py:62 | `str(rel_path)` loses nothing: when no component holds a `/`, splitting the text at `/` gives the components back. |
| Order.LexStrictTotalOrder | scripts/compare_assets.py:45 | The lexicographic extension of a strict total order is irreflexive, transitive and total. |
| Text.SplitJoin | scripts/compare_assets.py:102 | Splitting a joined list at the separator gives the list back when no part holds the separator. |
| Text.JoinSplit | scripts/compare_assets.py:102 | The other direction of the `join` round trip: joining the pieces of a split gives the string back, so `split` loses nothing either. |
| Text.Ljust | scripts/compare_assets.py:87 | `ljust` keeps the text as a prefix, pads it with spaces on the right to the width, and never shortens it. |
| Text.Upper | scripts/compare_assets.py:87 | `upper` keeps the length, upper-cases each character, and leaves no lower-case letter. |
| Text.TitleWord | scripts/compare_assets.py:99 | `title` of a lower-case word capitalises its first letter and keeps the rest. |
| Text.NatToString | scripts/compare_assets.py:82 | `str` of a count is a non-empty string of decimal digits with no leading zero. |
| Text.DecimalRoundTrip | scripts/compare_assets.py:100 | The digits of `str(n)` read back as `n`. |
| TextReport.HeaderLine | scripts/compare_assets.py:81-83 | The header is `Compared {total} root files; {identical} identical ({ratio}%).`. When the rendered ratio holds no space, splitting the header at spaces gives exactly seven words. The second word is `str` of the total, the fifth is `str` of the identical count, and the last is the rendered ratio in parentheses followed by `%).`. |
| TextReport.ResultLine | scripts/compare_assets.py:85-90 | After the colour code, a result line holds the bracketed label and a space, then the path's text, then the reset code. The path's text starts and ends at positions fixed by the status and the colour flag alone. |
| TextReport.SummaryTail | scripts/compare_assets.py:95-100 | After the title and its codes, a summary line reads `: {count} files ({percent}%)`. When the rendered percentage holds no space, splitting at spaces gives `:`, `str` of the count, `files` and the percentage in parentheses. |
| TextReport.SummaryLine | scripts/compare_assets.py:97-100 | A summary line holds its title right after the colour code, and the tail right after the reset code. |
| TextReport.BuildTextReport | scripts/compare_assets.py:78-102 | The text is the report's lines joined by newlines. The lines are the header, one line per result in order, a blank line, `Summary:`, and the summary lines in `SUMMARY_ORDER`. |
| TextReport.ReportLayout | scripts/compare_assets.py:75-100 | The report has 1 + results + 2 + 4 lines. It starts with the header, then the result lines in order, then the blank line and `Summary:`, then the identical, different, missing and additional summary lines. |
| TextReport.TextSplitsIntoLines | scripts/compare_assets.py:102 | When no path component and no rendered number holds a newline, splitting the text at newlines gives back exactly the report's lines, 1 + results + 6 of them. |
| TextReport.LabelText | scripts/compare_assets.py:87 | The label is the upper-cased status padded to 9: `IDENTICAL`, `DIFFERENT`, `MISSING` plus two spaces, and `ADDITIONAL`, which is 10 wide and not cut. |
| TextReport.SummaryTitleText | scripts/compare_assets.py:99 | The summary title is the title-cased status padded to 9. |
| TextReport.Color | scripts/compare_assets.py:12-18 | Each status colour is a five-character ANSI code that starts with the escape character. |
| TextReport.ColoredResultLine | scripts/compare_assets.py:88-90 | Without colour a result line is the bracketed label and the path. With colour it is that same line wrapped whole in its status colour and the reset code. |
| TextReport.ColoredSummaryLine | scripts/compare_assets.py:97-100 | Without colour a summary line is the title followed by the count and percentage. With colour, the status colour comes before the title and the reset code right after it. |
| TextReport.LinesAvoid | scripts/compare_assets.py:81-100 | A control character that is in no path component and in no rendered number is in no line of the report. With colour on, the escape character is the exception. |
| TextReport.NoEscapeWithoutColor | scripts/compare_assets.py:88-89 | Without colour no line holds the escape character. Every colour code and the reset code hold it, so no line holds any of them. |
| TextReport.Percent | scripts/compare_assets.py:96 | The summary percentage is 0 when the total is 0. Otherwise it times the total equals 100 times the count. |
| TextReport.PercentsSum | scripts/compare_assets.py:94-96 | When the counters add up to a non-zero total, the four summary percentages add up to 100 in exact arithmetic. |
| TextReport.PercentAgainstRatio | scripts/compare_assets.py:65 | For a non-zero total, the identical percentage of the summary equals the identical ratio of the header. For a zero total, the summary shows 0 where the header shows 100. |
| TextReport.ComparisonSummary | scripts/compare_assets.py:94-96 | A report of `compare_assets` has a counter for every status the summary reads. When any path was compared, its summary percentages add up to 100 in exact arithmetic. |

## Left out

- `hash_file` (SHA-256 over chunked file reads) is I/O and a foreign library. It
  is the parameter `digest`, so every property holds for any deterministic digest.
- Read errors in `hash_file` are not modelled. In the script an unreadable file
  raises out of `compare_assets`, and that ends the whole run without a report.
  A file that changes between the directory walk and the hashing is not
  modelled either. The script reads each shared file twice, once per tree.
- `gather_files` and the `relative_to` keying walk the file system. Their result
  is the input maps, and the model does not decide what counts as a file.
- `main` is argument parsing, directory checks, `isatty`, writing the output file
  and printing. It is all I/O.
- `build_json_report` is a call to `json.dumps`.
- The `:.2f` rendering of the ratio and the percentages is the parameter `fmt`.
  Its rounding of floating-point values is not modelled.
- Differ.IdenticalRatio: computed on exact rationals. The script divides and
  multiplies floating-point numbers, which round; the model's values are exact.
- TextReport.Percent: exact rationals as well, with the same caveat as the ratio.
- TextReport.PercentsSum, TextReport.ComparisonSummary: the four percentages add up
  to 100 only in the model's exact arithmetic. The script's floating-point
  percentages need not add up to 100. Their `:.2f` renderings need not either:
  counts 1/1/1/0 print `33.33%` three times.
- Text.Upper, Text.TitleWord: `upper` and `title` are stated for ASCII only. The
  script applies them only to the four lower-case ASCII status names.
- The order of paths compares components by code point. It is the order of
  `PurePosixPath`; the Windows flavour of `pathlib` compares case-insensitively,
  and that is not modelled.
- Text.NatToString: `str` of a count is stated for non-negative integers only,
  which are the only ones the script prints.
