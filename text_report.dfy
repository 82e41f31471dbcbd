/**
 The human-readable report: `build_text_report` in scripts/compare_assets.py.

 The report is a list of lines joined by newlines: a header, one line per
 result, a blank line, `Summary:` and one line per status in a fixed order.
 Colour is a flag: with it, a result line is wrapped whole in its status
 colour and a summary line only around its title; without it no escape
 character is written. Percentages and the ratio are rendered by `fmt`, the
 `:.2f` format of a number, which is left abstract.
 */
module TextReport {
  import opened Text
  import opened Paths
  import opened Differ

  /** The escape character that starts every ANSI colour code. */
  const Escape: char := '\U{1B}'

  /** `COLOR_RESET`. */
  const ColorReset: string := [Escape] + "[0m"

  /** `COLORS[status]`. */
  function Color(s: Status): (code: string)
    ensures |code| == 5 && code[0] == Escape
  {
    match s
    case Identical => [Escape] + "[33m"
    case Missing => [Escape] + "[31m"
    case Different => [Escape] + "[32m"
    case Additional => [Escape] + "[36m"
  }

  /** `SUMMARY_ORDER`. */
  const SummaryOrder: seq<Status> := [Identical, Different, Missing, Additional]

  /** The status as the script spells it. */
  function Name(s: Status): string
  {
    match s
    case Identical => "identical"
    case Different => "different"
    case Missing => "missing"
    case Additional => "additional"
  }

  /** The label of a result line: the upper-cased status, padded to 9 (see `LabelText`). */
  function Label(s: Status): string
  {
    match s
    case Identical => "IDENTICAL"
    case Different => "DIFFERENT"
    case Missing => "MISSING  "
    case Additional => "ADDITIONAL"
  }

  /** The title of a summary line: the title-cased status, padded to 9 (see `SummaryTitleText`). */
  function SummaryTitle(s: Status): string
  {
    match s
    case Identical => "Identical"
    case Different => "Different"
    case Missing => "Missing  "
    case Additional => "Additional"
  }

  /** The colour code written before a line's coloured part, if colour is on. */
  function ColorOf(s: Status, useColor: bool): string
  {
    if useColor then Color(s) else ""
  }

  /** The reset code written after a line's coloured part, if colour is on. */
  function ResetOf(useColor: bool): string
  {
    if useColor then ColorReset else ""
  }

  /** The share of `count` in `total` as a percentage; 0 when there is nothing to share. */
  function Percent(count: nat, total: nat): (r: real)
    ensures total == 0 ==> r == 0.0
    ensures total > 0 ==> r * (total as real) == (count as real) * 100.0
  {
    if total != 0 then
      var share := (count as real) / (total as real);
      assert share * (total as real) == count as real;
      share * 100.0
    else 0.0
  }

  /**
   The header: the words of `Compared {total} root files; {identical} identical
   ({ratio}%).` with one space between neighbours. Read back at the spaces, the
   second word is `str` of the total and the fifth `str` of the identical count.
   */
  function HeaderLine(report: Report, fmt: real -> string): (line: string)
    requires Identical in report.counts
    ensures ' ' !in fmt(report.identicalRatio) ==>
      var words := Split(line, ' ');
      && |words| == 7
      && words[0] == "Compared" && words[1] == NatToString(report.total)
      && words[2] == "root" && words[3] == "files;"
      && words[4] == NatToString(report.counts[Identical]) && words[5] == "identical"
      && words[6] == "(" + fmt(report.identicalRatio) + "%)."
  {
    var words := ["Compared", NatToString(report.total), "root", "files;",
      NatToString(report.counts[Identical]), "identical", "(" + fmt(report.identicalRatio) + "%)."];
    if ' ' !in fmt(report.identicalRatio) then
      NumberHasNoSpace(report.total);
      NumberHasNoSpace(report.counts[Identical]);
      SplitJoin(words, ' ');
      Join(words, ' ')
    else
      Join(words, ' ')
  }

  lemma NumberHasNoSpace(n: nat)
    ensures ' ' !in NatToString(n)
  {
  }

  /** A result line without its colour codes: the bracketed label and the path. */
  function ResultBody(e: Entry): string
  {
    "[" + Label(e.status) + "] " + PathText(e.path)
  }

  /**
   A result line: after the colour code, the bracketed label and a space; then
   the text of the path, which runs up to the reset code, so the path can be
   cut out of the line by its status and the colour flag alone.
   */
  function ResultLine(e: Entry, useColor: bool): (line: string)
    ensures var front := |ColorOf(e.status, useColor)|;
      var start := front + |Label(e.status)| + 3;
      var text := PathText(e.path);
      && |line| == start + |text| + |ResetOf(useColor)|
      && line[front..start] == "[" + Label(e.status) + "] "
      && line[start..start + |text|] == text
  {
    var color, body, reset := ColorOf(e.status, useColor), ResultBody(e), ResetOf(useColor);
    var line := color + body + reset;
    assert line[|color|..|color| + |body|] == body;
    line
  }

  /**
   What follows the title of a summary line: the words `:`, `{count}`, `files`
   and `({percent}%)` with one space between neighbours. Read back at the
   spaces, the second word is `str` of the count.
   */
  function SummaryTail(count: nat, total: nat, fmt: real -> string): (tail: string)
    ensures ' ' !in fmt(Percent(count, total)) ==>
      Split(tail, ' ') == [":", NatToString(count), "files", "(" + fmt(Percent(count, total)) + "%)"]
  {
    var words := [":", NatToString(count), "files", "(" + fmt(Percent(count, total)) + "%)"];
    if ' ' !in fmt(Percent(count, total)) then
      NumberHasNoSpace(count);
      SplitJoin(words, ' ');
      Join(words, ' ')
    else
      Join(words, ' ')
  }

  /**
   A summary line: the title between the colour and reset codes, then the
   tail with the count and its percentage.
   */
  function SummaryLine(key: Status, count: nat, total: nat, useColor: bool, fmt: real -> string): (line: string)
    ensures var front := |ColorOf(key, useColor)|;
      var head := front + |SummaryTitle(key)| + |ResetOf(useColor)|;
      && |line| == head + |SummaryTail(count, total, fmt)|
      && line[front..front + |SummaryTitle(key)|] == SummaryTitle(key)
      && line[head..] == SummaryTail(count, total, fmt)
  {
    var color, title, reset := ColorOf(key, useColor), SummaryTitle(key), ResetOf(useColor);
    var tail := SummaryTail(count, total, fmt);
    var line := color + title + reset + tail;
    assert line[|color|..] == title + reset + tail;
    line
  }

  function ResultLines(results: seq<Entry>, useColor: bool): (lines: seq<string>)
    ensures |lines| == |results|
    ensures forall i :: 0 <= i < |results| ==> lines[i] == ResultLine(results[i], useColor)
  {
    seq(|results|, i requires 0 <= i < |results| => ResultLine(results[i], useColor))
  }

  function SummaryLines(counts: map<Status, nat>, total: nat, useColor: bool, fmt: real -> string): (lines: seq<string>)
    requires Statuses <= counts.Keys
    ensures |lines| == |SummaryOrder|
    ensures forall k :: 0 <= k < |SummaryOrder| ==>
      SummaryOrder[k] in counts && lines[k] == SummaryLine(SummaryOrder[k], counts[SummaryOrder[k]], total, useColor, fmt)
  {
    StatusesComplete();
    seq(|SummaryOrder|, k requires 0 <= k < |SummaryOrder| =>
      SummaryLine(SummaryOrder[k], counts[SummaryOrder[k]], total, useColor, fmt))
  }

  /** The lines of the report, before they are joined. */
  function ReportLines(report: Report, useColor: bool, fmt: real -> string): seq<string>
    requires Statuses <= report.counts.Keys
  {
    [HeaderLine(report, fmt)] + ResultLines(report.results, useColor) + ["", "Summary:"]
      + SummaryLines(report.counts, report.total, useColor, fmt)
  }

  /** Appending the next element of `s` extends the prefix of `s` by one. */
  lemma AppendNext<T>(front: seq<T>, s: seq<T>, k: nat)
    requires k < |s|
    ensures front + s[..k] + [s[k]] == front + s[..k + 1]
  {
    assert s[..k + 1] == s[..k] + [s[k]];
  }

  /** `build_text_report`: the report's lines, built in order and joined by newlines. */
  method BuildTextReport(report: Report, useColor: bool, fmt: real -> string) returns (text: string)
    requires Statuses <= report.counts.Keys
    ensures text == Join(ReportLines(report, useColor, fmt), '\n')
  {
    var total := report.total;
    var counts := report.counts;
    var header := HeaderLine(report, fmt);
    var lines := [header];
    ghost var resultLines := ResultLines(report.results, useColor);
    for i := 0 to |report.results|
      invariant lines == [header] + resultLines[..i]
    {
      var line := ResultLine(report.results[i], useColor);
      AppendNext([header], resultLines, i);
      lines := lines + [line];
    }
    assert resultLines[..|report.results|] == resultLines;
    lines := lines + [""];
    lines := lines + ["Summary:"];
    ghost var summaryLines := SummaryLines(counts, total, useColor, fmt);
    for k := 0 to |SummaryOrder|
      invariant lines == [header] + resultLines + ["", "Summary:"] + summaryLines[..k]
    {
      var key := SummaryOrder[k];
      var count := counts[key];
      var line := SummaryLine(key, count, total, useColor, fmt);
      AppendNext([header] + resultLines + ["", "Summary:"], summaryLines, k);
      lines := lines + [line];
    }
    assert summaryLines[..|SummaryOrder|] == summaryLines;
    text := Join(lines, '\n');
  }

  /** The label is `status.upper().ljust(9)`: `ADDITIONAL` overflows the width and is not cut, `MISSING` is padded. */
  lemma LabelText(s: Status)
    ensures Label(s) == Ljust(Upper(Name(s)), 9)
    ensures |Label(s)| == if s == Additional then 10 else 9
  {
    match s
    case Identical => assert Upper("identical") == "IDENTICAL";
    case Different => assert Upper("different") == "DIFFERENT";
    case Missing => assert Upper("missing") == "MISSING";
    case Additional => assert Upper("additional") == "ADDITIONAL";
  }

  // One lemma per status keeps each literal computation of `title()` separate.
  lemma IdenticalTitle() ensures SummaryTitle(Identical) == Ljust(Title(Name(Identical)), 9) {}
  lemma DifferentTitle() ensures SummaryTitle(Different) == Ljust(Title(Name(Different)), 9) {}
  lemma MissingTitle() ensures SummaryTitle(Missing) == Ljust(Title(Name(Missing)), 9) {}
  lemma AdditionalTitle() ensures SummaryTitle(Additional) == Ljust(Title(Name(Additional)), 9) {}

  /** The summary title is `key.title().ljust(9)`. */
  lemma SummaryTitleText(s: Status)
    ensures SummaryTitle(s) == Ljust(Title(Name(s)), 9)
  {
    match s
    case Identical => IdenticalTitle();
    case Different => DifferentTitle();
    case Missing => MissingTitle();
    case Additional => AdditionalTitle();
  }

  /**
   With colour on, a result line is the plain line wrapped whole in the colour
   of its status and the reset code.
   */
  lemma ColoredResultLine(e: Entry)
    ensures ResultLine(e, false) == ResultBody(e)
    ensures ResultLine(e, true) == Color(e.status) + ResultLine(e, false) + ColorReset
  {
    assert "" + ResultBody(e) + "" == ResultBody(e);
  }

  /**
   With colour on, a summary line is the plain line with the colour of its key
   before the title and the reset code right after the title.
   */
  lemma ColoredSummaryLine(key: Status, count: nat, total: nat, fmt: real -> string)
    ensures var plain := SummaryLine(key, count, total, false, fmt);
      var n := |SummaryTitle(key)|;
      && plain == SummaryTitle(key) + SummaryTail(count, total, fmt)
      && SummaryLine(key, count, total, true, fmt) == Color(key) + plain[..n] + ColorReset + plain[n..]
  {
    var title, tail := SummaryTitle(key), SummaryTail(count, total, fmt);
    assert "" + title + "" + tail == title + tail;
    assert (title + tail)[..|title|] == title && (title + tail)[|title|..] == tail;
  }

  /** `c` is not any character that the script writes outside colour codes. */
  predicate Unprinted(c: char)
  {
    c < ' '
  }

  lemma NumberAvoids(n: nat, c: char)
    requires Unprinted(c)
    ensures c !in NatToString(n)
  {
  }

  lemma {:induction false} HeaderAvoids(report: Report, fmt: real -> string, c: char)
    requires Identical in report.counts
    requires Unprinted(c) && forall x :: c !in fmt(x)
    ensures c !in HeaderLine(report, fmt)
  {
    NumberAvoids(report.total, c);
    NumberAvoids(report.counts[Identical], c);
    var words := ["Compared", NatToString(report.total), "root", "files;",
      NatToString(report.counts[Identical]), "identical", "(" + fmt(report.identicalRatio) + "%)."];
    JoinAvoids(words, ' ', c);
  }

  lemma {:induction false} ResultLineAvoids(e: Entry, useColor: bool, c: char)
    requires Unprinted(c) && (useColor ==> c != Escape)
    requires forall j :: 0 <= j < |e.path| ==> c !in e.path[j]
    ensures c !in ResultLine(e, useColor)
  {
    JoinAvoids(e.path, '/', c);
    assert c !in Label(e.status);
    ThreeAvoid(c, ColorOf(e.status, useColor), ResultBody(e), ResetOf(useColor));
  }

  /** A character in none of three parts is not in their concatenation. */
  lemma ThreeAvoid<T>(c: T, a: seq<T>, b: seq<T>, d: seq<T>)
    requires c !in a && c !in b && c !in d
    ensures c !in a + b + d
  {
  }

  lemma TitleAvoids(key: Status, c: char)
    requires Unprinted(c)
    ensures c !in SummaryTitle(key)
  {
  }

  lemma {:induction false} TailAvoids(count: nat, total: nat, fmt: real -> string, c: char)
    requires Unprinted(c) && forall x :: c !in fmt(x)
    ensures c !in SummaryTail(count, total, fmt)
  {
    NumberAvoids(count, c);
    JoinAvoids([":", NatToString(count), "files", "(" + fmt(Percent(count, total)) + "%)"], ' ', c);
  }

  lemma {:induction false} SummaryLineAvoids(key: Status, count: nat, total: nat, useColor: bool, fmt: real -> string, c: char)
    requires Unprinted(c) && (useColor ==> c != Escape) && forall x :: c !in fmt(x)
    ensures c !in SummaryLine(key, count, total, useColor, fmt)
  {
    TitleAvoids(key, c);
    TailAvoids(count, total, fmt, c);
    var front := ColorOf(key, useColor) + SummaryTitle(key) + ResetOf(useColor);
    ThreeAvoid(c, ColorOf(key, useColor), SummaryTitle(key), ResetOf(useColor));
    assert SummaryLine(key, count, total, useColor, fmt) == front + SummaryTail(count, total, fmt);
  }

  /** Where each element of a framed list sits: `head`, the `middle`, the two separators, the `tail`. */
  lemma FrameLayout<T>(head: T, middle: seq<T>, sep1: T, sep2: T, tail: seq<T>)
    ensures var l := [head] + middle + [sep1, sep2] + tail;
      var n := |middle|;
      && |l| == 1 + n + 2 + |tail|
      && l[0] == head
      && (forall i :: 0 <= i < n ==> l[1 + i] == middle[i])
      && l[n + 1] == sep1 && l[n + 2] == sep2
      && (forall k :: 0 <= k < |tail| ==> l[n + 3 + k] == tail[k])
  {
  }

  /** A property of every part of a framed list is a property of every element. */
  lemma FrameAll<T>(head: T, middle: seq<T>, sep1: T, sep2: T, tail: seq<T>, p: T -> bool)
    requires p(head) && p(sep1) && p(sep2)
    requires forall i :: 0 <= i < |middle| ==> p(middle[i])
    requires forall k :: 0 <= k < |tail| ==> p(tail[k])
    ensures var l := [head] + middle + [sep1, sep2] + tail;
      forall i :: 0 <= i < |l| ==> p(l[i])
  {
    FrameLayout(head, middle, sep1, sep2, tail);
    var l := [head] + middle + [sep1, sep2] + tail;
    forall i | 0 <= i < |l| ensures p(l[i]) {
      if 1 <= i <= |middle| {
        assert l[i] == middle[i - 1];
      } else if i >= |middle| + 3 {
        assert l[i] == tail[i - |middle| - 3];
      }
    }
  }

  /**
   The lines of the report: the header, one line per result in the order of
   the results, a blank line, `Summary:` and one line per status in the
   summary order, `identical`, `different`, `missing`, `additional`.
   */
  lemma ReportLayout(report: Report, useColor: bool, fmt: real -> string)
    requires Statuses <= report.counts.Keys
    ensures var lines := ReportLines(report, useColor, fmt);
      var n := |report.results|;
      && |lines| == 1 + n + 2 + 4
      && lines[0] == HeaderLine(report, fmt)
      && (forall i :: 0 <= i < n ==> lines[1 + i] == ResultLine(report.results[i], useColor))
      && lines[n + 1] == "" && lines[n + 2] == "Summary:"
      && lines[n + 3] == SummaryLine(Identical, report.counts[Identical], report.total, useColor, fmt)
      && lines[n + 4] == SummaryLine(Different, report.counts[Different], report.total, useColor, fmt)
      && lines[n + 5] == SummaryLine(Missing, report.counts[Missing], report.total, useColor, fmt)
      && lines[n + 6] == SummaryLine(Additional, report.counts[Additional], report.total, useColor, fmt)
  {
    var summary := SummaryLines(report.counts, report.total, useColor, fmt);
    FrameLayout(HeaderLine(report, fmt), ResultLines(report.results, useColor), "", "Summary:", summary);
    SummaryInOrder(report.counts, report.total, useColor, fmt);
  }

  /** The summary lines follow `SUMMARY_ORDER`: identical, different, missing, additional. */
  lemma SummaryInOrder(counts: map<Status, nat>, total: nat, useColor: bool, fmt: real -> string)
    requires Statuses <= counts.Keys
    ensures var summary := SummaryLines(counts, total, useColor, fmt);
      && |summary| == 4
      && summary[0] == SummaryLine(Identical, counts[Identical], total, useColor, fmt)
      && summary[1] == SummaryLine(Different, counts[Different], total, useColor, fmt)
      && summary[2] == SummaryLine(Missing, counts[Missing], total, useColor, fmt)
      && summary[3] == SummaryLine(Additional, counts[Additional], total, useColor, fmt)
  {
    StatusesComplete();
  }

  /**
   A control character that is in no path segment and in no rendered number
   is in no line of the report, unless it is the escape character and colour
   is on.
   */
  lemma {:induction false} LinesAvoid(report: Report, useColor: bool, fmt: real -> string, c: char)
    requires Statuses <= report.counts.Keys
    requires Unprinted(c) && (useColor ==> c != Escape)
    requires forall i, j :: 0 <= i < |report.results| && 0 <= j < |report.results[i].path| ==> c !in report.results[i].path[j]
    requires forall x :: c !in fmt(x)
    ensures forall i :: 0 <= i < |ReportLines(report, useColor, fmt)| ==> c !in ReportLines(report, useColor, fmt)[i]
  {
    var results := ResultLines(report.results, useColor);
    var summary := SummaryLines(report.counts, report.total, useColor, fmt);
    var avoids := (line: string) => c !in line;
    HeaderAvoids(report, fmt, c);
    ResultLinesAvoid(report.results, useColor, c);
    SummaryLinesAvoid(report.counts, report.total, useColor, fmt, c);
    assert forall i :: 0 <= i < |results| ==> avoids(results[i]);
    assert forall k :: 0 <= k < |summary| ==> avoids(summary[k]);
    FrameAll(HeaderLine(report, fmt), results, "", "Summary:", summary, avoids);
  }

  lemma ResultLinesAvoid(results: seq<Entry>, useColor: bool, c: char)
    requires Unprinted(c) && (useColor ==> c != Escape)
    requires forall i, j :: 0 <= i < |results| && 0 <= j < |results[i].path| ==> c !in results[i].path[j]
    ensures forall i :: 0 <= i < |results| ==> c !in ResultLines(results, useColor)[i]
  {
    forall i | 0 <= i < |results| ensures c !in ResultLines(results, useColor)[i] {
      ResultLineAvoids(results[i], useColor, c);
    }
  }

  lemma SummaryLinesAvoid(counts: map<Status, nat>, total: nat, useColor: bool, fmt: real -> string, c: char)
    requires Statuses <= counts.Keys
    requires Unprinted(c) && (useColor ==> c != Escape) && forall x :: c !in fmt(x)
    ensures forall k :: 0 <= k < |SummaryOrder| ==> c !in SummaryLines(counts, total, useColor, fmt)[k]
  {
    forall k | 0 <= k < |SummaryOrder| ensures c !in SummaryLines(counts, total, useColor, fmt)[k] {
      var key := SummaryOrder[k];
      SummaryLineAvoids(key, counts[key], total, useColor, fmt, c);
    }
  }

  /** Without colour, no line holds an escape character, so none holds a colour or reset code. */
  lemma NoEscapeWithoutColor(report: Report, fmt: real -> string)
    requires Statuses <= report.counts.Keys
    requires forall i, j :: 0 <= i < |report.results| && 0 <= j < |report.results[i].path| ==> Escape !in report.results[i].path[j]
    requires forall x :: Escape !in fmt(x)
    ensures forall i :: 0 <= i < |ReportLines(report, false, fmt)| ==> Escape !in ReportLines(report, false, fmt)[i]
    ensures forall s :: Escape in Color(s)
    ensures Escape in ColorReset
  {
    LinesAvoid(report, false, fmt, Escape);
  }

  /**
   The text splits back into exactly the report's lines, as long as no path
   segment and no rendered number holds a newline.
   */
  lemma TextSplitsIntoLines(report: Report, useColor: bool, fmt: real -> string)
    requires Statuses <= report.counts.Keys
    requires forall i, j :: 0 <= i < |report.results| && 0 <= j < |report.results[i].path| ==> '\n' !in report.results[i].path[j]
    requires forall x :: '\n' !in fmt(x)
    ensures Split(Join(ReportLines(report, useColor, fmt), '\n'), '\n') == ReportLines(report, useColor, fmt)
    ensures |ReportLines(report, useColor, fmt)| == 1 + |report.results| + 2 + 4
  {
    LinesAvoid(report, useColor, fmt, '\n');
    SplitJoin(ReportLines(report, useColor, fmt), '\n');
  }

  /**
   With at least one path, the four summary percentages add up to 100 in exact
   arithmetic. The script's floating-point percentages, and their `:.2f`
   renderings, need not (counts 1/1/1/0 print `33.33` three times).
   */
  lemma PercentsSum(counts: map<Status, nat>, total: nat)
    requires Statuses <= counts.Keys
    requires total > 0
    requires counts[Identical] + counts[Different] + counts[Missing] + counts[Additional] == total
    ensures Percent(counts[Identical], total) + Percent(counts[Different], total)
      + Percent(counts[Missing], total) + Percent(counts[Additional], total) == 100.0
  {
    var t := total as real;
    var ci, cd := counts[Identical] as real, counts[Different] as real;
    var cm, ca := counts[Missing] as real, counts[Additional] as real;
    var i, d := Percent(counts[Identical], total), Percent(counts[Different], total);
    var m, a := Percent(counts[Missing], total), Percent(counts[Additional], total);
    assert i * t == ci * 100.0 && d * t == cd * 100.0 && m * t == cm * 100.0 && a * t == ca * 100.0;
    assert ci + cd + cm + ca == t;
    var sum := i + d + m + a;
    calc {
      sum * t;
      i * t + d * t + m * t + a * t;
      (ci + cd + cm + ca) * 100.0;
      t * 100.0;
    }
    assert (sum - 100.0) * t == 0.0;
  }

  /**
   The summary percentage of the identical files is the identical ratio of the
   header, except for an empty comparison: the header then shows 100 and the
   summary 0.
   */
  lemma PercentAgainstRatio(identical: nat, total: nat)
    ensures total > 0 ==> Percent(identical, total) == IdenticalRatio(identical, total)
    ensures total == 0 ==> Percent(identical, total) == 0.0 && IdenticalRatio(identical, total) == 100.0
  {
  }

  /**
   A report of `compare_assets` can always be rendered, and when any path was
   compared its four summary percentages add up to 100 in exact arithmetic.
   */
  lemma ComparisonSummary<C, D>(root: map<Path, C>, template: map<Path, C>, digest: C -> D, report: Report)
    requires Describes(root, template, digest, report)
    ensures Statuses <= report.counts.Keys
    ensures report.total > 0 ==>
      Percent(report.counts[Identical], report.total) + Percent(report.counts[Different], report.total)
        + Percent(report.counts[Missing], report.total) + Percent(report.counts[Additional], report.total) == 100.0
  {
    TotalIsUnionSize(root, template, digest, report);
    if report.total > 0 {
      PercentsSum(report.counts, report.total);
    }
  }
}
