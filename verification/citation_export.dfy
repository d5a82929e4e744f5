/**
 The text `handleExportCitations` downloads: one line per selected paper,
 `{author} ({year}). {title}. {organization}.`, joined with a blank line.
 */
module CitationExport {
  import opened Wrappers
  import opened Papers
  import opened Decimal

  /** The separator passed to `join`. */
  const Separator: string := "\n\n"

  /** The total length of `lines`. */
  function TotalLength(lines: seq<string>): nat
    decreases |lines|
  {
    if |lines| == 0 then 0 else |lines[0]| + TotalLength(lines[1..])
  }

  /** `Array.prototype.join`: the lines with `sep` between neighbours. */
  function Join(lines: seq<string>, sep: string): (r: string)
    ensures |lines| == 0 ==> r == ""
    ensures |lines| >= 1 ==> lines[0] <= r
    ensures |lines| >= 1 ==> |r| == TotalLength(lines) + (|lines| - 1) * |sep|
    decreases |lines|
  {
    if |lines| == 0 then ""
    else if |lines| == 1 then lines[0]
    else lines[0] + sep + Join(lines[1..], sep)
  }

  /** The citation line of one paper; `yearOf` stands for
      `new Date(releaseDate).getFullYear()`, `None` being `NaN`. */
  function CitationLine(p: Paper, yearOf: string -> Option<int>): (r: string)
    ensures p.author + " (" <= r
    ensures |r| > 0 && r[|r| - 1] == '.'
    ensures SingleLine(p) ==> '\n' !in r
  {
    p.author + " (" + YearText(yearOf(p.releaseDate)) + "). " + p.title + ". " + p.organization + "."
  }

  /** The citation lines of the selection, in selection order. */
  function CitationLines(selected: seq<Paper>, yearOf: string -> Option<int>): (r: seq<string>)
    ensures |r| == |selected|
    ensures forall i :: 0 <= i < |r| ==> r[i] == CitationLine(selected[i], yearOf)
  {
    seq(|selected|, i requires 0 <= i < |selected| => CitationLine(selected[i], yearOf))
  }

  /** The exported document. */
  function ExportCitations(selected: seq<Paper>, yearOf: string -> Option<int>): (r: string)
    ensures |selected| == 0 ==> r == ""
    ensures |selected| == 1 ==> r == CitationLine(selected[0], yearOf)
  {
    Join(CitationLines(selected, yearOf), Separator)
  }

  // ---------------------------------------------------------------------------
  // Reading the document back: `split("\n\n")`.

  /** The first position at or after `i` where a blank-line separator starts, or `|s|`. */
  function FirstBreak(s: string, i: nat): (r: nat)
    requires i <= |s|
    ensures i <= r <= |s|
    ensures r < |s| ==> r + 1 < |s| && s[r] == '\n' && s[r + 1] == '\n'
    ensures forall j :: i <= j < r && j + 1 < |s| ==> !(s[j] == '\n' && s[j + 1] == '\n')
    decreases |s| - i
  {
    if i + 1 >= |s| then |s|
    else if s[i] == '\n' && s[i + 1] == '\n' then i
    else FirstBreak(s, i + 1)
  }

  /** `s.split("\n\n")`: the pieces between separators, left to right. */
  function SplitBlocks(s: string): (r: seq<string>)
    ensures |r| >= 1
    decreases |s|
  {
    var b := FirstBreak(s, 0);
    if b == |s| then [s] else [s[..b]] + SplitBlocks(s[b + 2..])
  }

  /** A field that cannot break a citation line apart. */
  predicate SingleLine(p: Paper)
  {
    '\n' !in p.author && '\n' !in p.title && '\n' !in p.organization
  }

  lemma CitationLineSingle(p: Paper, yearOf: string -> Option<int>)
    requires SingleLine(p)
    ensures '\n' !in CitationLine(p, yearOf)
  {
  }

  lemma SplitLine(line: string)
    requires '\n' !in line
    ensures SplitBlocks(line) == [line]
  {
    var b := FirstBreak(line, 0);
    assert b == |line|;
  }

  lemma SplitFirst(line: string, rest: string)
    requires '\n' !in line
    ensures SplitBlocks(line + Separator + rest) == [line] + SplitBlocks(rest)
  {
    var s := line + Separator + rest;
    assert s[|line|] == '\n' && s[|line| + 1] == '\n';
    assert forall j :: 0 <= j < |line| ==> s[j] == line[j];
    var b := FirstBreak(s, 0);
    assert b <= |line|;
    assert b == |line|;
    assert s[..b] == line;
    assert s[b + 2..] == rest;
  }

  /** Splitting a join of single-line pieces gives the pieces back. */
  lemma {:induction false} JoinSplit(lines: seq<string>)
    requires |lines| >= 1
    requires forall i :: 0 <= i < |lines| ==> '\n' !in lines[i]
    ensures SplitBlocks(Join(lines, Separator)) == lines
    decreases |lines|
  {
    if |lines| == 1 {
      SplitLine(lines[0]);
    } else {
      JoinSplit(lines[1..]);
      SplitFirst(lines[0], Join(lines[1..], Separator));
      assert [lines[0]] + lines[1..] == lines;
    }
  }

  /** The document holds one block per selected paper, in selection order, and
      block `i` is the citation line of paper `i`. */
  lemma ExportRoundTrip(selected: seq<Paper>, yearOf: string -> Option<int>)
    requires |selected| >= 1
    requires forall i :: 0 <= i < |selected| ==> SingleLine(selected[i])
    ensures SplitBlocks(ExportCitations(selected, yearOf)) == CitationLines(selected, yearOf)
    ensures |SplitBlocks(ExportCitations(selected, yearOf))| == |selected|
  {
    var lines := CitationLines(selected, yearOf);
    forall i | 0 <= i < |lines|
      ensures '\n' !in lines[i]
    {
      CitationLineSingle(selected[i], yearOf);
    }
    JoinSplit(lines);
  }

  lemma {:induction false} JoinAppend(lines: seq<string>, line: string, sep: string)
    requires |lines| >= 1
    ensures Join(lines + [line], sep) == Join(lines, sep) + sep + line
    decreases |lines|
  {
    if |lines| > 1 {
      JoinAppend(lines[1..], line, sep);
      assert (lines + [line])[1..] == lines[1..] + [line];
    } else {
      assert (lines + [line])[1..] == [line];
    }
  }

  /** Selecting one more paper appends a blank line and its citation line. */
  lemma ExportAppend(selected: seq<Paper>, p: Paper, yearOf: string -> Option<int>)
    requires |selected| >= 1
    ensures ExportCitations(selected + [p], yearOf) ==
              ExportCitations(selected, yearOf) + "\n\n" + CitationLine(p, yearOf)
  {
    assert CitationLines(selected + [p], yearOf) == CitationLines(selected, yearOf) + [CitationLine(p, yearOf)];
    JoinAppend(CitationLines(selected, yearOf), CitationLine(p, yearOf), Separator);
  }

  lemma Year2023()
    ensures YearText(Some(2023)) == "2023"
  {
    assert NatText(2) == "2";
    assert NatText(20) == "20";
    assert NatText(202) == "202";
  }

  /** The citation line of the example paper. */
  const SmithLine: string := "Smith (2023). X. Org."

  lemma SmithCitationLine(p: Paper, yearOf: string -> Option<int>)
    requires p.author == "Smith" && p.title == "X" && p.organization == "Org" && p.releaseDate == "2023-05-15"
    requires yearOf("2023-05-15") == Some(2023)
    ensures CitationLine(p, yearOf) == SmithLine
  {
    Year2023();
    assert CitationLine(p, yearOf) == "Smith" + " (" + "2023" + "). " + "X" + ". " + "Org" + ".";
  }

  /** Two papers by Smith titled X from Org, released on 2023-05-15, export as
      two identical lines with one blank line between them. */
  lemma ExportScenario(a: Paper, b: Paper, yearOf: string -> Option<int>)
    requires a.author == "Smith" && a.title == "X" && a.organization == "Org" && a.releaseDate == "2023-05-15"
    requires b.author == "Smith" && b.title == "X" && b.organization == "Org" && b.releaseDate == "2023-05-15"
    requires yearOf("2023-05-15") == Some(2023)
    ensures ExportCitations([a, b], yearOf) == SmithLine + "\n\n" + SmithLine
  {
    SmithCitationLine(a, yearOf);
    SmithCitationLine(b, yearOf);
    var lines := CitationLines([a, b], yearOf);
    assert lines == [SmithLine, SmithLine];
    assert lines[1..] == [SmithLine];
    assert Join(lines, Separator) == SmithLine + Separator + Join(lines[1..], Separator);
  }
}
