/** The analyze view (analyze.component.ts): the preview table of the
    selected upload and the pattern it sends to the server, built from the
    start line and separator typed into the form. */
module AnalyzeView {
  import opened Wrappers
  import opened GoText
  import PatternScan
  import Parser
  import PreviewTable

  /** `computePattern`: the form's start line and separator, each between
      braces. */
  function ComputePattern(startLine: string, separator: string): string
  {
    "{" + startLine + "}{" + separator + "}"
  }

  /** The pattern the view builds from an integer start line and a single
      non-space separator is the one `parser.New` reads back: the server
      parses with exactly the start line and separator shown. */
  lemma ComputePatternRoundTrip(n: int, c: char, columns: seq<int>, filename: string, filepath: string, checksum: string)
    requires IsInt64(n) && !IsSpace(c)
    ensures var p := Parser.New(ComputePattern(PatternScan.Decimal(n), [c]), columns, filename, filepath, Some(checksum));
      && p.Ok? && p.value.start == n && p.value.separator == c
      && p.value.columns == columns && p.value.checksum == checksum
  {
    var pattern := ComputePattern(PatternScan.Decimal(n), [c]);
    assert pattern == "{" + PatternScan.Decimal(n) + "}{" + [c] + "}" + "";
    PatternScan.ScanOfRendered(n, c, "");
  }

  /** The view after `parsePreviewTable`. */
  datatype Analyzed = Analyzed(table: seq<seq<string>>, maxCols: nat, columns: seq<int>, pattern: string)

  /** `parsePreviewTable`: rebuild the table from the preview lines,
      clear the selected columns and recompute the pattern. */
  method ParsePreviewTable(preview: seq<string>, startLine: string, separator: string) returns (v: Analyzed)
    ensures |v.table| == |preview|
    ensures forall i | 0 <= i < |preview| :: |PreviewTable.Values(preview[i], separator)| <= v.maxCols
    ensures v.maxCols == 0 || exists i | 0 <= i < |preview| :: |PreviewTable.Values(preview[i], separator)| == v.maxCols
    ensures forall i | 0 <= i < |v.table| :: |v.table[i]| == v.maxCols
    ensures forall i, j | 0 <= i < |v.table| && 0 <= j < v.maxCols ::
              v.table[i][j] == PreviewTable.Cell(PreviewTable.Values(preview[i], separator), j)
    ensures v.columns == []
    ensures forall n: int, c: char | IsInt64(n) && !IsSpace(c) && startLine == PatternScan.Decimal(n) && separator == [c] ::
              PatternScan.Scan(v.pattern) == Ok(PatternScan.Pattern(n, c))
  {
    var table, maxCols := PreviewTable.BuildTable(preview, separator);
    var pattern := ComputePattern(startLine, separator);
    forall n: int, c: char | IsInt64(n) && !IsSpace(c) && startLine == PatternScan.Decimal(n) && separator == [c]
      ensures PatternScan.Scan(pattern) == Ok(PatternScan.Pattern(n, c))
    {
      assert pattern == "{" + PatternScan.Decimal(n) + "}{" + [c] + "}" + "";
      PatternScan.ScanOfRendered(n, c, "");
    }
    v := Analyzed(table, maxCols, [], pattern);
  }
}
