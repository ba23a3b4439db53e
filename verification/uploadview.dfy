/** The upload view (upload.component.ts): the local preview of a file
    chosen for upload (its first bytes split into lines, comment lines
    dropped, at most twenty kept), the preview table, and the pattern the
    view shows. */
module UploadView {
  import opened Wrappers
  import opened GoText
  import PatternScan
  import PreviewTable

  /** Only this many bytes of the chosen file are read for the preview. */
  const PreviewBytes := 8192
  /** At most this many lines are kept for the preview. */
  const PreviewLines := 20

  // ---------------------------------------------------------------------
  // patternString

  /** `patternString`: the separator and the comment character, each
      between braces. */
  function PatternString(separator: string, commentChar: string): string
  {
    "{" + separator + "}{" + commentChar + "}"
  }

  /** The first slot holds the separator, where `parser.New` reads the
      start line: with a separator that is not a digit, sign or space the
      server's pattern reader rejects the pattern. */
  lemma PatternStringNotAParserPattern(sep: char, commentChar: string)
    requires !IsDigit(sep) && sep != '+' && sep != '-' && !IsSpace(sep)
    ensures PatternScan.Scan(PatternString([sep], commentChar)).Err?
  {
    var p := PatternString([sep], commentChar);
    assert p[0] == '{' && p[1] == sep;
    assert PatternScan.SkipSpace(p, 1) == Ok(1);
    assert PatternScan.ScanInt(p, 1).Err?;
  }

  /** The view's defaults, `:` and `#`, give `{:}{#}`. */
  lemma DefaultPatternRejected()
    ensures PatternString(":", "#") == "{:}{#}"
    ensures PatternScan.Scan(PatternString(":", "#")).Err?
  {
    PatternStringNotAParserPattern(':', "#");
  }

  // ---------------------------------------------------------------------
  // Splitting on /[\r\n]+/

  predicate IsBreak(c: char)
  {
    c == '\r' || c == '\n'
  }

  /** The first line break at or after `i`, or `|s|`. */
  function NextBreak(s: string, i: nat): (j: nat)
    requires i <= |s|
    ensures i <= j <= |s| && (j < |s| ==> IsBreak(s[j]))
    ensures forall k | i <= k < j :: !IsBreak(s[k])
    decreases |s| - i
  {
    if i == |s| || IsBreak(s[i]) then i else NextBreak(s, i + 1)
  }

  /** The end of the run of line breaks that starts at `i`. */
  function RunEnd(s: string, i: nat): (j: nat)
    requires i <= |s|
    ensures i <= j <= |s| && (j < |s| ==> !IsBreak(s[j]))
    ensures forall k | i <= k < j :: IsBreak(s[k])
    decreases |s| - i
  {
    if i < |s| && IsBreak(s[i]) then RunEnd(s, i + 1) else i
  }

  /** `text.split(/[\r\n]+/g)`: the pieces between maximal runs of CR and
      LF. A piece between two runs is never empty; the first and the last
      may be. */
  function SplitLines(s: string): (r: seq<string>)
    ensures |r| >= 1
    ensures forall k, m | 0 <= k < |r| && 0 <= m < |r[k]| :: !IsBreak(r[k][m])
    ensures forall k | 1 <= k < |r| - 1 :: |r[k]| > 0
    decreases |s|
  {
    var i := NextBreak(s, 0);
    if i == |s| then [s]
    else
      var j := RunEnd(s, i);
      var rest := SplitLines(s[j..]);
      assert j < |s| ==> |rest[0]| > 0 by {
        if j < |s| {
          var i' := NextBreak(s[j..], 0);
          assert !IsBreak(s[j..][0]);
        }
      }
      [s[..i]] + rest
  }

  /** The text with every CR and LF removed. */
  function DropBreaks(s: string): (r: string)
    ensures forall m | 0 <= m < |r| :: !IsBreak(r[m])
  {
    if |s| == 0 then ""
    else (if IsBreak(s[0]) then "" else [s[0]]) + DropBreaks(s[1..])
  }

  function Concat(xs: seq<string>): string
  {
    if |xs| == 0 then "" else xs[0] + Concat(xs[1..])
  }

  /** The lines hold every character of the text except the line breaks,
      in order. */
  lemma {:induction false} SplitLinesKeepsText(s: string)
    ensures Concat(SplitLines(s)) == DropBreaks(s)
    decreases |s|
  {
    var i := NextBreak(s, 0);
    if i == |s| {
      NoBreaks(s, 0);
      assert Concat([s]) == s + Concat([]);
    } else {
      var j := RunEnd(s, i);
      SplitLinesKeepsText(s[j..]);
      var rest := SplitLines(s[j..]);
      ConcatCons(s[..i], rest);
      var a, m, b := s[..i], s[i..j], s[j..];
      assert forall k | 0 <= k < |a| :: !IsBreak(a[k]);
      assert forall k | 0 <= k < |m| :: IsBreak(m[k]);
      PreviewTable.Slices(s, i, j);
      DropBreaksLayout(a, m, b);
    }
  }

  lemma ConcatCons(a: string, rest: seq<string>)
    ensures Concat([a] + rest) == a + Concat(rest)
  {
    assert ([a] + rest)[1..] == rest;
  }

  /** A text made of a line, a run of breaks and the rest loses the run. */
  lemma DropBreaksLayout(a: string, m: string, b: string)
    requires forall k | 0 <= k < |a| :: !IsBreak(a[k])
    requires forall k | 0 <= k < |m| :: IsBreak(m[k])
    ensures DropBreaks(a + m + b) == a + DropBreaks(b)
  {
    LineThenRun(a, m);
    DropBreaksAppend(a + m, b);
  }

  lemma LineThenRun(a: string, m: string)
    requires forall k | 0 <= k < |a| :: !IsBreak(a[k])
    requires forall k | 0 <= k < |m| :: IsBreak(m[k])
    ensures DropBreaks(a + m) == a
  {
    NoBreaks(a, 0);
    assert a[0..] == a;
    AllBreaks(m);
    DropBreaksAppend(a, m);
    assert a + "" == a;
  }

  lemma {:induction false} NoBreaks(s: string, i: nat)
    requires i <= |s|
    requires forall k | i <= k < |s| :: !IsBreak(s[k])
    ensures DropBreaks(s[i..]) == s[i..]
    decreases |s| - i
  {
    if i < |s| {
      NoBreaks(s, i + 1);
      assert s[i..][1..] == s[i + 1..];
    }
  }

  lemma {:induction false} AllBreaks(s: string)
    requires forall k | 0 <= k < |s| :: IsBreak(s[k])
    ensures DropBreaks(s) == ""
  {
    if |s| > 0 {
      AllBreaks(s[1..]);
    }
  }

  lemma {:induction false} DropBreaksAppend(a: string, b: string)
    ensures DropBreaks(a + b) == DropBreaks(a) + DropBreaks(b)
  {
    if |a| > 0 {
      DropBreaksAppend(a[1..], b);
      assert (a + b)[0] == a[0];
      assert (a + b)[1..] == a[1..] + b;
    } else {
      assert a + b == b;
    }
  }

  // ---------------------------------------------------------------------
  // processPreview

  /** `content.replace(' ', '').charAt(0) === commentChar`: a comment
      line starts, after its first space is removed, with the comment
      character. With an empty comment character the blank lines count as
      comments. */
  predicate IsComment(line: string, commentChar: string)
  {
    var t := PreviewTable.ReplaceFirst(line, ' ');
    (if |t| == 0 then "" else [t[0]]) == commentChar
  }

  /** The lines that are not comments, in order. */
  function Kept(lines: seq<string>, commentChar: string): (r: seq<string>)
    ensures |r| <= |lines|
  {
    if |lines| == 0 then []
    else
      var last := lines[|lines| - 1];
      Kept(lines[..|lines| - 1], commentChar) + KeepLine(last, commentChar)
  }

  function KeepLine(line: string, commentChar: string): (r: seq<string>)
    ensures r == [] || r == [line]
  {
    if IsComment(line, commentChar) then [] else [line]
  }

  /** Every kept line is a line of the text and not a comment; every line
      that is not a comment is kept. */
  lemma {:induction false} KeptLines(lines: seq<string>, commentChar: string)
    ensures forall x | x in Kept(lines, commentChar) :: x in lines && !IsComment(x, commentChar)
    ensures forall x | x in lines && !IsComment(x, commentChar) :: x in Kept(lines, commentChar)
  {
    if |lines| > 0 {
      var init := lines[..|lines| - 1];
      KeptLines(init, commentChar);
      assert lines == init + [lines[|lines| - 1]];
    }
  }

  /** The first `n` elements, or all of them. */
  function Take<T>(xs: seq<T>, n: nat): (r: seq<T>)
    ensures |r| <= n && r <= xs
    ensures |xs| <= n ==> r == xs
  {
    if |xs| <= n then xs else xs[..n]
  }

  lemma {:induction false} KeptAppend(a: seq<string>, b: seq<string>, commentChar: string)
    ensures Kept(a + b, commentChar) == Kept(a, commentChar) + Kept(b, commentChar)
    decreases |b|
  {
    if |b| == 0 {
      assert a + b == a;
    } else {
      var b', x := b[..|b| - 1], b[|b| - 1];
      KeptAppend(a, b', commentChar);
      KeptAppendStep(a, b, commentChar);
    }
  }

  lemma KeptAppendStep(a: seq<string>, b: seq<string>, commentChar: string)
    requires |b| > 0
    requires Kept(a + b[..|b| - 1], commentChar) == Kept(a, commentChar) + Kept(b[..|b| - 1], commentChar)
    ensures Kept(a + b, commentChar) == Kept(a, commentChar) + Kept(b, commentChar)
  {
    var b', x := b[..|b| - 1], b[|b| - 1];
    ButLast(b);
    AppendSnoc(a, b', x);
    KeptSnoc(a + b', x, commentChar);
    KeptSnoc(b', x, commentChar);
  }

  lemma ButLast<T>(b: seq<T>)
    requires |b| > 0
    ensures b == b[..|b| - 1] + [b[|b| - 1]]
  {
  }

  lemma AppendSnoc<T>(a: seq<T>, b: seq<T>, x: T)
    ensures a + (b + [x]) == (a + b) + [x]
  {
  }

  lemma KeptSnoc(xs: seq<string>, x: string, commentChar: string)
    ensures Kept(xs + [x], commentChar) == Kept(xs, commentChar) + KeepLine(x, commentChar)
  {
    assert (xs + [x])[..|xs|] == xs;
  }

  /** `processPreview`: split the text into lines and keep, in order, the
      lines that are not comments until twenty are kept. */
  method ProcessPreview(text: string, commentChar: string) returns (preview: seq<string>)
    ensures preview == Take(Kept(SplitLines(text), commentChar), PreviewLines)
    ensures |preview| <= PreviewLines
  {
    var lines := SplitLines(text);
    preview := [];
    var i := 0;
    while i < |lines|
      invariant i <= |lines|
      invariant preview == Kept(lines[..i], commentChar)
      invariant |preview| <= PreviewLines
    {
      if |preview| >= PreviewLines {
        break;
      }
      KeptStep(lines, i, commentChar);
      if !IsComment(lines[i], commentChar) {
        preview := preview + [lines[i]];
      }
      i := i + 1;
    }
    KeptTake(lines, i, commentChar);
  }

  lemma KeptStep(lines: seq<string>, i: nat, commentChar: string)
    requires i < |lines|
    ensures Kept(lines[..i + 1], commentChar) == Kept(lines[..i], commentChar) + KeepLine(lines[i], commentChar)
  {
    assert lines[..i + 1][..i] == lines[..i];
  }

  /** Stopping once twenty lines are kept, or at the end, keeps the first
      twenty of all the non-comment lines. */
  lemma KeptTake(lines: seq<string>, i: nat, commentChar: string)
    requires i <= |lines|
    requires |Kept(lines[..i], commentChar)| <= PreviewLines
    requires i == |lines| || |Kept(lines[..i], commentChar)| == PreviewLines
    ensures Kept(lines[..i], commentChar) == Take(Kept(lines, commentChar), PreviewLines)
  {
    assert lines == lines[..i] + lines[i..];
    KeptAppend(lines[..i], lines[i..], commentChar);
    var a := Kept(lines[..i], commentChar);
    var all := Kept(lines, commentChar);
    if i < |lines| {
      assert all[..PreviewLines] == a;
    } else {
      assert lines[..i] == lines;
    }
  }

  // ---------------------------------------------------------------------
  // parsePreview and file selection

  datatype TableView = TableView(table: seq<seq<string>>, maxCols: nat, columns: seq<int>)

  /** `parsePreview`: nothing happens without a chosen file; otherwise the
      table is rebuilt and the selected columns cleared. */
  method ParsePreview(fileChosen: bool, preview: seq<string>, separator: string) returns (r: Option<TableView>)
    ensures r.Some? <==> fileChosen
    ensures r.Some? ==> r.value.columns == [] && |r.value.table| == |preview|
    ensures r.Some? ==> forall i | 0 <= i < |preview| :: |PreviewTable.Values(preview[i], separator)| <= r.value.maxCols
    ensures r.Some? ==> forall i, j | 0 <= i < |r.value.table| && 0 <= j < r.value.maxCols ::
              |r.value.table[i]| == r.value.maxCols && r.value.table[i][j] == PreviewTable.Cell(PreviewTable.Values(preview[i], separator), j)
  {
    if !fileChosen {
      return None;
    }
    var table, maxCols := PreviewTable.BuildTable(preview, separator);
    return Some(TableView(table, maxCols, []));
  }

  /** A file the browser offers: its MIME type and its bytes. */
  datatype FileInfo<B> = FileInfo(mimeType: string, content: seq<B>)

  datatype FileSelection<B> = NoFile | InvalidType | Reading(bytes: seq<B>)

  /** `onFileSelect`: the first chosen file is taken when its MIME type
      starts with `text/`, and its first 8192 bytes are read. */
  function OnFileSelect<B>(files: seq<FileInfo<B>>): (r: FileSelection<B>)
    ensures |files| == 0 <==> r.NoFile?
    ensures r.InvalidType? <==> |files| > 0 && !(|files[0].mimeType| >= 5 && files[0].mimeType[..5] == "text/")
    ensures r.Reading? ==> r.bytes <= files[0].content && |r.bytes| <= PreviewBytes
    ensures r.Reading? ==> |r.bytes| == PreviewBytes || r.bytes == files[0].content
  {
    if |files| == 0 then NoFile
    else if !(|files[0].mimeType| >= 5 && files[0].mimeType[..5] == "text/") then InvalidType
    else Reading(Take(files[0].content, PreviewBytes))
  }
}
