/** `readPreview` (api/preview.go): the lines of an uploaded file from a
    start line on, at most `previewSize` of them. The file is given as the
    lines its scanner yields and whether scanning ended in an error rather
    than at the end of the file; `previewSize` is a parameter. */
module Preview {
  import opened Wrappers

  /** What scanning a file produces: its lines in order, and whether the
      scanner stopped on a read error after them. */
  datatype Scanned = Scanned(lines: seq<string>, failed: bool)

  datatype PreviewError = OpenFailed | ScanFailed

  /** A negative start line counts as line 0. */
  function Clamp(start: int): (s: nat)
    ensures start >= 0 ==> s == start
    ensures start < 0 ==> s == 0
  {
    if start < 0 then 0 else start
  }

  /** How many lines a window of `size` lines from line `s` holds. */
  function WindowLength(total: nat, s: nat, size: nat): (n: nat)
    ensures n <= size
    ensures s + n <= total || n == 0
    ensures n < size ==> s + n >= total
  {
    if s >= total then 0
    else if total - s < size then total - s
    else size
  }

  /** `readPreview(file, start)`. A file that does not open is an error.
      The loop stops at the line `previewSize` past the start, so a scan
      error is only reported when the file ran out before that line. */
  method ReadPreview(file: Option<Scanned>, start: int, previewSize: nat)
    returns (r: Result<seq<string>, PreviewError>)
    ensures file.None? ==> r == Err(OpenFailed)
    ensures file.Some? ==>
      (r.Err? <==> file.value.failed && |file.value.lines| <= Clamp(start) + previewSize)
    ensures file.Some? && r.Err? ==> r.error == ScanFailed
    ensures r.Ok? ==>
      var lines, s := file.value.lines, Clamp(start);
      && |r.value| == WindowLength(|lines|, s, previewSize)
      && forall i | 0 <= i < |r.value| :: r.value[i] == lines[s + i]
  {
    var s := if start < 0 then 0 else start;
    if file.None? {
      return Err(OpenFailed);
    }
    var lines := file.value.lines;
    var data: seq<string> := [];
    var current := 0;
    while current < |lines|
      invariant current <= |lines| && current <= s + previewSize
      invariant current <= s ==> data == []
      invariant current > s ==> data == lines[s..current]
    {
      if current >= s + previewSize {
        break;
      }
      if current >= s {
        data := data + [lines[current]];
      }
      current := current + 1;
    }
    if current == |lines| && file.value.failed {
      return Err(ScanFailed);
    }
    return Ok(data);
  }
}
