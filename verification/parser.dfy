/** The dump-line parser (internal/parser/parser.go): a `{start}{separator}`
    pattern plus the selected column indices turn one raw line into an entry. */
module Parser {
  import opened Wrappers
  import opened GoText
  import PatternScan

  /** A configured parser. The checksum identifies the file the lines come
      from; computing it (SHA-256 of the file) is outside the model. */
  datatype Parser = Parser(
    start: int,
    separator: char,
    columns: seq<int>,
    filename: string,
    filepath: string,
    checksum: string)

  /** One indexed document: the source file, its checksum, the kept fields. */
  datatype Entry = Entry(origin: string, originId: string, data: seq<string>)

  datatype NewError = BadPattern(cause: PatternScan.ScanError) | ChecksumFailed

  /** `parser.New`: scan the pattern, store the columns and names unchanged,
      then take the file checksum (`checksum` is None when it could not be
      computed). */
  function New(pattern: string, columns: seq<int>, filename: string, filepath: string,
               checksum: Option<string>): (r: Result<Parser, NewError>)
    ensures r.Ok? <==> PatternScan.Scan(pattern).Ok? && checksum.Some?
    ensures PatternScan.Scan(pattern).Err? ==> r == Err(BadPattern(PatternScan.Scan(pattern).error))
    ensures r.Ok? ==> && r.value.columns == columns
                      && r.value.filename == filename
                      && r.value.filepath == filepath
                      && r.value.checksum == checksum.value
    ensures r.Ok? ==> IsInt64(r.value.start) && !IsSpace(r.value.separator)
  {
    match PatternScan.Scan(pattern)
    case Err(e) => Err(BadPattern(e))
    case Ok(pat) =>
      if checksum.None? then Err(ChecksumFailed)
      else Ok(Parser(pat.start, pat.separator, columns, filename, filepath, checksum.value))
  }

  /** The fields of a line: all `' '` removed, then split on the separator. */
  function Fields(p: Parser, line: string): (fs: seq<string>)
    ensures |fs| >= 1
    ensures forall i | 0 <= i < |fs| :: ' ' !in fs[i] && p.separator !in fs[i]
  {
    var stripped := RemoveAll(line, ' ');
    var fs := Split(stripped, p.separator);
    assert forall i | 0 <= i < |fs| :: ' ' !in fs[i] by {
      forall i | 0 <= i < |fs| ensures ' ' !in fs[i] {
        JoinSplit(stripped, p.separator);
        JoinContainsPart(fs, p.separator, i);
      }
    }
    fs
  }

  /** Every piece of a join occurs, rune for rune, inside the joined string. */
  lemma {:induction false} JoinContainsPart(parts: seq<string>, sep: char, i: nat)
    requires i < |parts|
    ensures forall x | x in parts[i] :: x in Join(parts, sep)
  {
    if i > 0 {
      JoinContainsPart(parts[1..], sep, i - 1);
    }
  }

  /** The inner loop over `Columns`: one copy of `field` per column equal to `i`. */
  function Copies(field: string, columns: seq<int>, i: int): (r: seq<string>)
    ensures forall k | 0 <= k < |r| :: r[k] == field
  {
    if |columns| == 0 then []
    else (if columns[0] == i then [field] else []) + Copies(field, columns[1..], i)
  }

  /** The outer loop over the fields, the `k`-th of which has index `i + k`;
      empty fields are skipped. */
  function SelectFrom(fields: seq<string>, columns: seq<int>, i: int): (r: seq<string>)
    ensures forall k | 0 <= k < |r| :: |r[k]| >= 1 && r[k] in fields
  {
    if |fields| == 0 then []
    else
      var here := if |fields[0]| < 1 then [] else Copies(fields[0], columns, i);
      var rest := SelectFrom(fields[1..], columns, i + 1);
      assert forall k | 0 <= k < |rest| :: rest[k] in fields by {
        forall k | 0 <= k < |rest| ensures rest[k] in fields {
          assert rest[k] in fields[1..];
        }
      }
      here + rest
  }

  /** `ParseEntry`: None only for the empty line; any other line yields an
      entry stamped with the parser's file name and checksum. */
  function ParseEntry(p: Parser, line: string): (r: Option<Entry>)
    ensures r.None? <==> |line| == 0
    ensures r.Some? ==> r.value.origin == p.filename && r.value.originId == p.checksum
    ensures r.Some? ==> forall k | 0 <= k < |r.value.data| ::
              && |r.value.data[k]| >= 1
              && ' ' !in r.value.data[k]
              && p.separator !in r.value.data[k]
              && r.value.data[k] in Fields(p, line)
  {
    if |line| < 1 then None
    else Some(Entry(p.filename, p.checksum, SelectFrom(Fields(p, line), p.columns, 0)))
  }

  // ---------------------------------------------------------------------
  // Which fields are kept, and how often

  function Repeat<T>(x: T, n: nat): (r: seq<T>)
    ensures |r| == n && forall k | 0 <= k < n :: r[k] == x
  {
    if n == 0 then [] else [x] + Repeat(x, n - 1)
  }

  lemma {:induction false} MultisetRepeat<T>(x: T, n: nat)
    ensures multiset(Repeat(x, n))[x] == n
    ensures forall y | y != x :: multiset(Repeat(x, n))[y] == 0
  {
    if n > 0 {
      MultisetRepeat(x, n - 1);
    }
  }

  /** The inner loop emits a field exactly as many times as its index
      occurs in `Columns`. */
  lemma {:induction false} CopiesCount(field: string, columns: seq<int>, i: int)
    ensures Copies(field, columns, i) == Repeat(field, multiset(columns)[i])
  {
    if |columns| > 0 {
      assert columns == [columns[0]] + columns[1..];
      CopiesCount(field, columns[1..], i);
    }
  }

  /** The field index behind every kept value, in the order the values are
      kept. */
  function PositionsFrom(fields: seq<string>, columns: seq<int>, i: int): seq<int>
  {
    if |fields| == 0 then []
    else
      var here := if |fields[0]| < 1 then [] else Repeat(i, multiset(columns)[i]);
      here + PositionsFrom(fields[1..], columns, i + 1)
  }

  /** How often field `j` is kept: once per occurrence of `j` in `columns`
      when the field is non-empty, never otherwise. */
  function Wanted(fields: seq<string>, columns: seq<int>, i: int, j: int): nat
  {
    if i <= j < i + |fields| && |fields[j - i]| >= 1 then multiset(columns)[j] else 0
  }

  /** Indexing into a run of copies followed by the rest. */
  lemma RepeatThenAt<T>(x: T, n: nat, rest: seq<T>, k: int)
    requires 0 <= k < n + |rest|
    ensures k < n ==> (Repeat(x, n) + rest)[k] == x
    ensures k >= n ==> (Repeat(x, n) + rest)[k] == rest[k - n]
  {
  }

  lemma {:induction false} PositionsLength(fields: seq<string>, columns: seq<int>, i: int)
    ensures |PositionsFrom(fields, columns, i)| == |SelectFrom(fields, columns, i)|
    decreases |fields|
  {
    if |fields| > 0 {
      PositionsLength(fields[1..], columns, i + 1);
      CopiesCount(fields[0], columns, i);
    }
  }

  /** Every recorded position is a field index and one of the selected
      columns. */
  lemma {:induction false} PositionsInRange(fields: seq<string>, columns: seq<int>, i: int)
    ensures forall k | 0 <= k < |PositionsFrom(fields, columns, i)| ::
              && i <= PositionsFrom(fields, columns, i)[k] < i + |fields|
              && PositionsFrom(fields, columns, i)[k] in columns
    decreases |fields|
  {
    if |fields| > 0 {
      var pos := PositionsFrom(fields, columns, i);
      var n := if |fields[0]| < 1 then 0 else multiset(columns)[i];
      var restPos := PositionsFrom(fields[1..], columns, i + 1);
      PositionsInRange(fields[1..], columns, i + 1);
      assert pos == Repeat(i, n) + restPos;
      forall k | 0 <= k < |pos|
        ensures i <= pos[k] < i + |fields| && pos[k] in columns
      {
        RepeatThenAt(i, n, restPos, k);
        if k < n {
          assert multiset(columns)[i] > 0;
        }
      }
    }
  }

  /** Each kept value is the field at its recorded position. */
  lemma {:induction false} PositionsLocate(fields: seq<string>, columns: seq<int>, i: int)
    ensures |PositionsFrom(fields, columns, i)| == |SelectFrom(fields, columns, i)|
    ensures forall k | 0 <= k < |PositionsFrom(fields, columns, i)| ::
              && i <= PositionsFrom(fields, columns, i)[k] < i + |fields|
              && SelectFrom(fields, columns, i)[k] == fields[PositionsFrom(fields, columns, i)[k] - i]
    decreases |fields|
  {
    PositionsLength(fields, columns, i);
    if |fields| > 0 {
      var n := if |fields[0]| < 1 then 0 else multiset(columns)[i];
      PositionsLocate(fields[1..], columns, i + 1);
      CopiesCount(fields[0], columns, i);
      var restData := SelectFrom(fields[1..], columns, i + 1);
      var restPos := PositionsFrom(fields[1..], columns, i + 1);
      LocateStep(fields, i, n, restData, restPos);
      assert SelectFrom(fields, columns, i) == Repeat(fields[0], n) + restData;
      assert PositionsFrom(fields, columns, i) == Repeat(i, n) + restPos;
    }
  }

  /** The inductive step of `PositionsLocate`, on plain sequences. */
  lemma LocateStep(fields: seq<string>, i: int, n: nat, restData: seq<string>, restPos: seq<int>)
    requires |fields| > 0 && |restPos| == |restData|
    requires forall k | 0 <= k < |restPos| ::
               && i + 1 <= restPos[k] < i + |fields|
               && restData[k] == fields[1..][restPos[k] - (i + 1)]
    ensures forall k | 0 <= k < n + |restPos| ::
              && i <= (Repeat(i, n) + restPos)[k] < i + |fields|
              && (Repeat(fields[0], n) + restData)[k] == fields[(Repeat(i, n) + restPos)[k] - i]
  {
    forall k | 0 <= k < n + |restPos|
      ensures && i <= (Repeat(i, n) + restPos)[k] < i + |fields|
              && (Repeat(fields[0], n) + restData)[k] == fields[(Repeat(i, n) + restPos)[k] - i]
    {
      RepeatThenAt(i, n, restPos, k);
      RepeatThenAt(fields[0], n, restData, k);
    }
  }

  /** The positions never decrease: values are kept in field order, not in
      the order of `columns`. */
  lemma {:induction false} PositionsSorted(fields: seq<string>, columns: seq<int>, i: int)
    ensures forall k | 0 <= k < |PositionsFrom(fields, columns, i)| :: i <= PositionsFrom(fields, columns, i)[k]
    ensures forall k, l | 0 <= k < l < |PositionsFrom(fields, columns, i)| ::
              PositionsFrom(fields, columns, i)[k] <= PositionsFrom(fields, columns, i)[l]
    decreases |fields|
  {
    if |fields| > 0 {
      var pos := PositionsFrom(fields, columns, i);
      var n := if |fields[0]| < 1 then 0 else multiset(columns)[i];
      var restPos := PositionsFrom(fields[1..], columns, i + 1);
      PositionsSorted(fields[1..], columns, i + 1);
      assert pos == Repeat(i, n) + restPos;
      forall k | 0 <= k < |pos|
        ensures i <= pos[k]
      {
        if k >= n {
          assert pos[k] == restPos[k - n];
        }
      }
      forall k, l | 0 <= k < l < |pos|
        ensures pos[k] <= pos[l]
      {
        if k >= n {
          assert pos[k] == restPos[k - n];
          assert pos[l] == restPos[l - n];
        } else if l >= n {
          assert pos[k] == i;
          assert pos[l] == restPos[l - n];
        }
      }
    }
  }

  /** Field `j` is kept once per occurrence of `j` in `columns` when it is
      non-empty, and never when it is empty or out of range. */
  lemma {:induction false} PositionsCount(fields: seq<string>, columns: seq<int>, i: int, j: int)
    ensures multiset(PositionsFrom(fields, columns, i))[j] == Wanted(fields, columns, i, j)
    decreases |fields|
  {
    if |fields| > 0 {
      var pos := PositionsFrom(fields, columns, i);
      var n := if |fields[0]| < 1 then 0 else multiset(columns)[i];
      var restPos := PositionsFrom(fields[1..], columns, i + 1);
      PositionsCount(fields[1..], columns, i + 1, j);
      MultisetRepeat(i, n);
      assert pos == Repeat(i, n) + restPos;
      assert multiset(pos)[j] == multiset(Repeat(i, n))[j] + multiset(restPos)[j];
      if j == i {
        assert Wanted(fields[1..], columns, i + 1, j) == 0;
        assert Wanted(fields, columns, i, j) == n;
      } else if i + 1 <= j < i + 1 + |fields[1..]| {
        assert fields[1..][j - (i + 1)] == fields[j - i];
        assert Wanted(fields[1..], columns, i + 1, j) == Wanted(fields, columns, i, j);
      } else {
        assert Wanted(fields[1..], columns, i + 1, j) == 0;
        assert Wanted(fields, columns, i, j) == 0;
      }
    }
  }

  /** The order of `columns` does not matter, only how often each index
      occurs in it. */
  lemma {:induction false} ColumnOrderIrrelevant(fields: seq<string>, c1: seq<int>, c2: seq<int>, i: int)
    requires multiset(c1) == multiset(c2)
    ensures SelectFrom(fields, c1, i) == SelectFrom(fields, c2, i)
    decreases |fields|
  {
    if |fields| > 0 {
      CopiesCount(fields[0], c1, i);
      CopiesCount(fields[0], c2, i);
      ColumnOrderIrrelevant(fields[1..], c1, c2, i + 1);
    }
  }

  /** Column indices outside the field range change nothing. */
  lemma {:induction false} OutOfRangeColumnsIgnored(fields: seq<string>, columns: seq<int>, extra: seq<int>, i: int)
    requires forall k | 0 <= k < |extra| :: extra[k] < i || extra[k] >= i + |fields|
    ensures SelectFrom(fields, columns + extra, i) == SelectFrom(fields, columns, i)
    decreases |fields|
  {
    if |fields| > 0 {
      CopiesCount(fields[0], columns + extra, i);
      CopiesCount(fields[0], columns, i);
      assert multiset(columns + extra) == multiset(columns) + multiset(extra);
      assert i !in extra;
      OutOfRangeColumnsIgnored(fields[1..], columns, extra, i + 1);
    }
  }

  /** `ParseEntry` depends on `Columns` only through how often each index
      occurs, and column indices beyond the field count are ignored. */
  lemma ParseEntryColumns(p: Parser, line: string, columns: seq<int>, extra: seq<int>)
    requires multiset(columns) == multiset(p.columns)
    requires forall k | 0 <= k < |extra| :: extra[k] < 0 || extra[k] >= |Fields(p, line)|
    ensures ParseEntry(p.(columns := columns + extra), line) == ParseEntry(p, line)
  {
    var fs := Fields(p, line);
    OutOfRangeColumnsIgnored(fs, columns, extra, 0);
    ColumnOrderIrrelevant(fs, columns, p.columns, 0);
  }

  /** A line made only of spaces yields an entry whose data is empty. */
  lemma BlankLineGivesEmptyEntry(p: Parser, n: nat)
    requires n >= 1
    ensures ParseEntry(p, Repeat(' ', n)) == Some(Entry(p.filename, p.checksum, []))
  {
    var line := Repeat(' ', n);
    var stripped := RemoveAll(line, ' ');
    MultisetRepeat(' ', n);
    assert multiset(stripped) == multiset{};
    assert stripped == "";
    assert Split("", p.separator) == [""];
    assert Fields(p, line) == [""];
    assert SelectFrom([""], p.columns, 0) == [];
  }
}
