/** What the analyze and upload views share (their code is the same in
    both): the JavaScript string operations they use, the preview table
    built from the preview lines, and the selected-columns list. Strings
    are sequences of UTF-16 code units, one `char` each. */
module PreviewTable {
  import opened Wrappers
  import opened GoText

  // ---------------------------------------------------------------------
  // String.prototype.replace with a string pattern

  /** `s.replace(" ", "")`: only the first occurrence of `c` is removed. */
  function ReplaceFirst(s: string, c: char): (r: string)
    ensures c !in s ==> r == s
    ensures c in s ==> |r| == |s| - 1
  {
    if |s| == 0 then s
    else if s[0] == c then s[1..]
    else [s[0]] + ReplaceFirst(s[1..], c)
  }

  /** What is removed is the first occurrence: the text before it and
      the text after it are kept. */
  lemma {:induction false} ReplaceFirstRemovesFirst(s: string, c: char)
    requires c in s
    ensures var i := IndexOf(s, c); ReplaceFirst(s, c) == s[..i] + s[i + 1..]
  {
    if s[0] != c {
      var i := IndexOf(s, c);
      assert c in s[1..] by {
        assert s[i] == c && i >= 1;
        assert s[1..][i - 1] == c;
      }
      ReplaceFirstRemovesFirst(s[1..], c);
      assert IndexOf(s, c) == 1 + IndexOf(s[1..], c);
      assert s[..i] == [s[0]] + s[1..][..i - 1];
      assert s[i + 1..] == s[1..][i..];
    }
  }

  /** Unlike the server's parser, which removes every space, the views
      remove one: a space survives exactly when the line had two. */
  lemma ReplaceFirstKeepsLaterSpaces(s: string, c: char)
    ensures multiset(ReplaceFirst(s, c))[c] == if c in s then multiset(s)[c] - 1 else 0
    ensures c in ReplaceFirst(s, c) <==> multiset(s)[c] >= 2
  {
    if c in s {
      var i := IndexOf(s, c);
      var a, b := s[..i], s[i + 1..];
      ReplaceFirstRemovesFirst(s, c);
      Around(s, i);
      assert multiset(ReplaceFirst(s, c)) == multiset(a) + multiset(b);
      assert multiset(s) == multiset(a) + multiset{c} + multiset(b);
      assert multiset(a)[c] == 0;
    } else {
      assert multiset(s)[c] == 0;
    }
  }

  lemma Around<T>(s: seq<T>, i: nat)
    requires i < |s|
    ensures s == s[..i] + [s[i]] + s[i + 1..]
  {
  }

  /** Removing the rest of the spaces afterwards gives what the server's
      parser sees. */
  lemma {:induction false} ReplaceFirstThenRemoveAll(s: string, c: char)
    ensures RemoveAll(ReplaceFirst(s, c), c) == RemoveAll(s, c)
  {
    if |s| > 0 {
      ReplaceFirstThenRemoveAll(s[1..], c);
      if s[0] != c {
        var r := ReplaceFirst(s, c);
        assert r == [s[0]] + ReplaceFirst(s[1..], c);
        assert r[0] == s[0] && r[1..] == ReplaceFirst(s[1..], c);
      }
    }
  }

  // ---------------------------------------------------------------------
  // String.prototype.split with a string separator

  predicate OccursAt(s: string, sep: string, k: nat)
  {
    k + |sep| <= |s| && s[k..k + |sep|] == sep
  }

  /** The first occurrence of a non-empty `sep` in `s` at or after `i`. */
  function Find(s: string, sep: string, i: nat): (r: Option<nat>)
    requires |sep| > 0 && i <= |s|
    ensures r.Some? ==> i <= r.value && OccursAt(s, sep, r.value)
    ensures r.Some? ==> forall k | i <= k < r.value :: !OccursAt(s, sep, k)
    ensures r.None? ==> forall k | i <= k <= |s| :: !OccursAt(s, sep, k)
    decreases |s| - i
  {
    if i + |sep| > |s| then None
    else if s[i..i + |sep|] == sep then Some(i)
    else Find(s, sep, i + 1)
  }

  /** `s.split(sep)`: an empty separator splits into single code units (and
      an empty string into no pieces); otherwise the pieces between the
      occurrences of `sep` found left to right, empty pieces included. */
  function JsSplit(s: string, sep: string): (r: seq<string>)
    ensures |sep| > 0 ==> |r| >= 1
    ensures |sep| == 0 ==> |r| == |s| && forall i | 0 <= i < |r| :: r[i] == [s[i]]
    decreases |s|
  {
    if |sep| == 0 then seq(|s|, i requires 0 <= i < |s| => [s[i]])
    else match Find(s, sep, 0)
      case None => [s]
      case Some(i) => [s[..i]] + JsSplit(s[i + |sep|..], sep)
  }

  /** `parts.join(sep)`. */
  function JoinWith(parts: seq<string>, sep: string): string
    requires |parts| >= 1
  {
    if |parts| == 1 then parts[0] else parts[0] + sep + JoinWith(parts[1..], sep)
  }

  /** Joining the pieces of a split with the separator gives back the
      split string. */
  lemma {:induction false} JoinJsSplit(s: string, sep: string)
    requires |sep| > 0
    ensures JoinWith(JsSplit(s, sep), sep) == s
    decreases |s|
  {
    match Find(s, sep, 0)
    case None =>
      assert JsSplit(s, sep) == [s];
    case Some(i) =>
      var tail := s[i + |sep|..];
      var rest := JsSplit(tail, sep);
      JoinJsSplit(tail, sep);
      JoinWithCons(s[..i], rest, sep);
      Slices(s, i, i + |sep|);
      calc {
        JoinWith(JsSplit(s, sep), sep);
        JoinWith([s[..i]] + rest, sep);
        s[..i] + sep + JoinWith(rest, sep);
        s[..i] + s[i..i + |sep|] + tail;
        s;
      }
  }

  lemma Slices(s: string, i: nat, j: nat)
    requires i <= j <= |s|
    ensures s == s[..i] + s[i..j] + s[j..]
  {
  }

  lemma JoinWithCons(a: string, rest: seq<string>, sep: string)
    requires |rest| >= 1
    ensures JoinWith([a] + rest, sep) == a + sep + JoinWith(rest, sep)
  {
    assert ([a] + rest)[1..] == rest;
  }

  // ---------------------------------------------------------------------
  // The preview table

  /** The fields a view shows for a preview line: first space removed,
      then split on the separator typed into the form. */
  function Values(line: string, sep: string): seq<string>
  {
    JsSplit(ReplaceFirst(line, ' '), sep)
  }

  /** What a table cell shows: the field when it is longer than one code
      unit, `N/A` otherwise and past the end of the line's fields. */
  function Cell(values: seq<string>, j: nat): string
  {
    if j < |values| && |values[j]| > 1 then values[j] else "N/A"
  }

  /** One table row: `width` cells set to `N/A`, then every field longer
      than one code unit written over its cell. */
  method BuildRow(values: seq<string>, width: nat) returns (row: seq<string>)
    requires |values| <= width
    ensures |row| == width
    ensures forall j | 0 <= j < width :: row[j] == Cell(values, j)
  {
    row := seq(width, _ => "N/A");
    var j := 0;
    while j < |values|
      invariant j <= |values| && |row| == width
      invariant forall k | 0 <= k < width :: row[k] == if k < j then Cell(values, k) else "N/A"
    {
      if |values[j]| > 1 {
        row := row[j := values[j]];
      }
      j := j + 1;
    }
  }

  /** `parsePreviewTable` / `parsePreview`: the widest line's field count
      is the table width, and every line becomes a row of that width. */
  method BuildTable(lines: seq<string>, sep: string) returns (table: seq<seq<string>>, maxCols: nat)
    ensures forall i | 0 <= i < |lines| :: |Values(lines[i], sep)| <= maxCols
    ensures maxCols == 0 || exists i | 0 <= i < |lines| :: |Values(lines[i], sep)| == maxCols
    ensures |table| == |lines|
    ensures forall i | 0 <= i < |table| :: |table[i]| == maxCols
    ensures forall i, j | 0 <= i < |table| && 0 <= j < maxCols :: table[i][j] == Cell(Values(lines[i], sep), j)
  {
    maxCols := MaxFieldCount(lines, sep);
    table := BuildRows(lines, sep, maxCols);
  }

  /** The first pass: the largest field count over the lines (0 for no
      lines). */
  method MaxFieldCount(lines: seq<string>, sep: string) returns (maxCols: nat)
    ensures forall i | 0 <= i < |lines| :: |Values(lines[i], sep)| <= maxCols
    ensures maxCols == 0 || exists i | 0 <= i < |lines| :: |Values(lines[i], sep)| == maxCols
  {
    maxCols := 0;
    var i := 0;
    while i < |lines|
      invariant i <= |lines|
      invariant forall k | 0 <= k < i :: |Values(lines[k], sep)| <= maxCols
      invariant maxCols == 0 || exists k | 0 <= k < i :: |Values(lines[k], sep)| == maxCols
    {
      var n := |Values(lines[i], sep)|;
      if n > maxCols {
        maxCols := n;
      }
      i := i + 1;
    }
  }

  /** The second pass: one row per line. */
  method BuildRows(lines: seq<string>, sep: string, width: nat) returns (table: seq<seq<string>>)
    requires forall i | 0 <= i < |lines| :: |Values(lines[i], sep)| <= width
    ensures |table| == |lines|
    ensures forall i | 0 <= i < |table| :: |table[i]| == width
    ensures forall i, j | 0 <= i < |table| && 0 <= j < width :: table[i][j] == Cell(Values(lines[i], sep), j)
  {
    table := [];
    var i := 0;
    while i < |lines|
      invariant i <= |lines| && |table| == i
      invariant forall k | 0 <= k < i :: |table[k]| == width
      invariant forall k, j | 0 <= k < i && 0 <= j < width :: table[k][j] == Cell(Values(lines[k], sep), j)
    {
      var row := BuildRow(Values(lines[i], sep), width);
      table := table + [row];
      i := i + 1;
    }
  }

  // ---------------------------------------------------------------------
  // Column selection

  /** `selected.indexOf(c)`: the first position of `c`, or -1. */
  function JsIndexOf(s: seq<int>, c: int): (r: int)
    ensures -1 <= r < |s|
    ensures r == -1 <==> c !in s
    ensures r >= 0 ==> s[r] == c && c !in s[..r]
  {
    if c in s then IndexOfInt(s, c) else -1
  }

  function IndexOfInt(s: seq<int>, c: int): (i: nat)
    requires c in s
    ensures i < |s| && s[i] == c && c !in s[..i]
  {
    if s[0] == c then 0 else 1 + IndexOfInt(s[1..], c)
  }

  /** `isColumnSelected` / `isSelected`. */
  function IsColumnSelected(selected: seq<int>, c: int): (r: bool)
    ensures r <==> c in selected
  {
    JsIndexOf(selected, c) != -1
  }

  predicate NoDuplicates(s: seq<int>)
  {
    forall i, j | 0 <= i < j < |s| :: s[i] != s[j]
  }

  /** `toggleColumn`: a selected column is spliced out at its first
      position, any other is pushed at the end. */
  function ToggleColumn(selected: seq<int>, c: int): (r: seq<int>)
    ensures forall x | x != c :: x in r <==> x in selected
    ensures NoDuplicates(selected) ==> NoDuplicates(r) && (c in r <==> c !in selected)
  {
    if IsColumnSelected(selected, c) then
      var i := JsIndexOf(selected, c);
      assert selected == selected[..i] + [c] + selected[i + 1..];
      selected[..i] + selected[i + 1..]
    else selected + [c]
  }

  /** Toggling a column that is not selected twice gives back the list. */
  lemma ToggleTwiceRestores(selected: seq<int>, c: int)
    requires c !in selected
    ensures ToggleColumn(ToggleColumn(selected, c), c) == selected
  {
    var t := selected + [c];
    assert t[..|selected|] == selected;
    assert JsIndexOf(t, c) == |selected|;
  }

  /** Toggling a selected column twice moves it to the end. */
  lemma ToggleSelectedTwice(selected: seq<int>, c: int)
    requires c in selected && NoDuplicates(selected)
    ensures var i := JsIndexOf(selected, c);
      ToggleColumn(ToggleColumn(selected, c), c) == selected[..i] + selected[i + 1..] + [c]
  {
  }
}
