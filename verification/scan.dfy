/** The pattern reader of `parser.New`: Go's `fmt.Sscanf(pattern, "{%d}{%1s}", ...)`,
    with the scanner rules that format exercises written out. */
module PatternScan {
  import opened Wrappers
  import opened GoText

  datatype ScanError =
    | UnexpectedEof        // io.ErrUnexpectedEOF: input ended inside the format
    | InputMismatch        // "input does not match format"
    | UnexpectedNewline    // a newline where the format has none
    | ExpectedInteger      // "expected integer"
    | IntegerOutOfRange    // strconv.ParseInt range error

  /** The two values the format reads: the start line and the separator rune. */
  datatype Pattern = Pattern(start: int, separator: char)

  /** `ss.SkipSpace` as used by `Sscanf`: white space is skipped, but a
      newline in the input is an error. */
  function SkipSpace(s: string, i: nat): (r: Result<nat, ScanError>)
    requires i <= |s|
    ensures r.Ok? ==> i <= r.value <= |s| && (r.value == |s| || !IsSpace(s[r.value]))
    ensures r.Ok? ==> forall k | i <= k < r.value :: IsSpace(s[k]) && s[k] != '\n'
    ensures r.Err? ==> r.error == UnexpectedNewline && '\n' in s[i..]
    decreases |s| - i
  {
    if i == |s| then Ok(i)
    else if s[i] == '\n' then Err(UnexpectedNewline)
    else if IsSpace(s[i]) then SkipSpace(s, i + 1)
    else Ok(i)
  }

  /** A literal rune of the format: the next input rune must be `c`. */
  function Literal(s: string, i: nat, c: char): (r: Result<nat, ScanError>)
    requires i <= |s|
    ensures r.Ok? <==> i < |s| && s[i] == c
    ensures r.Ok? ==> r.value == i + 1
  {
    if i == |s| then Err(UnexpectedEof)
    else if s[i] != c then Err(InputMismatch)
    else Ok(i + 1)
  }

  /** The end of the run of decimal digits that starts at `i`. */
  function DigitRunEnd(s: string, i: nat): (j: nat)
    requires i <= |s|
    ensures i <= j <= |s| && (j == |s| || !IsDigit(s[j]))
    ensures forall k | i <= k < j :: IsDigit(s[k])
    decreases |s| - i
  {
    if i < |s| && IsDigit(s[i]) then DigitRunEnd(s, i + 1) else i
  }

  function DigitValue(c: char): nat
    requires IsDigit(c)
  {
    c as int - '0' as int
  }

  /** The value of a string of decimal digits. */
  function DigitsValue(ds: string): nat
    requires forall k | 0 <= k < |ds| :: IsDigit(ds[k])
  {
    if |ds| == 0 then 0
    else DigitsValue(ds[..|ds| - 1]) * 10 + DigitValue(ds[|ds| - 1])
  }

  /** The `%d` verb: skip spaces, an optional sign, a non-empty run of
      digits, and `strconv.ParseInt(token, 10, 64)`. */
  function ScanInt(s: string, i: nat): (r: Result<(int, nat), ScanError>)
    requires i <= |s|
    ensures r.Ok? ==> IsInt64(r.value.0) && i < r.value.1 <= |s|
    ensures r.Ok? ==> IsDigit(s[r.value.1 - 1]) && (r.value.1 == |s| || !IsDigit(s[r.value.1]))
  {
    var j :- SkipSpace(s, i);
    if j == |s| then Err(UnexpectedEof)
    else
      var k := if s[j] == '+' || s[j] == '-' then j + 1 else j;
      if k == |s| then Err(UnexpectedEof)
      else if !IsDigit(s[k]) then Err(ExpectedInteger)
      else
        var m := DigitRunEnd(s, k);
        var magnitude := DigitsValue(s[k..m]);
        var n: int := if s[j] == '-' then -(magnitude as int) else magnitude;
        if IsInt64(n) then Ok((n, m)) else Err(IntegerOutOfRange)
  }

  /** The `%1s` verb: skip spaces, then exactly one non-space rune. */
  function ScanRune(s: string, i: nat): (r: Result<(char, nat), ScanError>)
    requires i <= |s|
    ensures r.Ok? ==> i < r.value.1 <= |s| && s[r.value.1 - 1] == r.value.0
    ensures r.Ok? ==> !IsSpace(r.value.0)
  {
    var j :- SkipSpace(s, i);
    if j == |s| then Err(UnexpectedEof) else Ok((s[j], j + 1))
  }

  /** `fmt.Sscanf(pattern, "{%d}{%1s}", &start, &separator)`. Input left
      over after the last `}` is not examined. */
  function Scan(s: string): (r: Result<Pattern, ScanError>)
    ensures r.Ok? ==> IsInt64(r.value.start) && !IsSpace(r.value.separator)
    ensures r.Ok? ==> |s| >= 6 && s[0] == '{'
    ensures |s| == 0 || s[0] != '{' ==> r.Err?
  {
    var a :- Literal(s, 0, '{');
    var nb :- ScanInt(s, a);
    var c :- Literal(s, nb.1, '}');
    var d :- Literal(s, c, '{');
    var se :- ScanRune(s, d);
    var f :- Literal(s, se.1, '}');
    Ok(Pattern(nb.0, se.0))
  }

  /** The decimal digits of a natural number, most significant first. */
  function DecimalDigits(m: nat): (r: string)
    ensures |r| >= 1
    ensures forall k | 0 <= k < |r| :: IsDigit(r[k])
    ensures DigitsValue(r) == m
  {
    if m < 10 then [('0' as int + m) as char]
    else
      var r := DecimalDigits(m / 10) + [('0' as int + m % 10) as char];
      assert r[..|r| - 1] == DecimalDigits(m / 10);
      r
  }

  /** The usual decimal rendering of an integer, with a leading `-` when negative. */
  function Decimal(n: int): string
  {
    if n < 0 then "-" + DecimalDigits(-n) else DecimalDigits(n)
  }

  lemma {:induction false} DigitRunEndAt(s: string, i: nat, j: nat)
    requires i <= j < |s|
    requires forall k | i <= k < j :: IsDigit(s[k])
    requires !IsDigit(s[j])
    ensures DigitRunEnd(s, i) == j
    decreases j - i
  {
    if i < j {
      DigitRunEndAt(s, i + 1, j);
    }
  }

  /** `%d` over a rendered integer stops right after its digits. */
  lemma ScanIntOfRendered(s: string, n: int, m: nat)
    requires IsInt64(n)
    requires 1 + |Decimal(n)| == m < |s|
    requires s[1..m] == Decimal(n) && !IsDigit(s[m])
    ensures ScanInt(s, 1) == Ok((n, m))
  {
    var mag := if n < 0 then -n else n;
    var k := if n < 0 then 2 else 1;
    assert s[k..m] == DecimalDigits(mag);
    assert s[1] == Decimal(n)[0];
    DigitsRunAt(s, k, m, DecimalDigits(mag));
    assert !IsSpace(s[1]);
    assert SkipSpace(s, 1) == Ok(1);
  }

  /** A digit string placed at `k` is the whole run of digits there. */
  lemma DigitsRunAt(s: string, k: nat, m: nat, ds: string)
    requires k <= m < |s| && s[k..m] == ds && !IsDigit(s[m])
    requires forall q | 0 <= q < |ds| :: IsDigit(ds[q])
    ensures DigitRunEnd(s, k) == m
  {
    forall q | k <= q < m
      ensures IsDigit(s[q])
    {
      assert s[q] == ds[q - k];
    }
    DigitRunEndAt(s, k, m);
  }

  /** Scanning a pattern written as `{<decimal n>}{<c>}` recovers `n` and
      `c`, for any 64-bit `n` and any non-space rune `c`, whatever follows. */
  lemma ScanOfRendered(n: int, c: char, tail: string)
    requires IsInt64(n) && !IsSpace(c)
    ensures Scan("{" + Decimal(n) + "}{" + [c] + "}" + tail) == Ok(Pattern(n, c))
  {
    var s := "{" + Decimal(n) + "}{" + [c] + "}" + tail;
    var m := 1 + |Decimal(n)|;
    assert s[0] == '{';
    assert s[1..m] == Decimal(n);
    assert s[m] == '}' && s[m + 1] == '{' && s[m + 2] == c && s[m + 3] == '}';
    ScanOfLayout(s, n, c, m);
  }

  /** The same, for any string laid out as `{<decimal n>}{<c>}...`. */
  lemma ScanOfLayout(s: string, n: int, c: char, m: nat)
    requires IsInt64(n) && !IsSpace(c)
    requires 1 + |Decimal(n)| == m && m + 3 < |s|
    requires s[0] == '{' && s[1..m] == Decimal(n)
    requires s[m] == '}' && s[m + 1] == '{' && s[m + 2] == c && s[m + 3] == '}'
    ensures Scan(s) == Ok(Pattern(n, c))
  {
    ScanIntOfRendered(s, n, m);
    assert Literal(s, 0, '{') == Ok(1);
    assert Literal(s, m, '}') == Ok(m + 1);
    assert Literal(s, m + 1, '{') == Ok(m + 2);
    assert SkipSpace(s, m + 2) == Ok(m + 2);
    assert ScanRune(s, m + 2) == Ok((c, m + 3));
    assert Literal(s, m + 3, '}') == Ok(m + 4);
  }

  /** Patterns `parser.New` refuses: an empty pattern, a missing or
      misplaced brace, a non-integer start, a space where the separator
      belongs, a start beyond 64 bits. */
  lemma RejectedEmpty()
    ensures Scan("").Err?
  {
  }

  lemma RejectedMissingSeparator()
    ensures Scan("{1}{").Err?
  {
    var q := "{1}{";
    assert SkipSpace(q, 1) == Ok(1);
    assert DigitRunEnd(q, 1) == 2;
    assert q[1..2] == "1";
    assert DigitsValue("1") == 1 by { assert "1"[..0] == ""; }
    assert ScanInt(q, 1) == Ok((1, 2));
    assert SkipSpace(q, 4) == Ok(4);
  }

  lemma RejectedMissingBrace()
    ensures Scan("{1}{:").Err?
  {
    var p := "{1}{:";
    assert SkipSpace(p, 1) == Ok(1);
    assert DigitRunEnd(p, 1) == 2;
    assert p[1..2] == "1";
    assert DigitsValue("1") == 1 by { assert "1"[..0] == ""; }
    assert ScanInt(p, 1) == Ok((1, 2));
    assert SkipSpace(p, 4) == Ok(4);
    assert ScanRune(p, 4) == Ok((':', 5));
  }

  lemma RejectedNonNumericStart()
    ensures Scan("{x}{:}").Err?
  {
    var x := "{x}{:}";
    assert SkipSpace(x, 1) == Ok(1);
    assert ScanInt(x, 1) == Err(ExpectedInteger);
  }

  lemma RejectedSpaceSeparator()
    ensures Scan("{1}{ }").Err?
  {
    var p := "{1}{ }";
    assert SkipSpace(p, 1) == Ok(1);
    assert DigitRunEnd(p, 1) == 2;
    assert SkipSpace(p, 4) == Ok(5);
    assert ScanRune(p, 4) == Ok(('}', 6));
  }

  function Pow10(k: nat): nat
  {
    if k == 0 then 1 else 10 * Pow10(k - 1)
  }

  /** A digit string without a leading zero is at least 10^(length-1). */
  lemma {:induction false} DigitsValueLowerBound(ds: string)
    requires |ds| >= 1 && ds[0] != '0'
    requires forall k | 0 <= k < |ds| :: IsDigit(ds[k])
    ensures DigitsValue(ds) >= Pow10(|ds| - 1)
  {
    if |ds| > 1 {
      DigitsValueLowerBound(ds[..|ds| - 1]);
    } else {
      assert ds[..0] == "";
    }
  }

  lemma Pow10Nineteen()
    ensures Pow10(19) == 10000000000000000000
  {
    assert Pow10(1) == 10;
    assert Pow10(2) == 100;
    assert Pow10(3) == 1000;
    assert Pow10(4) == 10000;
    assert Pow10(5) == 100000;
    assert Pow10(6) == 1000000;
    assert Pow10(7) == 10000000;
    assert Pow10(8) == 100000000;
    assert Pow10(9) == 1000000000;
    assert Pow10(10) == 10000000000;
    assert Pow10(11) == 100000000000;
    assert Pow10(12) == 1000000000000;
    assert Pow10(13) == 10000000000000;
    assert Pow10(14) == 100000000000000;
    assert Pow10(15) == 1000000000000000;
    assert Pow10(16) == 10000000000000000;
    assert Pow10(17) == 100000000000000000;
    assert Pow10(18) == 1000000000000000000;
  }

  lemma {:induction false} Pow10Monotone(a: nat, b: nat)
    requires a <= b
    ensures Pow10(a) <= Pow10(b)
    decreases b
  {
    if a < b {
      Pow10Monotone(a, b - 1);
    }
  }

  /** `%d` refuses a run of twenty or more digits without a leading zero:
      the value does not fit in 64 bits. */
  lemma ScanIntRejectsLongNumber(s: string, m: nat)
    requires 21 <= m < |s| && s[1] != '0' && !IsDigit(s[m])
    requires forall k | 1 <= k < m :: IsDigit(s[k])
    ensures ScanInt(s, 1) == Err(IntegerOutOfRange)
  {
    assert !IsSpace(s[1]);
    assert SkipSpace(s, 1) == Ok(1);
    DigitRunEndAt(s, 1, m);
    var ds := s[1..m];
    DigitsValueLowerBound(ds);
    Pow10Monotone(19, |ds| - 1);
    Pow10Nineteen();
  }

  lemma RejectedOverflow()
    ensures Scan("{10000000000000000000}{:}").Err?
  {
    var p := "{10000000000000000000}{:}";
    ScanIntRejectsLongNumber(p, 21);
  }

  /** Patterns the scanner accepts, including lenient ones: spaces before
      either value, an explicit sign, leading zeros, input after the last
      brace, and `}` itself as the separator. */
  lemma AcceptedPattern()
    ensures Scan("{1}{:}") == Ok(Pattern(1, ':'))
  {
    var p := "{1}{:}";
    assert Decimal(1) == "1";
    assert p[1..2] == "1";
    ScanOfLayout(p, 1, ':', 2);
  }

  lemma AcceptedBraceSeparator()
    ensures Scan("{0}{}}") == Ok(Pattern(0, '}'))
  {
    var p := "{0}{}}";
    assert Decimal(0) == "0";
    assert p[1..2] == "0";
    ScanOfLayout(p, 0, '}', 2);
  }

  lemma AcceptedSpacedSignedPattern()
    ensures Scan("{ -2}{ ,}") == Ok(Pattern(-2, ','))
  {
    var p := "{ -2}{ ,}";
    assert SkipSpace(p, 2) == Ok(2);
    assert SkipSpace(p, 1) == Ok(2);
    assert DigitRunEnd(p, 4) == 4;
    assert DigitRunEnd(p, 3) == 4;
    assert p[3..4] == "2";
    assert DigitsValue("2") == 2 by { assert "2"[..0] == ""; }
    assert ScanInt(p, 1) == Ok((-2, 4));
    assert SkipSpace(p, 7) == Ok(7);
    assert SkipSpace(p, 6) == Ok(7);
    assert ScanRune(p, 6) == Ok((',', 8));
  }

  lemma AcceptedPaddedPatternWithTrailer()
    ensures Scan("{+07}{;}x") == Ok(Pattern(7, ';'))
  {
    var q := "{+07}{;}x";
    assert SkipSpace(q, 1) == Ok(1);
    assert DigitRunEnd(q, 4) == 4;
    assert DigitRunEnd(q, 3) == 4;
    assert DigitRunEnd(q, 2) == 4;
    assert q[2..4] == "07";
    assert DigitsValue("07") == 7 by { assert "07"[..1] == "0"; assert "0"[..0] == ""; }
    assert ScanInt(q, 1) == Ok((7, 4));
    assert SkipSpace(q, 6) == Ok(6);
    assert ScanRune(q, 6) == Ok((';', 7));
  }
}
