/** Standard base64 with padding (section 4 of RFC 4648) as Go's
    `base64.StdEncoding` implements it: `EncodeToString`, and
    `DecodeString`, which skips CR and LF anywhere in its input and does
    not insist that the unused bits of the last quantum be zero. */
module Base64 {
  import opened Wrappers

  newtype byte = x: int | 0 <= x < 256

  const Pad: byte := 61     // '='
  const CR: byte := 13
  const LF: byte := 10

  /** The character of a 6-bit value: `A`-`Z`, `a`-`z`, `0`-`9`, `+`, `/`. */
  function Digit(v: int): (c: byte)
    requires 0 <= v < 64
  {
    if v < 26 then (65 + v) as byte
    else if v < 52 then (97 + v - 26) as byte
    else if v < 62 then (48 + v - 52) as byte
    else if v == 62 then 43 as byte
    else 47 as byte
  }

  /** The 6-bit value of an alphabet character; `None` for any other byte. */
  function Value(c: byte): (r: Option<int>)
    ensures r.Some? ==> 0 <= r.value < 64
  {
    if 65 <= c <= 90 then Some(c as int - 65)
    else if 97 <= c <= 122 then Some(c as int - 97 + 26)
    else if 48 <= c <= 57 then Some(c as int - 48 + 52)
    else if c == 43 then Some(62)
    else if c == 47 then Some(63)
    else None
  }

  /** Every 6-bit value's character reads back as that value. */
  lemma ValueOfDigit(v: int)
    requires 0 <= v < 64
    ensures Value(Digit(v)) == Some(v)
  {
  }

  /** Every alphabet character is the character of its value. */
  lemma DigitOfValue(c: byte)
    requires Value(c).Some?
    ensures Digit(Value(c).value) == c
  {
  }

  predicate IsDigit(c: byte)
  {
    Value(c).Some?
  }

  /** `EncodeToString`: each group of three bytes becomes four characters;
      a final group of one or two bytes is padded with `=` to four. */
  function Encode(b: seq<byte>): (r: seq<byte>)
    ensures |r| == 4 * ((|b| + 2) / 3)
    ensures forall i | 0 <= i < |r| :: IsDigit(r[i]) || r[i] == Pad
    decreases |b|
  {
    if |b| == 0 then []
    else if |b| == 1 then
      EncodeDigits(b[0] as int / 4, b[0] as int % 4 * 16, 0, 0);
      [Digit(b[0] as int / 4), Digit(b[0] as int % 4 * 16), Pad, Pad]
    else if |b| == 2 then
      EncodeDigits(b[0] as int / 4, b[0] as int % 4 * 16 + b[1] as int / 16, b[1] as int % 16 * 4, 0);
      [Digit(b[0] as int / 4), Digit(b[0] as int % 4 * 16 + b[1] as int / 16), Digit(b[1] as int % 16 * 4), Pad]
    else
      EncodeDigits(b[0] as int / 4, b[0] as int % 4 * 16 + b[1] as int / 16,
                   b[1] as int % 16 * 4 + b[2] as int / 64, b[2] as int % 64);
      Quantum(b[0], b[1], b[2]) + Encode(b[3..])
  }

  /** The four characters of three bytes. */
  function Quantum(b0: byte, b1: byte, b2: byte): seq<byte>
  {
    [Digit(b0 as int / 4), Digit(b0 as int % 4 * 16 + b1 as int / 16),
     Digit(b1 as int % 16 * 4 + b2 as int / 64), Digit(b2 as int % 64)]
  }

  lemma EncodeDigits(v0: int, v1: int, v2: int, v3: int)
    requires 0 <= v0 < 64 && 0 <= v1 < 64 && 0 <= v2 < 64 && 0 <= v3 < 64
    ensures IsDigit(Digit(v0)) && IsDigit(Digit(v1)) && IsDigit(Digit(v2)) && IsDigit(Digit(v3))
  {
    ValueOfDigit(v0);
    ValueOfDigit(v1);
    ValueOfDigit(v2);
    ValueOfDigit(v3);
  }

  /** The input with every CR and LF removed. */
  function DropNewlines(s: seq<byte>): (r: seq<byte>)
    ensures |r| <= |s|
    ensures forall i | 0 <= i < |r| :: r[i] != CR && r[i] != LF
  {
    if |s| == 0 then []
    else
      (if s[0] == CR || s[0] == LF then [] else [s[0]]) + DropNewlines(s[1..])
  }

  datatype DecodeError = CorruptInput

  /** Decoding of newline-free input, four characters at a time: four
      alphabet characters give three bytes; `xx==` and `xxx=` give one and
      two bytes and must end the input; anything else, including an input
      whose length is not a multiple of four, is corrupt. */
  function DecodeQuanta(s: seq<byte>): (r: Result<seq<byte>, DecodeError>)
    decreases |s|
  {
    if |s| == 0 then Ok([])
    else if |s| < 4 then Err(CorruptInput)
    else
      var v0, v1, v2, v3 := Value(s[0]), Value(s[1]), Value(s[2]), Value(s[3]);
      if v0.None? || v1.None? then Err(CorruptInput)
      else if v2.Some? && v3.Some? then
        match DecodeQuanta(s[4..])
        case Err(e) => Err(e)
        case Ok(rest) => Ok(Bytes3(v0.value, v1.value, v2.value, v3.value) + rest)
      else if v2.None? && s[2] == Pad && s[3] == Pad && |s| == 4 then
        Ok(Bytes1(v0.value, v1.value))
      else if v2.Some? && s[3] == Pad && |s| == 4 then
        Ok(Bytes2(v0.value, v1.value, v2.value))
      else Err(CorruptInput)
  }

  /** The byte of a final `xx==` quantum: the low bits of the second
      value are ignored. */
  function Bytes1(v0: int, v1: int): seq<byte>
    requires 0 <= v0 < 64 && 0 <= v1 < 64
  {
    [(v0 * 4 + v1 / 16) as byte]
  }

  /** The two bytes of a final `xxx=` quantum. */
  function Bytes2(v0: int, v1: int, v2: int): seq<byte>
    requires 0 <= v0 < 64 && 0 <= v1 < 64 && 0 <= v2 < 64
  {
    [(v0 * 4 + v1 / 16) as byte, (v1 % 16 * 16 + v2 / 4) as byte]
  }

  /** The three bytes of four 6-bit values. */
  function Bytes3(v0: int, v1: int, v2: int, v3: int): seq<byte>
    requires 0 <= v0 < 64 && 0 <= v1 < 64 && 0 <= v2 < 64 && 0 <= v3 < 64
  {
    [(v0 * 4 + v1 / 16) as byte, (v1 % 16 * 16 + v2 / 4) as byte, (v2 % 4 * 64 + v3) as byte]
  }

  /** `DecodeString`. */
  function Decode(s: seq<byte>): Result<seq<byte>, DecodeError>
  {
    DecodeQuanta(DropNewlines(s))
  }

  // ---------------------------------------------------------------------
  // Round trip

  /** Decoding an encoding gives back the bytes. */
  lemma DecodeEncode(b: seq<byte>)
    ensures Decode(Encode(b)) == Ok(b)
  {
    NoNewlines(Encode(b));
    DecodeQuantaEncode(b);
  }

  /** Encoded text holds no CR or LF, so `DropNewlines` leaves it as is. */
  lemma {:induction false} NoNewlines(s: seq<byte>)
    requires forall i | 0 <= i < |s| :: IsDigit(s[i]) || s[i] == Pad
    ensures DropNewlines(s) == s
  {
    if |s| > 0 {
      NoNewlines(s[1..]);
      assert s == [s[0]] + s[1..];
    }
  }

  lemma {:induction false} DecodeQuantaEncode(b: seq<byte>)
    ensures DecodeQuanta(Encode(b)) == Ok(b)
    decreases |b|
  {
    if |b| == 1 {
      Front(b);
      OneByte(b[0]);
    } else if |b| == 2 {
      Front(b);
      TwoBytes(b[0], b[1]);
    } else if |b| >= 3 {
      Front(b);
      DecodeQuantaEncode(b[3..]);
      DecodeQuantaStep(b[0], b[1], b[2], b[3..]);
    }
  }

  /** A short sequence is the display of its elements; a longer one is
      its first three elements before the rest. */
  lemma Front<T>(b: seq<T>)
    ensures |b| == 1 ==> b == [b[0]]
    ensures |b| == 2 ==> b == [b[0], b[1]]
    ensures |b| >= 3 ==> b == [b[0], b[1], b[2]] + b[3..]
  {
  }

  /** One full quantum in front of an encoding that decodes. */
  lemma DecodeQuantaStep(b0: byte, b1: byte, b2: byte, b: seq<byte>)
    requires DecodeQuanta(Encode(b)) == Ok(b)
    ensures DecodeQuanta(Encode([b0, b1, b2] + b)) == Ok([b0, b1, b2] + b)
  {
    var all := [b0, b1, b2] + b;
    var q := Quantum(b0, b1, b2);
    var rest := Encode(b);
    EncodeCons(b0, b1, b2, b);
    var e := q + rest;
    assert e[4..] == rest;
    assert e[0] == q[0] && e[1] == q[1] && e[2] == q[2] && e[3] == q[3];
    ThreeBytes(b0, b1, b2);
    FullQuantum(e, b0 as int / 4, b0 as int % 4 * 16 + b1 as int / 16,
                b1 as int % 16 * 4 + b2 as int / 64, b2 as int % 64, b);
  }

  /** Three bytes in front encode as their quantum in front. */
  lemma EncodeCons(b0: byte, b1: byte, b2: byte, b: seq<byte>)
    ensures Encode([b0, b1, b2] + b) == Quantum(b0, b1, b2) + Encode(b)
  {
    var all := [b0, b1, b2] + b;
    assert all[0] == b0 && all[1] == b1 && all[2] == b2 && all[3..] == b;
  }

  /** A quantum of four alphabet characters decodes to the three bytes of
      its values, before whatever the rest decodes to. */
  lemma FullQuantum(s: seq<byte>, v0: int, v1: int, v2: int, v3: int, rest: seq<byte>)
    requires |s| >= 4 && Value(s[0]) == Some(v0) && Value(s[1]) == Some(v1)
    requires Value(s[2]) == Some(v2) && Value(s[3]) == Some(v3)
    requires DecodeQuanta(s[4..]) == Ok(rest)
    ensures DecodeQuanta(s) == Ok(Bytes3(v0, v1, v2, v3) + rest)
  {
  }

  lemma ThreeBytes(b0: byte, b1: byte, b2: byte)
    ensures var v0, v1, v2, v3 := b0 as int / 4, b0 as int % 4 * 16 + b1 as int / 16,
                                 b1 as int % 16 * 4 + b2 as int / 64, b2 as int % 64;
      && 0 <= v0 < 64 && 0 <= v1 < 64 && 0 <= v2 < 64 && 0 <= v3 < 64
      && Value(Quantum(b0, b1, b2)[0]) == Some(v0)
      && Value(Quantum(b0, b1, b2)[1]) == Some(v1)
      && Value(Quantum(b0, b1, b2)[2]) == Some(v2)
      && Value(Quantum(b0, b1, b2)[3]) == Some(v3)
      && Bytes3(v0, v1, v2, v3) == [b0, b1, b2]
  {
    QuantumValues(b0, b1, b2);
    QuantumBytes(b0, b1, b2);
  }

  /** The four characters of a quantum read back as its 6-bit values. */
  lemma QuantumValues(b0: byte, b1: byte, b2: byte)
    ensures var v0, v1, v2, v3 := b0 as int / 4, b0 as int % 4 * 16 + b1 as int / 16,
                                 b1 as int % 16 * 4 + b2 as int / 64, b2 as int % 64;
      && 0 <= v0 < 64 && 0 <= v1 < 64 && 0 <= v2 < 64 && 0 <= v3 < 64
      && Value(Quantum(b0, b1, b2)[0]) == Some(v0)
      && Value(Quantum(b0, b1, b2)[1]) == Some(v1)
      && Value(Quantum(b0, b1, b2)[2]) == Some(v2)
      && Value(Quantum(b0, b1, b2)[3]) == Some(v3)
  {
    var v0, v1, v2, v3 := b0 as int / 4, b0 as int % 4 * 16 + b1 as int / 16,
                          b1 as int % 16 * 4 + b2 as int / 64, b2 as int % 64;
    HighLow(b0 as int, 4, 16, b1 as int);
    HighLow(b1 as int, 16, 4, b2 as int);
    ValueOfDigit(v0);
    ValueOfDigit(v1);
    ValueOfDigit(v2);
    ValueOfDigit(v3);
  }

  /** The 6-bit values of a quantum give back its three bytes. */
  lemma QuantumBytes(b0: byte, b1: byte, b2: byte)
    ensures var v0, v1, v2, v3 := b0 as int / 4, b0 as int % 4 * 16 + b1 as int / 16,
                                 b1 as int % 16 * 4 + b2 as int / 64, b2 as int % 64;
      && 0 <= v0 < 64 && 0 <= v1 < 64 && 0 <= v2 < 64 && 0 <= v3 < 64
      && Bytes3(v0, v1, v2, v3) == [b0, b1, b2]
  {
    HighLow(b0 as int, 4, 16, b1 as int);
    HighLow(b1 as int, 16, 4, b2 as int);
    SplitByte(b2 as int, 64);
  }

  lemma TwoBytes(b0: byte, b1: byte)
    ensures DecodeQuanta(Encode([b0, b1])) == Ok([b0, b1])
  {
    var v0, v1, v2 := b0 as int / 4, b0 as int % 4 * 16 + b1 as int / 16, b1 as int % 16 * 4;
    HighLow(b0 as int, 4, 16, b1 as int);
    HighLow(b1 as int, 16, 4, 0);
    var e := [Digit(v0), Digit(v1), Digit(v2), Pad];
    assert Encode([b0, b1]) == e by {
      assert [b0, b1][0] == b0 && [b0, b1][1] == b1;
    }
    ValueOfDigit(v0);
    ValueOfDigit(v1);
    ValueOfDigit(v2);
    FinalTwo(e, v0, v1, v2);
    PairBytes(b0, b1);
  }

  /** A final `xxx=` quantum decodes to the two bytes of its values. */
  lemma FinalTwo(s: seq<byte>, v0: int, v1: int, v2: int)
    requires |s| == 4 && s[3] == Pad
    requires Value(s[0]) == Some(v0) && Value(s[1]) == Some(v1) && Value(s[2]) == Some(v2)
    ensures DecodeQuanta(s) == Ok(Bytes2(v0, v1, v2))
  {
  }

  /** A final `xx==` quantum decodes to the byte of its values. */
  lemma FinalOne(s: seq<byte>, v0: int, v1: int)
    requires |s| == 4 && s[2] == Pad && s[3] == Pad
    requires Value(s[0]) == Some(v0) && Value(s[1]) == Some(v1)
    ensures DecodeQuanta(s) == Ok(Bytes1(v0, v1))
  {
  }

  lemma PairBytes(b0: byte, b1: byte)
    ensures var v0, v1, v2 := b0 as int / 4, b0 as int % 4 * 16 + b1 as int / 16, b1 as int % 16 * 4;
      && 0 <= v0 < 64 && 0 <= v1 < 64 && 0 <= v2 < 64
      && Bytes2(v0, v1, v2) == [b0, b1]
  {
    HighLow(b0 as int, 4, 16, b1 as int);
    HighLow(b1 as int, 16, 4, 0);
  }

  lemma OneByte(b0: byte)
    ensures DecodeQuanta(Encode([b0])) == Ok([b0])
  {
    var v0, v1 := b0 as int / 4, b0 as int % 4 * 16;
    HighLow(b0 as int, 4, 16, 0);
    var e := [Digit(v0), Digit(v1), Pad, Pad];
    assert Encode([b0]) == e by {
      assert [b0][0] == b0;
    }
    ValueOfDigit(v0);
    ValueOfDigit(v1);
    FinalOne(e, v0, v1);
    assert Bytes1(v0, v1) == [b0];
  }

  /** Splitting `x` into `x / d` and `x % d` loses nothing. */
  lemma SplitByte(x: int, d: int)
    requires 0 <= x < 256 && d > 0
    ensures x / d * d + x % d == x
  {
  }

  /** The two halves of a byte `x` spread over two 6-bit values, with the
      high bits of the next byte `y` below its low bits, come back:
      `x / lo * lo + (x % lo * hi + y / (256 / hi)) / hi == x` and the low
      part decodes back. */
  lemma HighLow(x: int, lo: int, hi: int, y: int)
    requires 0 <= x < 256 && 0 <= y < 256
    requires lo * hi == 64 && lo > 0 && hi > 0
    requires (lo == 4 && hi == 16) || (lo == 16 && hi == 4)
    ensures 0 <= x / lo < 256 / lo && 0 <= x % lo * hi + y / (256 / hi) < 64
    ensures x / lo * lo + (x % lo * hi + y / (256 / hi)) / hi == x
    ensures (x % lo * hi + y / (256 / hi)) % hi == y / (256 / hi)
  {
    if lo == 4 {
      assert y / 64 < 4;
      assert (x % 4 * 16 + y / 64) / 16 == x % 4;
      assert (x % 4 * 16 + y / 64) % 16 == y / 64;
    } else {
      assert y / 16 < 16;
      assert (x % 16 * 4 + y / 16) / 4 == x % 16 + y / 16 / 4;
    }
  }

  // ---------------------------------------------------------------------
  // What the decoder rejects and what it tolerates

  /** Input whose length, newlines left out, is not a multiple of four is
      rejected. */
  lemma {:induction false} RejectsRaggedLength(s: seq<byte>)
    requires |DropNewlines(s)| % 4 != 0
    ensures Decode(s).Err?
  {
    if Decode(s).Ok? {
      QuantaLength(DropNewlines(s));
    }
  }

  lemma {:induction false} QuantaLength(s: seq<byte>)
    requires DecodeQuanta(s).Ok?
    ensures |s| % 4 == 0
    decreases |s|
  {
    QuantaShape(s);
    if |s| > 4 {
      QuantaLength(s[4..]);
      QuantumMore(|s|, |s[4..]|);
    }
  }

  lemma QuantumMore(n: int, m: int)
    requires n == m + 4 && m % 4 == 0
    ensures n % 4 == 0
  {
  }

  /** Input that decodes is empty, one final quantum, or a full quantum of
      alphabet characters before more input that decodes. */
  lemma QuantaShape(s: seq<byte>)
    requires DecodeQuanta(s).Ok?
    ensures |s| == 0 || |s| >= 4
    ensures |s| >= 4 ==> IsDigit(s[0]) && IsDigit(s[1]) && (IsDigit(s[2]) || s[2] == Pad) && (IsDigit(s[3]) || s[3] == Pad)
    ensures |s| > 4 ==> IsDigit(s[2]) && IsDigit(s[3]) && DecodeQuanta(s[4..]).Ok?
  {
  }

  /** A byte that is neither an alphabet character, `=`, CR nor LF makes
      the input corrupt. */
  lemma RejectsForeignByte(s: seq<byte>, i: nat)
    requires i < |s| && !IsDigit(s[i]) && s[i] != Pad && s[i] != CR && s[i] != LF
    ensures Decode(s).Err?
  {
    var t := DropNewlines(s);
    DropNewlinesKeeps(s, i);
    var j :| 0 <= j < |t| && t[j] == s[i];
    if Decode(s).Ok? {
      QuantaAlphabet(t, j);
    }
  }

  /** `DropNewlines` keeps every other byte. */
  lemma {:induction false} DropNewlinesKeeps(s: seq<byte>, i: nat)
    requires i < |s| && s[i] != CR && s[i] != LF
    ensures s[i] in DropNewlines(s)
  {
    if i > 0 {
      DropNewlinesKeeps(s[1..], i - 1);
    }
  }

  lemma {:induction false} QuantaAlphabet(s: seq<byte>, j: nat)
    requires j < |s| && DecodeQuanta(s).Ok?
    ensures IsDigit(s[j]) || s[j] == Pad
    decreases |s|
  {
    QuantaShape(s);
    if j >= 4 {
      QuantaAlphabet(s[4..], j - 4);
    }
  }

  /** The decoder ignores the unused bits of a final one-byte quantum,
      accepts line breaks, and rejects missing padding and text after it. */
  lemma DecoderExamples()
    ensures Decode([81, 82, 61, 61]) == Ok([65])                   // "QR==" is "A"
    ensures Decode([81, 81, 61, 61]) == Ok([65])                   // "QQ==" is "A" as well
    ensures Decode([81, 85, 74, 68, 13, 10]) == Ok([65, 66, 67])   // "QUJD\r\n" is "ABC"
    ensures Decode([81, 81, 61]).Err?                              // "QQ=" lacks padding
    ensures Decode([81, 81, 61, 61, 81, 81, 61, 61]).Err?          // "QQ==QQ==": text after padding
  {
    OneBytePadded(81, 82, 16, 17);
    OneBytePadded(81, 81, 16, 16);
    LineBreakExample();
    MissingPadExample();
    TrailingExample();
  }

  /** "xy==" decodes to one byte built from the values of x and y. */
  lemma OneBytePadded(x: byte, y: byte, vx: int, vy: int)
    requires Value(x) == Some(vx) && Value(y) == Some(vy)
    ensures Decode([x, y, Pad, Pad]) == Ok([(vx * 4 + vy / 16) as byte])
  {
    var s: seq<byte> := [x, y, Pad, Pad];
    NoNewlines(s);
  }

  lemma LineBreakExample()
    ensures Decode([81, 85, 74, 68, 13, 10]) == Ok([65, 66, 67])
  {
    var q: seq<byte> := [81, 85, 74, 68];
    var nl: seq<byte> := [13, 10];
    assert [81, 85, 74, 68, 13, 10] == q + nl;
    DropNewlinesAppend(q, nl);
    NoNewlines(q);
    LineBreakDropped();
    assert q + [] == q;
    QuantumExample();
  }

  lemma LineBreakDropped()
    ensures DropNewlines([13, 10]) == []
  {
    var nl: seq<byte> := [13, 10];
    assert nl[1..] == [10];
    assert nl[1..][1..] == [];
  }

  lemma QuantumExample()
    ensures DecodeQuanta([81, 85, 74, 68]) == Ok([65, 66, 67])
  {
    var q: seq<byte> := [81, 85, 74, 68];
    assert q[4..] == [];
    assert DecodeQuanta(q[4..]) == Ok([]);
    assert Value(q[0]) == Some(16) && Value(q[1]) == Some(20) && Value(q[2]) == Some(9) && Value(q[3]) == Some(3);
    assert DecodeQuanta(q) == Ok(Bytes3(16, 20, 9, 3) + []);
    assert Bytes3(16, 20, 9, 3) + [] == [65, 66, 67];
  }

  lemma MissingPadExample()
    ensures Decode([81, 81, 61]).Err?
  {
    var s: seq<byte> := [81, 81, 61];
    NoNewlines(s);
  }

  lemma TrailingExample()
    ensures Decode([81, 81, 61, 61, 81, 81, 61, 61]).Err?
  {
    var s: seq<byte> := [81, 81, 61, 61, 81, 81, 61, 61];
    NoNewlines(s);
    assert Value(s[2]).None? && |s| != 4;
  }

  lemma {:induction false} DropNewlinesAppend(a: seq<byte>, b: seq<byte>)
    ensures DropNewlines(a + b) == DropNewlines(a) + DropNewlines(b)
  {
    if |a| > 0 {
      DropNewlinesAppend(a[1..], b);
      assert (a + b)[1..] == a[1..] + b;
      assert (a + b)[0] == a[0];
    } else {
      assert a + b == b;
    }
  }
}
