/** The Python string built-ins the address engine is written with: str.split and
    str.join on one separator character, int() and str() in base 10, int(s, 2),
    bin(), str.zfill, str.rstrip, str.startswith and str.endswith. */
module Text {
  import opened Wrappers
  import opened Arith

  // ---------------------------------------------------------------- split / join

  /** s.split(sep): the pieces between separators, empty pieces kept, never an empty list. */
  function Split(s: string, sep: char): (parts: seq<string>)
    ensures |parts| >= 1
    decreases |s|
  {
    if s == [] then [[]]
    else
      var rest := Split(s[1..], sep);
      if s[0] == sep then [[]] + rest
      else [[s[0]] + rest[0]] + rest[1..]
  }

  /** sep.join(parts): the first piece comes first, and the separator follows it when more
      pieces do. */
  function Join(parts: seq<string>, sep: char): (r: string)
    ensures |parts| >= 1 ==> |parts[0]| <= |r| && r[..|parts[0]|] == parts[0]
    ensures |parts| >= 2 ==> |parts[0]| < |r| && r[|parts[0]|] == sep
  {
    if |parts| == 0 then []
    else if |parts| == 1 then parts[0]
    else parts[0] + [sep] + Join(parts[1..], sep)
  }

  /** Text without the separator is one piece, text with it at least two; no piece
      contains the separator. */
  lemma {:induction false} SplitPieces(s: string, sep: char)
    ensures |Split(s, sep)| == 1 <==> sep !in s
    ensures forall i :: 0 <= i < |Split(s, sep)| ==> sep !in Split(s, sep)[i]
    decreases |s|
  {
    if s != [] {
      SplitPieces(s[1..], sep);
      var rest := Split(s[1..], sep);
      assert s == [s[0]] + s[1..];
      if s[0] != sep {
        forall i | 0 <= i < |Split(s, sep)|
          ensures sep !in Split(s, sep)[i]
        {
          if i == 0 {
            assert Split(s, sep)[0] == [s[0]] + rest[0];
          } else {
            assert Split(s, sep)[i] == rest[i];
          }
        }
      } else {
        forall i | 0 <= i < |Split(s, sep)|
          ensures sep !in Split(s, sep)[i]
        {
          if i > 0 {
            assert Split(s, sep)[i] == rest[i - 1];
          }
        }
      }
    }
  }

  /** Joining the pieces of a split gives the text back. */
  lemma {:induction false} JoinSplit(s: string, sep: char)
    ensures Join(Split(s, sep), sep) == s
    decreases |s|
  {
    if s != [] {
      var rest := Split(s[1..], sep);
      JoinSplit(s[1..], sep);
      if s[0] == sep {
        assert s == [sep] + s[1..];
      } else if |rest| == 1 {
        assert s == [s[0]] + s[1..];
      } else {
        assert rest == [rest[0]] + rest[1..];
        assert Join(rest, sep) == rest[0] + [sep] + Join(rest[1..], sep);
        assert s == [s[0]] + s[1..];
      }
    }
  }

  lemma {:induction false} SplitNoSeparator(p: string, sep: char)
    requires sep !in p
    ensures Split(p, sep) == [p]
    decreases |p|
  {
    if p != [] {
      SplitNoSeparator(p[1..], sep);
      assert p == [p[0]] + p[1..];
    }
  }

  lemma {:induction false} SplitFirstPiece(p: string, t: string, sep: char)
    requires sep !in p
    ensures Split(p + [sep] + t, sep) == [p] + Split(t, sep)
    decreases |p|
  {
    var s := p + [sep] + t;
    if p == [] {
      assert s[1..] == t;
    } else {
      assert s[1..] == p[1..] + [sep] + t;
      SplitFirstPiece(p[1..], t, sep);
      assert p == [p[0]] + p[1..];
    }
  }

  /** Splitting a join of separator-free pieces gives the pieces back. */
  lemma {:induction false} SplitJoin(parts: seq<string>, sep: char)
    requires |parts| >= 1
    requires forall i :: 0 <= i < |parts| ==> sep !in parts[i]
    ensures Split(Join(parts, sep), sep) == parts
    decreases |parts|
  {
    if |parts| == 1 {
      SplitNoSeparator(parts[0], sep);
    } else {
      SplitJoin(parts[1..], sep);
      SplitFirstPiece(parts[0], Join(parts[1..], sep), sep);
      assert parts == [parts[0]] + parts[1..];
    }
  }

  // ---------------------------------------------------------------- decimal

  predicate IsDigit(c: char)
  {
    '0' <= c <= '9'
  }

  predicate AllDigits(s: string)
  {
    forall i :: 0 <= i < |s| ==> IsDigit(s[i])
  }

  function DigitChar(d: nat): (c: char)
    requires d < 10
    ensures IsDigit(c) && c as int == 48 + d
  {
    (48 + d) as char
  }

  function DigitValue(c: char): (d: nat)
    requires IsDigit(c)
    ensures d < 10 && d == c as int - 48
  {
    (c as int - 48) as nat
  }

  /** The value of a string of decimal digits, most significant first (0 for the empty string). */
  function DecimalValue(s: string): nat
    requires AllDigits(s)
  {
    if s == [] then 0 else 10 * DecimalValue(s[..|s| - 1]) + DigitValue(s[|s| - 1])
  }

  /** int(s) on decimal text: defined for a non-empty run of ASCII digits (leading zeros allowed).
      It raises on empty text and on any other character; text str() could have written reads
      back as the number that str() renders as that text. */
  function ParseDecimal(s: string): Option<nat>
  {
    if s != [] && AllDigits(s) then Some(DecimalValue(s)) else None
  }

  /** int(s) raises exactly on empty text and on text with a character that is not a digit;
      text str() could have written reads back as the number str() renders as that text. */
  lemma ParseDecimalMeaning(s: string)
    ensures ParseDecimal(s).None? <==> s == [] || exists i :: 0 <= i < |s| && !IsDigit(s[i])
    ensures ParseDecimal(s).Some? && IsCanonicalDecimal(s) ==> Decimal(ParseDecimal(s).value) == s
  {
    if IsCanonicalDecimal(s) {
      CanonicalRoundTrip(s);
    }
  }

  /** The text str(n) produces: digits, no leading zero unless it is the single digit 0. */
  predicate IsCanonicalDecimal(s: string)
  {
    s != [] && AllDigits(s) && (s[0] == '0' ==> |s| == 1)
  }

  /** str(n) for a non-negative integer */
  function Decimal(n: nat): (s: string)
    ensures IsCanonicalDecimal(s)
  {
    if n < 10 then [DigitChar(n)] else Decimal(n / 10) + [DigitChar(n % 10)]
  }

  /** int(str(n)) == n */
  lemma {:induction false} DecimalRoundTrip(n: nat)
    ensures ParseDecimal(Decimal(n)) == Some(n)
  {
    var s := Decimal(n);
    if n < 10 {
      assert s[..0] == [];
      assert DecimalValue(s) == DigitValue(s[0]);
    } else {
      DecimalRoundTrip(n / 10);
      assert s[..|s| - 1] == Decimal(n / 10);
      assert DecimalValue(s) == 10 * (n / 10) + n % 10;
    }
  }

  lemma {:induction false} LeadingNonZero(s: string)
    requires s != [] && AllDigits(s) && s[0] != '0'
    ensures DecimalValue(s) >= 1
    decreases |s|
  {
    if |s| > 1 {
      LeadingNonZero(s[..|s| - 1]);
    }
  }

  /** str(int(s)) == s for text str could have produced. */
  lemma {:induction false} CanonicalRoundTrip(s: string)
    requires IsCanonicalDecimal(s)
    ensures Decimal(DecimalValue(s)) == s
    decreases |s|
  {
    if |s| > 1 {
      var init := s[..|s| - 1];
      var v := DecimalValue(s);
      LeadingNonZero(init);
      CanonicalRoundTrip(init);
      assert v / 10 == DecimalValue(init) && v % 10 == DigitValue(s[|s| - 1]);
      assert s == init + [s[|s| - 1]];
    }
  }

  /** Decimal text never contains the separator characters '.' and '/'. */
  lemma DigitsHaveNoSeparator(s: string, c: char)
    requires AllDigits(s) && !IsDigit(c)
    ensures c !in s
  {
  }

  // ---------------------------------------------------------------- binary

  predicate IsBit(c: char)
  {
    c == '0' || c == '1'
  }

  predicate AllBits(s: string)
  {
    forall i :: 0 <= i < |s| ==> IsBit(s[i])
  }

  function BitChar(b: nat): (c: char)
    requires b < 2
    ensures IsBit(c)
  {
    if b == 0 then '0' else '1'
  }

  /** The value of a string of binary digits, most significant first. */
  function BinaryValue(s: string): nat
    requires AllBits(s)
  {
    if s == [] then 0 else 2 * BinaryValue(s[..|s| - 1]) + (if s[|s| - 1] == '1' then 1 else 0)
  }

  /** int(s, 2) on a non-empty string of '0'/'1' digits. */
  function ParseBinary(s: string): Option<nat>
  {
    if s != [] && AllBits(s) then Some(BinaryValue(s)) else None
  }

  /** bin(n)[2:]: the shortest binary rendering of n, with no leading zero unless it is 0. */
  function BinaryDigits(n: nat): (s: string)
    ensures s != [] && AllBits(s)
    ensures |s| == 1 || s[0] == '1'
  {
    if n < 2 then [BitChar(n)] else BinaryDigits(n / 2) + [BitChar(n % 2)]
  }

  /** k copies of c */
  function Repeat(c: char, k: nat): (s: string)
    ensures |s| == k && forall i :: 0 <= i < k ==> s[i] == c
  {
    seq(k, _ => c)
  }

  /** s.zfill(width) for unsigned digit strings: pad with '0' on the left up to width. The
      result is exactly width long unless s is longer, and padding a bit string keeps its value. */
  function ZFill(s: string, width: nat): (r: string)
    ensures |r| == if |s| >= width then |s| else width
    ensures AllBits(s) ==> AllBits(r) && BinaryValue(r) == BinaryValue(s)
  {
    if |s| >= width then s
    else
      var zeros := Repeat('0', width - |s|);
      assert AllBits(s) ==> BinaryValue(zeros + s) == BinaryValue(s) by {
        if AllBits(s) {
          BinaryValueOfZeros(width - |s|);
          BinaryValueAppend(zeros, s);
        }
      }
      zeros + s
  }

  /** The low `width` bits of n, most significant first: a reference rendering. */
  function FixedBits(n: nat, width: nat): (s: string)
    ensures |s| == width && AllBits(s)
    decreases width, n
  {
    if width == 0 then [] else FixedBits(n / 2, width - 1) + [BitChar(n % 2)]
  }

  lemma {:induction false} BinaryDigitsValue(n: nat)
    ensures BinaryValue(BinaryDigits(n)) == n
  {
    if n >= 2 {
      var s := BinaryDigits(n);
      BinaryDigitsValue(n / 2);
      assert s[..|s| - 1] == BinaryDigits(n / 2);
    }
  }

  /** Position i of the fixed-width rendering holds bit (width - 1 - i) of n. */
  lemma {:induction false} FixedBitsAt(n: nat, width: nat, i: nat)
    requires i < width
    ensures FixedBits(n, width)[i] == BitChar((n / Pow2(width - 1 - i)) % 2)
    decreases width
  {
    if i < width - 1 {
      FixedBitsAt(n / 2, width - 1, i);
      DivDiv(n, 2, Pow2(width - 2 - i));
    }
  }

  lemma {:induction false} FixedBitsValue(n: nat, width: nat)
    requires n < Pow2(width)
    ensures BinaryValue(FixedBits(n, width)) == n
    decreases width
  {
    if width > 0 {
      var s := FixedBits(n, width);
      FixedBitsValue(n / 2, width - 1);
      assert s[..|s| - 1] == FixedBits(n / 2, width - 1);
    }
  }

  /** Rendering the value of a bit string at its own width gives it back. */
  lemma {:induction false} FixedBitsOfValue(s: string)
    requires AllBits(s)
    ensures FixedBits(BinaryValue(s), |s|) == s
    decreases |s|
  {
    if s != [] {
      var init := s[..|s| - 1];
      FixedBitsOfValue(init);
      var v := BinaryValue(s);
      assert v / 2 == BinaryValue(init);
      assert s == init + [s[|s| - 1]];
    }
  }

  lemma {:induction false} FixedBitsOfZero(width: nat)
    ensures FixedBits(0, width) == Repeat('0', width)
    decreases width
  {
    if width > 0 {
      FixedBitsOfZero(width - 1);
    }
  }

  /** bin(n)[2:].zfill(width) is the fixed-width rendering whenever n fits in width bits. */
  lemma {:induction false} ZFillBinaryDigits(n: nat, width: nat)
    requires 1 <= width && n < Pow2(width)
    ensures ZFill(BinaryDigits(n), width) == FixedBits(n, width)
    decreases width
  {
    if n < 2 {
      FixedBitsOfZero(width - 1);
      assert FixedBits(n, width) == FixedBits(0, width - 1) + [BitChar(n)];
    } else {
      assert width >= 2;
      ZFillBinaryDigits(n / 2, width - 1);
      var d := BinaryDigits(n / 2);
      assert |d| <= width - 1 by {
        assert |ZFill(d, width - 1)| == width - 1;
      }
      if |d| < width - 1 {
        assert Repeat('0', width - 1 - |d|) + d + [BitChar(n % 2)]
            == Repeat('0', width - (|d| + 1)) + (d + [BitChar(n % 2)]);
      }
    }
  }

  /** The value of a concatenation: the head is shifted left by the length of the tail. */
  lemma {:induction false} BinaryValueAppend(x: string, y: string)
    requires AllBits(x) && AllBits(y)
    ensures BinaryValue(x + y) == BinaryValue(x) * Pow2(|y|) + BinaryValue(y)
    decreases |y|
  {
    if y == [] {
      assert x + y == x;
    } else {
      var y' := y[..|y| - 1];
      var b := if y[|y| - 1] == '1' then 1 else 0;
      BinaryValueAppend(x, y');
      assert (x + y)[..|x + y| - 1] == x + y';
      assert BinaryValue(x + y) == 2 * BinaryValue(x + y') + b;
      assert BinaryValue(y) == 2 * BinaryValue(y') + b;
      ShiftStep(BinaryValue(x), Pow2(|y'|), BinaryValue(y'), b);
    }
  }

  lemma ShiftStep(hi: nat, p: nat, lo: nat, b: nat)
    ensures 2 * (hi * p + lo) + b == hi * (2 * p) + (2 * lo + b)
  {
  }

  lemma {:induction false} BinaryValueBound(s: string)
    requires AllBits(s)
    ensures BinaryValue(s) < Pow2(|s|)
    decreases |s|
  {
    if s != [] {
      BinaryValueBound(s[..|s| - 1]);
    }
  }

  lemma {:induction false} BinaryValueOfZeros(k: nat)
    ensures BinaryValue(Repeat('0', k)) == 0
  {
    if k > 0 {
      BinaryValueOfZeros(k - 1);
      assert Repeat('0', k)[..k - 1] == Repeat('0', k - 1);
    }
  }

  lemma {:induction false} BinaryValueOfOnes(k: nat)
    ensures BinaryValue(Repeat('1', k)) == Pow2(k) - 1
  {
    if k > 0 {
      BinaryValueOfOnes(k - 1);
      assert Repeat('1', k)[..k - 1] == Repeat('1', k - 1);
    }
  }

  /** m ones followed by k zeros are worth 2 ** (m + k) - 2 ** k. */
  lemma {:induction false} BinaryValueOfOnesThenZeros(m: nat, k: nat)
    ensures AllBits(Repeat('1', m) + Repeat('0', k))
    ensures BinaryValue(Repeat('1', m) + Repeat('0', k)) == Pow2(m + k) - Pow2(k)
  {
    var s := Repeat('1', m) + Repeat('0', k);
    if k == 0 {
      assert s == Repeat('1', m);
      BinaryValueOfOnes(m);
    } else {
      BinaryValueOfOnesThenZeros(m, k - 1);
      assert s[..|s| - 1] == Repeat('1', m) + Repeat('0', k - 1);
      assert BinaryValue(s) == 2 * BinaryValue(s[..|s| - 1]);
    }
  }

  // ---------------------------------------------------------------- prefixes and suffixes

  /** s.startswith(prefix) */
  predicate StartsWith(s: string, prefix: string)
  {
    |prefix| <= |s| && s[..|prefix|] == prefix
  }

  /** s.endswith(c) for one character */
  predicate EndsWith(s: string, c: char)
  {
    |s| > 0 && s[|s| - 1] == c
  }

  /** s.startswith(prefix) holds exactly for the texts that are the prefix followed by more. */
  lemma StartsWithConcat(s: string, prefix: string)
    ensures forall rest :: StartsWith(prefix + rest, prefix)
    ensures StartsWith(s, prefix) ==> s == prefix + s[|prefix|..]
  {
    forall rest
      ensures StartsWith(prefix + rest, prefix)
    {
      assert (prefix + rest)[..|prefix|] == prefix;
    }
  }

  /** s.endswith(c) looks at the last character only; the empty text ends with nothing. */
  lemma EndsWithLast(s: string, c: char, d: char)
    ensures EndsWith(s + [d], c) <==> d == c
    ensures !EndsWith([], c)
  {
  }

  /** s.rstrip(c): every trailing c removed, and nothing else. */
  function RStrip(s: string, c: char): (r: string)
    ensures !EndsWith(r, c)
    ensures |r| <= |s| && s == r + Repeat(c, |s| - |r|)
  {
    if EndsWith(s, c) then
      var r := RStrip(s[..|s| - 1], c);
      assert s == s[..|s| - 1] + [c];
      r
    else
      s
  }
}
