/** Go's `strconv` and `fmt` decimal conversions as the services and handlers
    use them, the order in which SQLite compares two TEXT values, and the
    UTF-8 bytes that Go's `len` and slicing count on a string. */
module Text {
  import opened Common

  predicate IsDigit(c: char)
  {
    '0' <= c <= '9'
  }

  predicate AllDigits(s: string)
  {
    forall i :: 0 <= i < |s| ==> IsDigit(s[i])
  }

  function DigitChar(d: nat): (c: char)
    requires d < 10
    ensures IsDigit(c)
  {
    ('0' as int + d) as char
  }

  function DigitValue(c: char): (d: nat)
    requires IsDigit(c)
    ensures d < 10 && DigitChar(d) == c
  {
    c as int - '0' as int
  }

  /** `%d` of a non-negative number: its decimal digits, with no leading zero
      unless the number is zero. */
  function NatToDecimal(n: nat): (s: string)
    ensures 1 <= |s| && AllDigits(s)
    ensures (s[0] == '0') == (n == 0)
  {
    if n < 10 then [DigitChar(n)] else NatToDecimal(n / 10) + [DigitChar(n % 10)]
  }

  /** The number a string of decimal digits denotes (leading zeros allowed). */
  function DecimalValue(s: string): nat
    requires AllDigits(s)
  {
    if s == [] then 0 else 10 * DecimalValue(s[..|s| - 1]) + DigitValue(s[|s| - 1])
  }

  lemma {:induction false} DecimalRoundTrip(n: nat)
    ensures DecimalValue(NatToDecimal(n)) == n
  {
    if n >= 10 {
      DecimalRoundTrip(n / 10);
      var s := NatToDecimal(n / 10) + [DigitChar(n % 10)];
      assert s[..|s| - 1] == NatToDecimal(n / 10);
    }
  }

  const MaxUint32: nat := 0xFFFF_FFFF
  const MinInt64: int := -0x8000_0000_0000_0000
  const MaxInt64: int := 0x7FFF_FFFF_FFFF_FFFF

  /** `strconv.ParseUint(s, 10, 32)`, with which handlers read path ids: one
      or more ASCII digits, no sign, and a value that fits in 32 bits. */
  function ParseUint32(s: string): (r: Option<nat>)
    ensures r.Some? <==> s != [] && AllDigits(s) && DecimalValue(s) <= MaxUint32
    ensures r.Some? ==> r.value == DecimalValue(s) && r.value <= MaxUint32
  {
    if s != [] && AllDigits(s) && DecimalValue(s) <= MaxUint32 then Some(DecimalValue(s)) else None
  }

  /** Every id a client can write as a numeral in range parses back to itself. */
  lemma ParseUint32Decimal(n: nat)
    requires n <= MaxUint32
    ensures ParseUint32(NatToDecimal(n)) == Some(n)
  {
    DecimalRoundTrip(n);
  }

  predicate AllZeros(s: string)
  {
    forall i :: 0 <= i < |s| ==> s[i] == '0'
  }

  /** Leading zeros add nothing to the value of a digit string. */
  lemma {:induction false} LeadingZerosValue(zeros: string, s: string)
    requires AllZeros(zeros) && AllDigits(s)
    ensures AllDigits(zeros + s) && DecimalValue(zeros + s) == DecimalValue(s)
    decreases |zeros| + |s|
  {
    var t := zeros + s;
    assert AllDigits(t) by {
      forall i | 0 <= i < |t| ensures IsDigit(t[i]) {
        if i < |zeros| { assert t[i] == zeros[i]; } else { assert t[i] == s[i - |zeros|]; }
      }
    }
    if s == [] {
      assert t == zeros;
      if zeros != [] {
        var front := zeros[..|zeros| - 1];
        LeadingZerosValue(front, []);
        assert front + [] == front;
      }
    } else {
      var front := s[..|s| - 1];
      LeadingZerosValue(zeros, front);
      assert t[..|t| - 1] == zeros + front;
      assert t[|t| - 1] == s[|s| - 1];
    }
  }

  /** Path ids may carry leading zeros: a zero-padded numeral in range is
      read as the number it pads, and one out of range is refused. */
  lemma ParseUint32Padded(zeros: string, n: nat)
    requires AllZeros(zeros)
    ensures ParseUint32(zeros + NatToDecimal(n)) == if n <= MaxUint32 then Some(n) else None
  {
    DecimalRoundTrip(n);
    LeadingZerosValue(zeros, NatToDecimal(n));
  }

  /** `%d` of any integer. */
  function FormatInt(n: int): string
  {
    if n < 0 then "-" + NatToDecimal(-n) else NatToDecimal(n)
  }

  /** `strconv.Atoi` on a 64-bit platform (and Kotlin's `String.toLong`):
      an optional `+` or `-`, one or more ASCII digits, a 64-bit value. */
  function ParseInt64(s: string): (r: Option<int>)
    ensures r.Some? ==> MinInt64 <= r.value <= MaxInt64
    ensures r.Some? ==> s != [] && (IsDigit(s[0]) || s[0] == '+' || s[0] == '-')
    ensures r.Some? ==>
      var digits := if s[0] == '+' || s[0] == '-' then s[1..] else s;
      && digits != [] && AllDigits(digits)
      && r.value == (if s[0] == '-' then -(DecimalValue(digits) as int) else DecimalValue(digits))
  {
    if s == [] then None
    else
      var digits := if s[0] == '+' || s[0] == '-' then s[1..] else s;
      if digits == [] || !AllDigits(digits) then None
      else
        var v: int := if s[0] == '-' then -(DecimalValue(digits) as int) else DecimalValue(digits);
        if MinInt64 <= v <= MaxInt64 then Some(v) else None
  }

  /** Every signed numeral is read as its value, and accepted exactly when
      that value fits in 64 bits. */
  lemma ParseInt64Numeral(sign: string, digits: string)
    requires sign == "" || sign == "+" || sign == "-"
    requires digits != [] && AllDigits(digits)
    ensures var v: int := if sign == "-" then -(DecimalValue(digits) as int) else DecimalValue(digits);
      ParseInt64(sign + digits) == if MinInt64 <= v <= MaxInt64 then Some(v) else None
  {
    var s := sign + digits;
    if sign == "" {
      assert s == digits && IsDigit(s[0]);
    } else {
      assert s[0] == sign[0] && s[1..] == digits;
    }
  }

  lemma ParseFormatInt(n: int)
    requires MinInt64 <= n <= MaxInt64
    ensures ParseInt64(FormatInt(n)) == Some(n)
  {
    var s := FormatInt(n);
    if n < 0 {
      var d := NatToDecimal(-n);
      DecimalRoundTrip(-n);
      assert s == "-" + d && s[0] == '-' && s[1..] == d;
      assert DecimalValue(d) == -n;
    } else {
      DecimalRoundTrip(n);
      assert IsDigit(s[0]);
    }
  }

  /** `%02d`: zero-padded to two characters; the sign counts toward the width. */
  function Format02(n: int): string
  {
    if 0 <= n < 10 then "0" + NatToDecimal(n) else FormatInt(n)
  }

  /** Strict order of SQLite's BINARY collation. It compares the UTF-8 bytes,
      which orders code points the same way; a proper prefix sorts first. */
  predicate LexLess(a: string, b: string)
    decreases |a|
  {
    if a == [] then b != []
    else if b == [] then false
    else if a[0] != b[0] then a[0] < b[0]
    else LexLess(a[1..], b[1..])
  }

  predicate LexLessEq(a: string, b: string)
  {
    a == b || LexLess(a, b)
  }

  lemma {:induction false} LexLessIrreflexive(a: string)
    ensures !LexLess(a, a)
    decreases |a|
  {
    if a != [] {
      LexLessIrreflexive(a[1..]);
    }
  }

  /** The collation is a strict total order. */
  lemma {:induction false} LexLessTotal(a: string, b: string)
    ensures a == b || LexLess(a, b) || LexLess(b, a)
    ensures !(LexLess(a, b) && LexLess(b, a))
    decreases |a|
  {
    if a != [] && b != [] && a[0] == b[0] {
      LexLessTotal(a[1..], b[1..]);
      assert a == [a[0]] + a[1..] && b == [b[0]] + b[1..];
    }
  }

  lemma {:induction false} LexLessTransitive(a: string, b: string, c: string)
    requires LexLess(a, b) && LexLess(b, c)
    ensures LexLess(a, c)
    decreases |a|
  {
    if a != [] && a[0] == b[0] && b[0] == c[0] {
      LexLessTransitive(a[1..], b[1..], c[1..]);
    }
  }

  /** Comparing two texts that start with parts of equal length compares
      those parts first and the rest only when they are equal. */
  lemma {:induction false} LexLessConcat(a: string, b: string, c: string, d: string)
    requires |a| == |c|
    ensures LexLess(a + b, c + d) <==> LexLess(a, c) || (a == c && LexLess(b, d))
    decreases |a|
  {
    if a == [] {
      assert a + b == b && c + d == d;
    } else {
      assert (a + b)[0] == a[0] && (c + d)[0] == c[0];
      assert (a + b)[1..] == a[1..] + b && (c + d)[1..] == c[1..] + d;
      if a[0] == c[0] {
        LexLessConcat(a[1..], b, c[1..], d);
        assert a == [a[0]] + a[1..] && c == [c[0]] + c[1..];
      } else {
        assert a[0] != c[0];
      }
    }
  }

  /** Two texts that start with parts of equal length are equal exactly when
      both parts are. */
  lemma ConcatEqual(a: string, b: string, c: string, d: string)
    requires |a| == |c|
    ensures a + b == c + d <==> a == c && b == d
  {
    if a + b == c + d {
      assert (a + b)[..|a|] == a && (c + d)[..|c|] == c;
      assert (a + b)[|a|..] == b && (c + d)[|c|..] == d;
    }
  }

  function Pow10(w: nat): (p: nat)
    ensures p >= 1
  {
    if w == 0 then 1 else 10 * Pow10(w - 1)
  }

  /** The last `w` decimal digits of `x`, zero-padded on the left. */
  function PadDigits(x: nat, w: nat): (s: string)
    ensures |s| == w && AllDigits(s)
  {
    if w == 0 then [] else PadDigits(x / 10, w - 1) + [DigitChar(x % 10)]
  }

  /** Fixed-width numerals sort as the numbers they denote. */
  lemma {:induction false} PadDigitsOrder(x: nat, y: nat, w: nat)
    requires x < Pow10(w) && y < Pow10(w)
    ensures LexLess(PadDigits(x, w), PadDigits(y, w)) <==> x < y
    ensures PadDigits(x, w) == PadDigits(y, w) <==> x == y
  {
    if w > 0 {
      PadDigitsOrder(x / 10, y / 10, w - 1);
      var s, t := PadDigits(x / 10, w - 1), PadDigits(y / 10, w - 1);
      var dx, dy := DigitChar(x % 10), DigitChar(y % 10);
      LexLessConcat(s, [dx], t, [dy]);
      assert LexLess([dx], [dy]) <==> x % 10 < y % 10 by {
        assert [dx][1..] == [] && [dy][1..] == [];
      }
      assert s + [dx] == t + [dy] <==> s == t && dx == dy by {
        if s + [dx] == t + [dy] {
          assert (s + [dx])[..|s|] == s && (t + [dy])[..|t|] == t;
          assert (s + [dx])[|s|] == dx && (t + [dy])[|t|] == dy;
        }
      }
    }
  }

  /** A number with exactly `w` digits prints as its `w`-digit numeral. */
  lemma {:induction false} NatToDecimalPadded(x: nat, w: nat)
    requires 1 <= w && Pow10(w - 1) <= x < Pow10(w)
    ensures NatToDecimal(x) == PadDigits(x, w)
  {
    if w == 1 {
      assert x / 10 == 0 && x % 10 == x;
    } else {
      assert Pow10(w - 1) == 10 * Pow10(w - 2);
      NatToDecimalPadded(x / 10, w - 1);
    }
  }

  lemma Format02Padded(n: int)
    requires 0 <= n < 100
    ensures Format02(n) == PadDigits(n, 2)
  {
    assert Pow10(1) == 10 && Pow10(2) == 100;
    if n == 0 {
      assert PadDigits(0, 2) == PadDigits(0, 1) + "0";
    } else if n < 10 {
      NatToDecimalPadded(n, 1);
      assert PadDigits(n, 2) == PadDigits(0, 1) + [DigitChar(n)];
      assert PadDigits(0, 1) == "0";
    } else {
      NatToDecimalPadded(n, 2);
    }
  }

  lemma FormatIntFourDigits(n: int)
    requires 1000 <= n <= 9999
    ensures FormatInt(n) == PadDigits(n, 4)
  {
    assert Pow10(1) == 10 && Pow10(2) == 100 && Pow10(3) == 1000 && Pow10(4) == 10000;
    NatToDecimalPadded(n, 4);
  }

  /** How many bytes a character takes in UTF-8. */
  function Utf8Width(c: char): (n: nat)
    ensures 1 <= n <= 4
    ensures n == 1 <==> c as int < 0x80
  {
    if c as int < 0x80 then 1
    else if c as int < 0x800 then 2
    else if c as int < 0x10000 then 3
    else 4
  }

  /** The byte length of a text, which is what Go's `len` counts. */
  function ByteLength(s: string): (n: nat)
    ensures n >= |s|
    ensures n == |s| <==> forall i :: 0 <= i < |s| ==> s[i] as int < 0x80
  {
    if s == [] then 0 else Utf8Width(s[0]) + ByteLength(s[1..])
  }

  /** The UTF-8 encoding of one character. */
  function EncodeChar(c: char): (r: seq<Byte>)
    ensures |r| == Utf8Width(c)
    ensures c as int < 0x80 ==> r == [c as int]
  {
    var n := c as int;
    if n < 0x80 then [n]
    else if n < 0x800 then [0xC0 + n / 64, 0x80 + n % 64]
    else if n < 0x10000 then [0xE0 + n / 4096, 0x80 + (n / 64) % 64, 0x80 + n % 64]
    else [0xF0 + n / 262144 % 8, 0x80 + (n / 4096) % 64, 0x80 + (n / 64) % 64, 0x80 + n % 64]
  }

  /** The bytes of a Go string holding `s`. */
  function Utf8(s: string): (r: seq<Byte>)
    ensures |r| == ByteLength(s)
  {
    if s == [] then [] else EncodeChar(s[0]) + Utf8(s[1..])
  }

  /** The bytes of an ASCII text are its character codes. */
  lemma {:induction false} Utf8Ascii(s: string)
    requires forall i :: 0 <= i < |s| ==> s[i] as int < 0x80
    ensures |Utf8(s)| == |s|
    ensures forall i :: 0 <= i < |s| ==> Utf8(s)[i] == s[i] as int
  {
    if s != [] {
      Utf8Ascii(s[1..]);
      assert Utf8(s) == [s[0] as int] + Utf8(s[1..]);
    }
  }
}
