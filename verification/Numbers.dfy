// Numbers as text: `itoa` with its reversal in place, and the number formats of `printf`.
module Numbers {
  import opened Bytes

  const ZERO: byte := 48
  const LETTER_A: byte := 65
  const MINUS: byte := 45
  const MIN_RADIX := 2
  const MAX_RADIX := 36
  const HEX_DIGITS := 8
  const CONV_BUF := 64

  type Radix = r: nat | MIN_RADIX <= r <= MAX_RADIX witness 10

  type int32 = x: int | -0x8000_0000 <= x < 0x8000_0000

  // What a text means

  /** The digit with the value `d`. */
  function Digit(d: nat): byte
    requires d < MAX_RADIX
  {
    if d < 10 then ZERO + d else LETTER_A + d - 10
  }

  /** The value of a digit. */
  function DigitValue(c: byte): (d: nat)
    ensures d <= 0xff
  {
    if ZERO <= c < ZERO + 10 then c - ZERO
    else if LETTER_A <= c < LETTER_A + 26 then c - LETTER_A + 10
    else 0xff
  }

  const LOOKUP := "0123456789ABCDEFGHIJKLMNOPQRSTUVWXYZ"

  /** The digits are those of the table. */
  lemma DigitsOfTable(d: nat)
    requires d < MAX_RADIX
    ensures Digit(d) == LOOKUP[d] as int && DigitValue(Digit(d)) == d
  {
  }

  /** A text of digits below `radix`. */
  predicate IsNumeral(s: seq<byte>, radix: Radix) {
    s != [] && forall i | 0 <= i < |s| :: DigitValue(s[i]) < radix
  }

  /** The number that a text of digits denotes. */
  function ValueOf(s: seq<byte>, radix: Radix): nat {
    if s == [] then 0 else ValueOf(s[..|s| - 1], radix) * radix + DigitValue(s[|s| - 1])
  }

  /** The digits of a number, the last one found first. */
  function Digits(v: nat, radix: Radix): (r: seq<byte>)
    ensures r != []
    decreases v
  {
    if v < radix then [Digit(v)] else Digits(Quotient(v, radix), radix) + [Digit(Rest(v, radix))]
  }

  /** Unsigned division. */
  function Quotient(v: nat, radix: Radix): (q: nat)
    ensures v > 0 ==> q < v
    ensures q == 0 <==> v < radix
  {
    var q := v / radix;
    Division(q, v % radix, v, radix);
    q
  }

  lemma Division(q: nat, r: nat, v: nat, radix: Radix)
    requires q * radix + r == v && r < radix
    ensures v > 0 ==> q < v
    ensures q == 0 <==> v < radix
  {
    if q > 0 {
      Product(q, radix);
      assert q * radix >= q * MIN_RADIX;
    }
  }

  /** The unsigned remainder. */
  function Rest(v: nat, radix: Radix): (r: nat)
    ensures r < radix && Quotient(v, radix) * radix + r == v
  {
    v % radix
  }

  /** The digits denote the number. */
  lemma {:induction false} DigitsDenote(v: nat, radix: Radix)
    ensures IsNumeral(Digits(v, radix), radix) && ValueOf(Digits(v, radix), radix) == v
    decreases v
  {
    hide Quotient, Rest;
    if v < radix {
      var s := [Digit(v)];
      assert s[..0] == [];
    } else {
      DigitsDenote(Quotient(v, radix), radix);
      var front, last := Digits(Quotient(v, radix), radix), Digit(Rest(v, radix));
      assert (front + [last])[..|front|] == front;
    }
  }

  /** Only the number 0 has a text that begins with the digit 0. */
  lemma {:induction false} NoLeadingZero(v: nat, radix: Radix)
    ensures v > 0 ==> Digits(v, radix)[0] != ZERO
    ensures v == 0 ==> Digits(v, radix) == [ZERO]
    decreases v
  {
    hide Quotient, Rest;
    if v >= radix {
      NoLeadingZero(Quotient(v, radix), radix);
    }
  }

  lemma LastDigit(v: nat, q: nat, d: nat, radix: Radix)
    requires v == q * radix + d && d < radix
    ensures Quotient(v, radix) == q && Rest(v, radix) == d
  {
    hide Quotient, Rest;
    SameDivision(q, d, Quotient(v, radix), Rest(v, radix), radix);
  }

  /** A number has only one quotient and remainder. */
  lemma SameDivision(q: nat, d: nat, y: nat, z: nat, radix: Radix)
    requires q * radix + d == y * radix + z && d < radix && z < radix
    ensures q == y && d == z
  {
    if y < q {
      Multiples(y + 1, q, radix);
    } else if y > q {
      Multiples(q + 1, y, radix);
    }
  }

  lemma Multiples(m: nat, n: nat, radix: Radix)
    requires 0 < m <= n
    ensures m * radix <= n * radix && m * radix == (m - 1) * radix + radix
  {
  }

  lemma {:induction false} PositiveValue(s: seq<byte>, radix: Radix)
    requires IsNumeral(s, radix) && s[0] != ZERO
    ensures ValueOf(s, radix) > 0
    decreases |s|
  {
    var front := s[..|s| - 1];
    if front == [] {
      assert DigitValue(s[0]) > 0;
    } else {
      PositiveValue(front, radix);
      Product(ValueOf(front, radix), radix);
    }
  }

  lemma Product(q: nat, radix: Radix)
    requires q > 0
    ensures q * radix >= radix
  {
  }

  /** No other text without a zero in front denotes the same number. */
  lemma {:induction false} DigitsAreUnique(s: seq<byte>, radix: Radix)
    requires IsNumeral(s, radix) && (s[0] == ZERO ==> |s| == 1)
    ensures s == Digits(ValueOf(s, radix), radix)
    decreases |s|
  {
    hide Quotient, Rest;
    var front, d := s[..|s| - 1], DigitValue(s[|s| - 1]);
    LastDigit(ValueOf(s, radix), ValueOf(front, radix), d, radix);
    assert Digit(d) == s[|s| - 1];
    if front != [] {
      PositiveValue(front, radix);
      Product(ValueOf(front, radix), radix);
      DigitsAreUnique(front, radix);
      assert s == front + [s[|s| - 1]];
    }
  }

  /** Zeros in front do not change the number. */
  lemma {:induction false} ZerosInFront(n: nat, s: seq<byte>, radix: Radix)
    ensures ValueOf(Fill(n, ZERO) + s, radix) == ValueOf(s, radix)
    decreases n + |s|
  {
    var t := Fill(n, ZERO) + s;
    if s != [] {
      assert t[..|t| - 1] == Fill(n, ZERO) + s[..|s| - 1];
      ZerosInFront(n, s[..|s| - 1], radix);
    } else if n > 0 {
      assert t[..|t| - 1] == Fill(n - 1, ZERO) + [];
      ZerosInFront(n - 1, [], radix);
    }
  }

  function Power(radix: nat, k: nat): nat {
    if k == 0 then 1 else Power(radix, k - 1) * radix
  }

  lemma QuotientBelow(v: nat, p: nat, radix: Radix)
    requires v < p * radix
    ensures Quotient(v, radix) < p
  {
  }

  lemma {:induction false} DigitsFit(v: nat, radix: Radix, k: nat)
    requires v < Power(radix, k) && k > 0
    ensures |Digits(v, radix)| <= k
    decreases k
  {
    hide Quotient, Rest;
    if v >= radix {
      assert Power(radix, 1) == Power(radix, 0) * radix == radix;
      QuotientBelow(v, Power(radix, k - 1), radix);
      DigitsFit(Quotient(v, radix), radix, k - 1);
    }
  }

  /** A 32-bit number has at most 8 digits in base 16. */
  lemma HexFits(v: uint32)
    ensures |Digits(v, 16)| <= HEX_DIGITS
  {
    assert Power(16, 1) == 16;
    assert Power(16, 2) == 0x100;
    assert Power(16, 3) == 0x1000;
    assert Power(16, 4) == 0x1_0000;
    assert Power(16, 5) == 0x10_0000;
    assert Power(16, 6) == 0x100_0000;
    assert Power(16, 7) == 0x1000_0000;
    assert Power(16, 8) == TWO_32;
    DigitsFit(v, 16, HEX_DIGITS);
  }

  // The code

  /** `strlen` of the string at index `at`. */
  method StrLen(s: array<byte>, at: nat, ghost n: nat) returns (length: nat)
    requires at + n < s.Length && s[at + n] == NUL && forall i | at <= i < at + n :: s[i] != NUL
    ensures length == n
  {
    length := 0;
    while s[at + length] != NUL
      invariant 0 <= length <= n
      decreases n - length
    {
      length := length + 1;
    }
  }

  /** `strrev` of the string of length `n` at index `at`. */
  method StrRev(s: array<byte>, at: nat, ghost n: nat)
    requires at + n < s.Length && s[at + n] == NUL && forall i | at <= i < at + n :: s[i] != NUL
    modifies s
    ensures forall i | 0 <= i < s.Length ::
              s[i] == if at <= i < at + n then old(s[at + (at + n - 1 - i)]) else old(s[i])
  {
    var beg := 0;
    var length := StrLen(s, at, n);
    var end := length as int - 1;
    while beg < end
      invariant 0 <= beg && end == n - 1 - beg && beg <= end + 2
      invariant forall i | 0 <= i < s.Length ::
                  s[i] ==
                    if at <= i < at + n && (i < at + beg || i > at + end) then old(s[at + (at + n - 1 - i)])
                    else old(s[i])
    {
      s[at + end], s[at + beg] := s[at + beg], s[at + end];
      beg := beg + 1;
      end := end - 1;
    }
  }

  /** `itoa` to index `at` of the buffer. */
  method Itoa(value: uint32, buf: array<byte>, at: nat, radix: Radix)
    requires at + |Digits(value, radix)| < buf.Length
    modifies buf
    ensures
      var n := |Digits(value, radix)|;
      forall i | 0 <= i < buf.Length ::
        buf[i] == if at <= i < at + n then Digits(value, radix)[i - at] else if i == at + n then NUL else old(buf[i])
  {
    hide Quotient, Rest, Digits, Digit;
    NoLeadingZero(value, radix);
    if value == 0 {
      buf[at] := ZERO;
      buf[at + 1] := NUL;
      return;
    }
    var newval: nat := value;
    var length := 0;
    ghost var all := Digits(value, radix);
    NoNul(value, radix);
    while newval > 0
      invariant length <= |all| && (newval == 0 <==> length == |all|)
      invariant newval > 0 ==> all[..|all| - length] == Digits(newval, radix)
      invariant forall i | 0 <= i < buf.Length ::
                  buf[i] == if at <= i < at + length then all[|all| - 1 - (i - at)] else old(buf[i])
      decreases newval
    {
      DigitsStep(newval, radix);
      buf[at + length] := Digit(Rest(newval, radix));
      length := length + 1;
      newval := Quotient(newval, radix);
    }
    buf[at + length] := NUL;
    StrRev(buf, at, length);
  }

  lemma DigitsStep(v: nat, radix: Radix)
    requires v > 0
    ensures
      var s := Digits(v, radix);
      && s[|s| - 1] == Digit(Rest(v, radix))
      && if Quotient(v, radix) == 0 then |s| == 1 else s[..|s| - 1] == Digits(Quotient(v, radix), radix)
  {
    hide Quotient;
  }

  lemma NoNul(v: nat, radix: Radix)
    ensures forall i | 0 <= i < |Digits(v, radix)| :: Digits(v, radix)[i] != NUL
  {
    DigitsDenote(v, radix);
  }

  lemma PaddedHex(value: uint32)
    ensures |Digits(value, 16)| <= HEX_DIGITS && NUL !in Digits(value, 16)
    ensures
      var text := Fill(HEX_DIGITS - |Digits(value, 16)|, ZERO) + Digits(value, 16);
      NUL !in text && IsNumeral(text, 16) && ValueOf(text, 16) == value
  {
    hide Digits, ValueOf;
    HexFits(value);
    DigitsDenote(value, 16);
    NoNul(value, 16);
    ZerosInFront(HEX_DIGITS - |Digits(value, 16)|, Digits(value, 16), 16);
  }

  /** The `%x` format with the `#` flag: 8 digits, with zeros in front. */
  method AlternateHex(value: uint32) returns (text: seq<byte>)
    ensures |text| == HEX_DIGITS && IsNumeral(text, 16) && ValueOf(text, 16) == value
  {
    hide Digits, ValueOf, IsNumeral;
    PaddedHex(value);
    ghost var digits := Digits(value, 16);
    var convBuf := new byte[CONV_BUF](_ => NUL);
    Itoa(value, convBuf, HEX_DIGITS, 16);
    var start := StrLen(convBuf, HEX_DIGITS, |digits|);
    PadFrom(convBuf, start);
    ghost var padded := Fill(HEX_DIGITS - start, ZERO) + digits;
    assert convBuf[start..][..HEX_DIGITS] == padded;
    IndexOfUnique(convBuf[start..], NUL, HEX_DIGITS);
    text := CString(convBuf[start..]);
  }

  method PadFrom(buf: array<byte>, start: nat)
    requires start <= HEX_DIGITS <= buf.Length
    modifies buf
    ensures forall i | 0 <= i < buf.Length :: buf[i] == if start <= i < HEX_DIGITS then ZERO else old(buf[i])
  {
    var i := start;
    while i < HEX_DIGITS
      invariant start <= i <= HEX_DIGITS
      invariant forall j | 0 <= j < buf.Length :: buf[j] == if start <= j < i then ZERO else old(buf[j])
    {
      buf[i] := ZERO;
      i := i + 1;
    }
  }

  function Magnitude(value: int32): uint32 {
    if value < 0 then 0 - (value as int) else value
  }

  /** The `%d` format. */
  method SignedText(value: int32) returns (text: seq<byte>)
    ensures text == if value < 0 then [MINUS] + Digits(Magnitude(value), 10) else Digits(value, 10)
    ensures value < 0 ==>
              text[0] == 45 && IsNumeral(text[1..], 10) && ValueOf(text[1..], 10) == 0 - (value as int)
    ensures value >= 0 ==> IsNumeral(text, 10) && ValueOf(text, 10) == value
  {
    hide Digits, IsNumeral, ValueOf;
    DigitsDenote(Magnitude(value), 10);
    assert ([MINUS] + Digits(Magnitude(value), 10))[1..] == Digits(Magnitude(value), 10);
    var convBuf := new byte[36](_ => NUL);
    var magnitude: uint32 := Magnitude(value);
    TenDigits(magnitude);
    NoNul(magnitude, 10);
    var sign := if value < 0 then 1 else 0;
    if value < 0 {
      convBuf[0] := MINUS;
    }
    Itoa(magnitude, convBuf, sign, 10);
    ghost var all := (if value < 0 then [MINUS] else []) + Digits(magnitude, 10);
    assert convBuf[..][..|all|] == all;
    IndexOfUnique(convBuf[..], NUL, |all|);
    text := CString(convBuf[..]);
  }

  lemma TenDigits(v: uint32)
    ensures |Digits(v, 10)| <= 10
  {
    assert Power(10, 1) == 10;
    assert Power(10, 2) == 100;
    assert Power(10, 3) == 1000;
    assert Power(10, 4) == 10000;
    assert Power(10, 5) == 100000;
    assert Power(10, 6) == 1000000;
    assert Power(10, 7) == 10000000;
    assert Power(10, 8) == 100000000;
    assert Power(10, 9) == 1000000000;
    assert Power(10, 10) == 10000000000;
    DigitsFit(v, 10, 10);
  }
}
