/** The integer conversions of printf.c as functions to text: digits, zero padding, sign, and field
    width, with the 32-byte work buffer; and what the text says about the number. */
module PrintfText {
  import opened Words

  /** PRINTF_NTOA_BUFFER_SIZE. */
  const BUFFER: nat := 32

  datatype Flags = Flags(zeropad: bool, left: bool, plus: bool, space: bool, hash: bool, uppercase: bool, isChar: bool,
                         isShort: bool, isLong: bool, isLongLong: bool, hasPrecision: bool)

  // ---------------------------------------------------------------- text

  function DigitChar(d: nat, uppercase: bool): (r: char)
    requires d < 16
  {
    if d < 10 then ('0' as int + d) as char
    else if uppercase then ('A' as int + d - 10) as char
    else ('a' as int + d - 10) as char
  }

  /** The do-while loop of _ntoa_long with `room` places left: digits from the lowest up. */
  function Digits(value: nat, base: nat, uppercase: bool, room: nat): (s: string)
    requires 2 <= base <= 16 && room > 0
    ensures 0 < |s| <= room
    decreases room
  {
    [DigitChar(value % base, uppercase)] +
    if value / base == 0 || room == 1 then "" else Digits(value / base, base, uppercase, room - 1)
  }

  function Copies(c: char, n: int): (s: string)
    ensures |s| == if n < 0 then 0 else n
    ensures forall k :: 0 <= k < |s| ==> s[k] == c
  {
    seq(if n < 0 then 0 else n, _ => c)
  }

  function Reverse(s: string): (r: string)
    ensures |r| == |s| && forall k :: 0 <= k < |s| ==> r[k] == s[|s| - 1 - k]
  {
    seq(|s|, k requires 0 <= k < |s| => s[|s| - 1 - k])
  }

  function Min(a: int, b: int): (n: int) { if a < b then a else b }
  function Max(a: int, b: int): (n: int) { if a < b then b else a }

  /** Zeros are appended until the length is n, or the work buffer is full. */
  function ZeroTo(s: string, n: nat): (r: string)
    requires |s| <= BUFFER
    ensures |r| <= BUFFER && |r| == Max(|s|, Min(n, BUFFER)) && |s| <= |r|
  {
    s + Copies('0', Min(n, BUFFER) - |s|)
  }

  /** One more character if the work buffer has room. */
  function Put(s: string, c: char): (r: string)
    requires |s| <= BUFFER
    ensures |r| <= BUFFER
  {
    if |s| < BUFFER then s + [c] else s
  }

  predicate Signed(negative: bool, flags: Flags)
  {
    negative || flags.plus || flags.space
  }

  /** The width that zeros are padded to leaves a place for the sign. */
  function PadWidth(negative: bool, width: nat, flags: Flags): (n: nat)
  {
    if !flags.left && width > 0 && flags.zeropad && Signed(negative, flags) then width - 1 else width
  }

  /** The digits in the work buffer after the leading zeros. */
  function Padded(digits: string, negative: bool, prec: nat, width: nat, flags: Flags): (r: string)
    requires |digits| <= BUFFER
    ensures |r| <= BUFFER
  {
    if flags.left then digits
    else
      var s := ZeroTo(digits, prec);
      if flags.zeropad then ZeroTo(s, PadWidth(negative, width, flags)) else s
  }

  /** The prefix of the '#' flag, as written: up to two characters of the buffer make way for it. */
  function Hashed(s: string, base: nat, prec: nat, width: nat, flags: Flags): (r: string)
    requires |s| <= BUFFER
    ensures |r| <= BUFFER
  {
    if !flags.hash then s
    else
      var cut := if !flags.hasPrecision && s != [] && (|s| == prec || |s| == width)
                 then if |s| > 1 && base == 16 then 2 else 1 else 0;
      var t := s[..|s| - cut];
      var u := if base == 16 then Put(t, if flags.uppercase then 'X' else 'x') else if base == 2 then Put(t, 'b') else t;
      Put(u, '0')
  }

  function WithSign(s: string, negative: bool, flags: Flags): (r: string)
    requires |s| <= BUFFER
    ensures |r| <= BUFFER
  {
    if negative then Put(s, '-') else if flags.plus then Put(s, '+') else if flags.space then Put(s, ' ') else s
  }

  /** _out_rev: the buffer backwards, with spaces before or after. */
  function Field(buf: string, width: nat, flags: Flags): (r: string)
  {
    (if !flags.left && !flags.zeropad then Copies(' ', width - |buf|) else "")
    + Reverse(buf)
    + (if flags.left then Copies(' ', width - |buf|) else "")
  }

  /** _ntoa_format. */
  function FormatText(digits: string, negative: bool, base: nat, prec: nat, width: nat, flags: Flags): (r: string)
    requires |digits| <= BUFFER
  {
    var w := PadWidth(negative, width, flags);
    Field(WithSign(Hashed(Padded(digits, negative, prec, width, flags), base, prec, w, flags), negative, flags), w, flags)
  }

  /** The digits that _ntoa_long collects: none for 0 with an explicit precision. */
  function NumberDigits(value: nat, base: nat, flags: Flags): (s: string)
    requires 2 <= base <= 16
    ensures |s| <= BUFFER
  {
    if flags.hasPrecision && value == 0 then "" else Digits(value, base, flags.uppercase, BUFFER)
  }

  /** _ntoa_long and _ntoa_long_long. */
  function NumberText(value: nat, negative: bool, base: nat, prec: nat, width: nat, flags: Flags): (r: string)
    requires 2 <= base <= 16
  {
    var f := if value == 0 then flags.(hash := false) else flags;
    FormatText(NumberDigits(value, base, f), negative, base, prec, width, f)
  }

  // ---------------------------------------------------------------- reading the text back

  function DigitValue(c: char): (d: int)
    ensures -1 <= d < 16
  {
    if '0' <= c <= '9' then c as int - '0' as int
    else if 'a' <= c <= 'f' then c as int - 'a' as int + 10
    else if 'A' <= c <= 'F' then c as int - 'A' as int + 10
    else -1
  }

  predicate AllDigits(s: string)
  {
    forall k :: 0 <= k < |s| ==> DigitValue(s[k]) >= 0
  }

  /** The value of digits written highest first. */
  function ValueOf(s: string, base: nat): (n: nat)
    requires AllDigits(s)
  {
    if s == "" then 0 else ValueOf(s[..|s| - 1], base) * base + DigitValue(s[|s| - 1])
  }

  function SkipSpaces(s: string): (r: string)
    ensures |r| <= |s|
  {
    if s != "" && s[0] == ' ' then SkipSpaces(s[1..]) else s
  }

  function DropSpaces(s: string): (r: string)
    ensures |r| <= |s|
  {
    if s != "" && s[|s| - 1] == ' ' then DropSpaces(s[..|s| - 1]) else s
  }

  /** An optional sign, then digits. */
  function ReadSigned(s: string, base: nat): (n: int)
  {
    if s != "" && (s[0] == '-' || s[0] == '+') then
      if AllDigits(s[1..]) then if s[0] == '-' then -(ValueOf(s[1..], base) as int) else ValueOf(s[1..], base) else 0
    else if AllDigits(s) then ValueOf(s, base) else 0
  }

  /** Reads a printed field: spaces, an optional sign, digits, spaces. */
  function ReadField(s: string, base: nat): (n: int)
  {
    ReadSigned(DropSpaces(SkipSpaces(s)), base)
  }

  function Pow(base: nat, n: nat): (v: nat)
  {
    if n == 0 then 1 else base * Pow(base, n - 1)
  }

  lemma {:induction false} PowPositive(base: nat, n: nat)
    requires base > 0
    ensures Pow(base, n) > 0
  {
    if n > 0 { PowPositive(base, n - 1); }
  }

  // ---------------------------------------------------------------- digits

  lemma ReverseCons(c: char, s: string)
    ensures Reverse([c] + s) == Reverse(s) + [c]
  {
  }

  lemma ReverseAppend(s: string, t: string)
    ensures Reverse(s + t) == Reverse(t) + Reverse(s)
  {
  }

  lemma ValueSnoc(s: string, c: char, base: nat)
    requires AllDigits(s) && DigitValue(c) >= 0
    ensures AllDigits(s + [c]) && ValueOf(s + [c], base) == ValueOf(s, base) * base + DigitValue(c)
  {
    assert (s + [c])[..|s|] == s;
  }

  /** The digits, read highest first, are the value modulo base^room: nothing is lost when the work
      buffer is long enough. */
  lemma {:induction false} DigitsValue(v: nat, base: nat, uppercase: bool, room: nat)
    requires 2 <= base <= 16 && room > 0
    ensures var s := Reverse(Digits(v, base, uppercase, room));
            AllDigits(s) && Pow(base, room) > 0 && ValueOf(s, base) == v % Pow(base, room)
    decreases room
  {
    hide ValueOf, AllDigits, Reverse, DigitChar, DigitValue;
    var c := DigitChar(v % base, uppercase);
    DigitRead(v % base, uppercase);
    if v / base == 0 || room == 1 {
      LastDigit(v / base, base, room);
      DigitStep(v, base, room);
      assert Digits(v, base, uppercase, room) == [c];
      hide *;
      OneDigit(c, base);
    } else {
      var rest := Digits(v / base, base, uppercase, room - 1);
      assert Digits(v, base, uppercase, room) == [c] + rest;
      DigitsValue(v / base, base, uppercase, room - 1);
      DigitStep(v, base, room);
      hide *;
      OneMoreDigit(c, rest, base);
    }
  }

  lemma OneDigit(c: char, base: nat)
    requires DigitValue(c) >= 0
    ensures AllDigits(Reverse([c])) && ValueOf(Reverse([c]), base) == DigitValue(c)
  {
    assert Reverse([c]) == [c] && [c][..0] == "";
    assert 0 * base == 0;
  }

  lemma OneMoreDigit(c: char, rest: string, base: nat)
    requires DigitValue(c) >= 0 && AllDigits(Reverse(rest))
    ensures AllDigits(Reverse([c] + rest)) && ValueOf(Reverse([c] + rest), base) == ValueOf(Reverse(rest), base) * base + DigitValue(c)
  {
    ReverseCons(c, rest);
    ValueSnoc(Reverse(rest), c, base);
  }

  lemma DigitStep(v: nat, base: nat, room: nat)
    requires base > 0 && room > 0 && Pow(base, room - 1) > 0
    ensures Pow(base, room) > 0 && v % Pow(base, room) == v / base % Pow(base, room - 1) * base + v % base
  {
    ModStep(v, base, Pow(base, room - 1));
  }

  lemma DigitRead(d: nat, uppercase: bool)
    requires d < 16
    ensures DigitValue(DigitChar(d, uppercase)) == d
  {
  }

  lemma LastDigit(q: nat, base: nat, room: nat)
    requires base > 0 && room > 0 && (q == 0 || room == 1)
    ensures Pow(base, room - 1) > 0 && q % Pow(base, room - 1) == 0
  {
    PowPositive(base, room - 1);
    if q == 0 { SmallMod(0, Pow(base, room - 1)); }
  }

  /** No leading zero: the highest digit is '0' only for 0 itself. */
  lemma {:induction false} NoLeadingZero(v: nat, base: nat, uppercase: bool, room: nat)
    requires 2 <= base <= 16 && room > 0 && 0 < v < Pow(base, room)
    ensures Reverse(Digits(v, base, uppercase, room))[0] != '0'
    decreases room
  {
    if v / base == 0 || room == 1 {
      assert room == 1 ==> Pow(base, room) == base * Pow(base, 0) == base;
      if room == 1 { SmallMod(v, base); }
      assert v % base == v;
    } else {
      QuotientBound(v, base, Pow(base, room - 1));
      NoLeadingZero(v / base, base, uppercase, room - 1);
      ReverseCons(DigitChar(v % base, uppercase), Digits(v / base, base, uppercase, room - 1));
    }
  }

  lemma QuotientBound(v: nat, b: nat, m: nat)
    requires b > 0 && v < b * m
    ensures v / b < m
  {
    if v / b >= m { MulMono(m, v / b, b); }
  }

  // ---------------------------------------------------------------- trimming

  lemma {:induction false} LeadingZeros(n: nat, s: string, base: nat)
    requires AllDigits(s)
    ensures AllDigits(Copies('0', n) + s) && ValueOf(Copies('0', n) + s, base) == ValueOf(s, base)
    decreases |s|, n
  {
    var t := Copies('0', n) + s;
    if s != "" {
      LeadingZeros(n, s[..|s| - 1], base);
      assert t[..|t| - 1] == Copies('0', n) + s[..|s| - 1];
    } else if n > 0 {
      LeadingZeros(n - 1, s, base);
      assert t[..|t| - 1] == Copies('0', n - 1) + s;
    }
  }

  lemma {:induction false} SkipLeading(n: nat, s: string)
    requires s == "" || s[0] != ' '
    ensures SkipSpaces(Copies(' ', n) + s) == s
  {
    var t := Copies(' ', n) + s;
    if n == 0 {
      assert t == s;
    } else {
      SkipLeading(n - 1, s);
      assert t[1..] == Copies(' ', n - 1) + s;
    }
  }

  lemma {:induction false} DropTrailing(s: string, n: nat)
    requires s == "" || s[|s| - 1] != ' '
    ensures DropSpaces(s + Copies(' ', n)) == s
  {
    var t := s + Copies(' ', n);
    if n == 0 {
      assert t == s;
    } else {
      DropTrailing(s, n - 1);
      assert t[..|t| - 1] == s + Copies(' ', n - 1);
    }
  }

  lemma Trimmed(m: nat, core: string, k: nat)
    requires core == "" || (core[0] != ' ' && core[|core| - 1] != ' ')
    ensures DropSpaces(SkipSpaces(Copies(' ', m) + core + Copies(' ', k))) == core
  {
    if core == "" {
      assert Copies(' ', m) + core + Copies(' ', k) == Copies(' ', m + k) + "";
      SkipLeading(m + k, "");
      DropTrailing("", 0);
      assert Copies(' ', 0) == "";
    } else {
      assert Copies(' ', m) + core + Copies(' ', k) == Copies(' ', m) + (core + Copies(' ', k));
      SkipLeading(m, core + Copies(' ', k));
      DropTrailing(core, k);
    }
  }

  // ---------------------------------------------------------------- the number back

  /** The sign that is printed, if the work buffer has room. */
  function SignText(padded: string, negative: bool, flags: Flags): (r: string)
  {
    if |padded| >= BUFFER then "" else if negative then "-" else if flags.plus then "+" else if flags.space then " " else ""
  }

  lemma SignIs(padded: string, negative: bool, flags: Flags)
    requires |padded| <= BUFFER
    ensures Reverse(WithSign(padded, negative, flags)) == SignText(padded, negative, flags) + Reverse(padded)
  {
    ReverseAppend(padded, "-");
    ReverseAppend(padded, "+");
    ReverseAppend(padded, " ");
    assert Reverse("-") == "-" && Reverse("+") == "+" && Reverse(" ") == " ";
  }

  /** Without '#' the text is spaces, the sign, the padded digits, and spaces. */
  lemma TextIs(value: nat, negative: bool, base: nat, prec: nat, width: nat, flags: Flags) returns (m: nat, k: nat)
    requires 2 <= base <= 16 && !flags.hash
    ensures var padded := Padded(NumberDigits(value, base, flags), negative, prec, width, flags);
            (NumberText(value, negative, base, prec, width, flags)
             == Copies(' ', m) + SignText(padded, negative, flags) + Reverse(padded) + Copies(' ', k))
  {
    var padded := Padded(NumberDigits(value, base, flags), negative, prec, width, flags);
    var w := PadWidth(negative, width, flags);
    PlainText(value, negative, base, prec, width, flags);
    hide NumberText, NumberDigits, Padded, PadWidth;
    var buf := WithSign(padded, negative, flags);
    m := if !flags.left && !flags.zeropad && w > |buf| then w - |buf| else 0;
    k := if flags.left && w > |buf| then w - |buf| else 0;
    FieldIs(buf, w, flags, m, k);
    SignIs(padded, negative, flags);
    hide *;
    Regrouped(Copies(' ', m), SignText(padded, negative, flags), Reverse(padded), Copies(' ', k));
  }

  lemma Regrouped(a: string, b: string, c: string, d: string)
    ensures a + (b + c) + d == a + b + c + d
  {
    assert a + (b + c) == a + b + c;
  }

  /** Without '#' the work buffer holds the padded digits and the sign. */
  lemma PlainText(value: nat, negative: bool, base: nat, prec: nat, width: nat, flags: Flags)
    requires 2 <= base <= 16 && !flags.hash
    ensures var padded := Padded(NumberDigits(value, base, flags), negative, prec, width, flags);
            NumberText(value, negative, base, prec, width, flags) == Field(WithSign(padded, negative, flags), PadWidth(negative, width, flags), flags)
  {
    assert flags.(hash := false) == flags;
    hide Digits, NumberDigits, Padded, WithSign, Field, PadWidth;
  }

  lemma FieldIs(buf: string, w: nat, flags: Flags, m: nat, k: nat)
    requires m == if !flags.left && !flags.zeropad && w > |buf| then w - |buf| else 0
    requires k == if flags.left && w > |buf| then w - |buf| else 0
    ensures Field(buf, w, flags) == Copies(' ', m) + Reverse(buf) + Copies(' ', k)
  {
    assert Copies(' ', 0) == "" && Copies(' ', w - |buf|) == if w > |buf| then Copies(' ', w - |buf|) else "";
  }

  /** The padded digits still have the value of the digits. */
  lemma PaddedValue(value: nat, negative: bool, base: nat, prec: nat, width: nat, flags: Flags)
    requires 2 <= base <= 16
    ensures var r := Reverse(Padded(NumberDigits(value, base, flags), negative, prec, width, flags));
            AllDigits(r) && Pow(base, BUFFER) > 0 && ValueOf(r, base) == value % Pow(base, BUFFER)
  {
    DigitsValue(value, base, flags.uppercase, BUFFER);
    hide Digits, Pow;
    var digits := NumberDigits(value, base, flags);
    if flags.hasPrecision && value == 0 {
      assert Reverse(digits) == "";
      assert ValueOf("", base) == 0;
    }
    assert AllDigits(Reverse(digits)) && ValueOf(Reverse(digits), base) == value % Pow(base, BUFFER);
    if !flags.left {
      var s := ZeroTo(digits, prec);
      ZerosInFront(digits, prec, base);
      if flags.zeropad { ZerosInFront(s, PadWidth(negative, width, flags), base); }
    }
  }

  lemma ZerosInFront(s: string, n: nat, base: nat)
    requires |s| <= BUFFER && AllDigits(Reverse(s))
    ensures AllDigits(Reverse(ZeroTo(s, n))) && ValueOf(Reverse(ZeroTo(s, n)), base) == ValueOf(Reverse(s), base)
  {
    var zeros := Copies('0', Min(n, BUFFER) - |s|);
    ReverseAppend(s, zeros);
    assert Reverse(zeros) == Copies('0', |zeros|);
    LeadingZeros(|zeros|, Reverse(s), base);
  }

  /** What a reader gets: the low 32 digits of the value; a minus sign only if the padded digits left
      a place for it in the work buffer. */
  lemma ReadsBack(value: nat, negative: bool, base: nat, prec: nat, width: nat, flags: Flags)
    requires 2 <= base <= 16 && !flags.hash
    ensures Pow(base, BUFFER) > 0
    ensures var padded := Padded(NumberDigits(value, base, flags), negative, prec, width, flags);
            var v: int := value % Pow(base, BUFFER);
            ReadField(NumberText(value, negative, base, prec, width, flags), base) == if negative && |padded| < BUFFER then -v else v
  {
    hide NumberText, NumberDigits, Padded, Pow, ReadField;
    var m, k := TextIs(value, negative, base, prec, width, flags);
    PaddedValue(value, negative, base, prec, width, flags);
    FieldReads(Padded(NumberDigits(value, base, flags), negative, prec, width, flags), negative, flags, base, m, k);
  }

  lemma FieldReads(padded: string, negative: bool, flags: Flags, base: nat, m: nat, k: nat)
    requires |padded| <= BUFFER && AllDigits(Reverse(padded))
    ensures var v: int := ValueOf(Reverse(padded), base);
            ReadField(Copies(' ', m) + SignText(padded, negative, flags) + Reverse(padded) + Copies(' ', k), base)
            == if negative && |padded| < BUFFER then -v else v
  {
    hide ValueOf, SkipSpaces, DropSpaces, DigitValue, AllDigits, Reverse, Copies;
    var sign, r := SignText(padded, negative, flags), Reverse(padded);
    var text := Copies(' ', m) + sign + r + Copies(' ', k);
    NoSpaces(r);
    DigitsRead(r, base);
    if sign == " " {
      OneMoreSpace(m);
      assert text == Copies(' ', m + 1) + r + Copies(' ', k);
      Trimmed(m + 1, r, k);
    } else {
      assert text == Copies(' ', m) + (sign + r) + Copies(' ', k);
      Trimmed(m, sign + r, k);
      if sign == "" { assert sign + r == r; } else { assert (sign + r)[1..] == r; }
    }
  }

  lemma OneMoreSpace(m: nat)
    ensures Copies(' ', m) + " " == Copies(' ', m + 1)
  {
  }

  lemma NoSpaces(r: string)
    requires AllDigits(r)
    ensures r != "" ==> r[0] != ' ' && r[|r| - 1] != ' '
  {
  }

  lemma DigitsRead(r: string, base: nat)
    requires AllDigits(r)
    ensures ReadSigned(r, base) == ValueOf(r, base)
  {
    hide ValueOf;
    assert r != "" ==> DigitValue(r[0]) >= 0;
  }

  /** The work buffer has a place for the sign. */
  predicate SignFits(digits: nat, negative: bool, prec: nat, width: nat, flags: Flags)
  {
    digits < BUFFER && (flags.left || (prec < BUFFER && (flags.zeropad ==> PadWidth(negative, width, flags) < BUFFER)))
  }

  /** Round trip: the printed field reads back as the number exactly when the value has at most 32
      digits and, for a negative number, the sign found a place behind the padding. */
  lemma RoundTripIff(value: nat, negative: bool, base: nat, prec: nat, width: nat, flags: Flags)
    requires 2 <= base <= 16 && !flags.hash
    ensures ReadField(NumberText(value, negative, base, prec, width, flags), base) == (if negative then -(value as int) else value as int)
            <==> value < Pow(base, BUFFER)
                 && (negative && value > 0 ==> SignFits(|NumberDigits(value, base, flags)|, negative, prec, width, flags))
  {
    ReadsBack(value, negative, base, prec, width, flags);
    hide NumberText, NumberDigits, Pow, ReadField;
    var p := Pow(base, BUFFER);
    if value < p { SmallMod(value, p); }
    var digits := NumberDigits(value, base, flags);
    assert |Padded(digits, negative, prec, width, flags)| < BUFFER <==> SignFits(|digits|, negative, prec, width, flags);
  }

  lemma {:induction false} PowMono(a: nat, b: nat, n: nat)
    requires a <= b
    ensures Pow(a, n) <= Pow(b, n)
  {
    if n > 0 {
      PowMono(a, b, n - 1);
      MulMono(a, b, Pow(a, n - 1));
      MulMono(Pow(a, n - 1), Pow(b, n - 1), b);
    }
  }

  /** Thirty-two digits hold every 64-bit value in base 8, 10 or 16, and every 32-bit value in base 2. */
  lemma EnoughDigits(base: nat)
    ensures base >= 4 ==> Pow(base, BUFFER) >= 0x1_0000_0000_0000_0000
    ensures Pow(2, BUFFER) == 0x1_0000_0000
  {
    PowSum(2, 8, 8); PowSum(2, 16, 16);
    assert Pow(2, 8) == 256;
    PowSum(4, 8, 8); PowSum(4, 16, 16);
    assert Pow(4, 8) == 0x1_0000;
    if base >= 4 { PowMono(4, base, BUFFER); }
  }

  lemma {:induction false} PowSum(b: nat, m: nat, n: nat)
    ensures Pow(b, m + n) == Pow(b, m) * Pow(b, n)
  {
    if m > 0 {
      PowSum(b, m - 1, n);
      assert b * (Pow(b, m - 1) * Pow(b, n)) == b * Pow(b, m - 1) * Pow(b, n);
    }
  }

  /** For widths up to 32 and no precision a field is as wide as asked for, or as the number needs. */
  lemma FieldWidth(value: nat, negative: bool, base: nat, width: nat, flags: Flags)
    requires 2 <= base <= 16 && !flags.hash && width <= BUFFER
    ensures var n := |NumberDigits(value, base, flags)|;
            |NumberText(value, negative, base, 0, width, flags)| == Max(width, if Signed(negative, flags) && n < BUFFER then n + 1 else n)
  {
    hide Digits;
  }
}
