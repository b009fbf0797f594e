/** What every conversion prints, character by character: the padding, the sign, the prefix, the zeros
    and the digits, each in its place. Bases, operand sizes and characters are written out here. */
module PrintfLayout {
  import opened Words
  import opened PrintfText
  import opened PrintfRender

  // ---------------------------------------------------------------- digits

  /** The symbol of a digit. */
  function Symbol(d: nat, uppercase: bool): (c: char)
    requires d < 16
  {
    if uppercase then "0123456789ABCDEF"[d] else "0123456789abcdef"[d]
  }

  lemma DigitIs(d: nat, uppercase: bool)
    requires d < 16
    ensures DigitChar(d, uppercase) == Symbol(d, uppercase)
  {
  }

  /** Digit k of a number, counted from the lowest. */
  function DigitOf(v: nat, base: nat, k: nat): (d: nat)
    requires base > 0
    ensures d < base
  {
    PowPositive(base, k);
    v / Pow(base, k) % base
  }

  lemma DigitZero(v: nat, base: nat)
    requires base > 0
    ensures DigitOf(v, base, 0) == v % base
  {
    PowZero(base);
    hide Pow;
    Quotient(v, 1);
  }

  lemma DigitAbove(v: nat, base: nat, k: nat)
    requires base > 0 && k > 0
    ensures DigitOf(v, base, k) == DigitOf(v / base, base, k - 1)
  {
    hide Pow;
    PowPositive(base, k);
    PowPositive(base, k - 1);
    PowStep(base, k);
    DivTwice(v, base, Pow(base, k - 1));
  }

  /** The collected digits are the digits of the number, lowest first. */
  lemma {:induction false} DigitAt(v: nat, base: nat, uppercase: bool, room: nat, k: nat)
    requires 2 <= base <= 16 && room > 0 && k < |Digits(v, base, uppercase, room)|
    ensures Digits(v, base, uppercase, room)[k] == Symbol(DigitOf(v, base, k), uppercase)
    decreases k
  {
    hide DigitOf, DigitChar, Symbol;
    if k == 0 {
      DigitIs(v % base, uppercase);
      DigitZero(v, base);
    } else {
      DigitAt(v / base, base, uppercase, room - 1, k - 1);
      DigitAbove(v, base, k);
    }
  }

  lemma PowZero(base: nat)
    ensures Pow(base, 0) == 1
  {
  }

  lemma PowStep(base: nat, k: nat)
    requires k > 0
    ensures Pow(base, k) == base * Pow(base, k - 1)
  {
  }

  /** The number of digits is that of the number, up to the room. */
  lemma {:induction false} DigitCount(v: nat, base: nat, uppercase: bool, room: nat)
    requires 2 <= base <= 16 && room > 0
    ensures var n := |Digits(v, base, uppercase, room)|;
            && 0 < n <= room
            && (n > 1 ==> Pow(base, n - 1) <= v)
            && (n < room ==> v < Pow(base, n))
    decreases room
  {
    hide Pow, DigitChar;
    if v / base == 0 || room == 1 {
      assert |Digits(v, base, uppercase, room)| == 1;
      hide Digits;
      PowZero(base);
      PowStep(base, 1);
      Quotient(v, base);
      LowDigit(v, base);
    } else {
      DigitCount(v / base, base, uppercase, room - 1);
      var n := |Digits(v / base, base, uppercase, room - 1)|;
      assert |Digits(v, base, uppercase, room)| == n + 1;
      hide Digits;
      CountStep(v, base, n, room);
    }
  }

  lemma LowDigit(v: nat, base: nat)
    requires base > 0
    ensures v / base == 0 ==> v < base
  {
    Quotient(v, base);
  }

  lemma CountStep(v: nat, base: nat, n: nat, room: nat)
    requires base >= 2 && n > 0 && v / base > 0
    requires (n > 1 ==> Pow(base, n - 1) <= v / base) && (n < room - 1 ==> v / base < Pow(base, n))
    ensures Pow(base, n) <= v && (n + 1 < room ==> v < Pow(base, n + 1))
  {
    hide Pow;
    Quotient(v, base);
    PowZero(base);
    PowStep(base, n);
    PowStep(base, n + 1);
    Scaled(v, base, v / base, v % base, Pow(base, n - 1), Pow(base, n), n + 1 < room);
  }

  lemma Scaled(v: nat, base: nat, q: nat, r: nat, low: nat, high: nat, below: bool)
    requires r < base && v == q * base + r && low <= q && (below ==> q < high)
    ensures base * low <= v && (below ==> v < base * high)
  {
    MulMono(low, q, base);
    if below { MulMono(q + 1, high, base); Successor(q, base); }
  }

  // ---------------------------------------------------------------- the parts of a number

  function Least(n: int): (r: nat) { if n < 0 then 0 else n }

  /** How many leading zeros are printed for nd digits. */
  function Zeros(nd: nat, signed: bool, prec: nat, width: nat, flags: Flags): (z: nat)
  {
    if flags.left then 0
    else
      var p := Least(Min(prec, 32) - nd);
      if !flags.zeropad then p
      else
        var w := if signed && width > 0 then width - 1 else width;
        p + Least(Min(w, 32) - (nd + p))
  }

  lemma PaddedIs(digits: string, negative: bool, prec: nat, width: nat, flags: Flags)
    requires |digits| <= 32
    ensures Padded(digits, negative, prec, width, flags) == digits + Copies('0', Zeros(|digits|, Signed(negative, flags), prec, width, flags))
    ensures |digits| + Zeros(|digits|, Signed(negative, flags), prec, width, flags) <= 32
  {
    if flags.left {
      assert digits + Copies('0', 0) == digits;
    } else {
      var s := ZeroTo(digits, prec);
      var p := Least(Min(prec, 32) - |digits|);
      CopiesLeast('0', Min(prec, 32) - |digits|);
      assert s == digits + Copies('0', p);
      if flags.zeropad {
        var w := PadWidth(negative, width, flags);
        var e := Min(w, 32) - |s|;
        CopiesLeast('0', e);
        assert digits + Copies('0', p) + Copies('0', Least(e)) == digits + (Copies('0', p) + Copies('0', Least(e)));
        CopiesAppend('0', p, Least(e));
      }
    }
  }

  lemma CopiesLeast(c: char, n: int)
    ensures Copies(c, n) == Copies(c, Least(n))
  {
  }

  lemma CopiesAppend(c: char, m: nat, n: nat)
    ensures Copies(c, m) + Copies(c, n) == Copies(c, m + n)
  {
  }

  lemma CopiesReverse(c: char, n: nat)
    ensures Reverse(Copies(c, n)) == Copies(c, n)
  {
  }

  /** The sign that is printed when there is a place for it. */
  function SignOf(negative: bool, plus: bool, space: bool): (s: string)
    ensures |s| <= 1
  {
    if negative then "-" else if plus then "+" else if space then " " else ""
  }

  /** The five parts of a printed number without prefix: spaces, sign, zeros, digits, spaces. */
  datatype Parts = Parts(before: nat, sign: string, zeros: nat, digits: string, after: nat)

  function Joined(p: Parts): (s: string)
  {
    Copies(' ', p.before) + p.sign + Copies('0', p.zeros) + p.digits + Copies(' ', p.after)
  }

  /** The parts for digits (highest first), with the width shared out as the flags say. */
  function PartsOf(digits: string, negative: bool, prec: nat, width: nat, flags: Flags): (p: Parts)
  {
    var z := Zeros(|digits|, Signed(negative, flags), prec, width, flags);
    var sign := if |digits| + z < 32 then SignOf(negative, flags.plus, flags.space) else "";
    var pad := Least(width - (|sign| + z + |digits|));
    Parts(if flags.left || flags.zeropad then 0 else pad, sign, z, digits, if flags.left then pad else 0)
  }

  /** Without prefix a number is printed as its parts, joined. */
  lemma NumberLayout(value: nat, negative: bool, base: nat, prec: nat, width: nat, flags: Flags)
    requires 2 <= base <= 16 && (!flags.hash || value == 0)
    ensures NumberText(value, negative, base, prec, width, flags)
         == Joined(PartsOf(Reverse(NumberDigits(value, base, flags)), negative, prec, width, flags))
  {
    hide Digits, NumberDigits, NumberText, Padded, WithSign, Field, Reverse, Copies, Joined, PartsOf, PadWidth, Zeros;
    var f := if value == 0 then flags.(hash := false) else flags;
    var digits := NumberDigits(value, base, flags);
    PaddedIs(digits, negative, prec, width, f);
    var z := Zeros(|digits|, Signed(negative, f), prec, width, f);
    var padded := digits + Copies('0', z);
    var w := PadWidth(negative, width, f);
    Unprefixed(value, negative, base, prec, width, flags);
    SignIs(padded, negative, f);
    ReverseAppend(digits, Copies('0', z));
    CopiesReverse('0', z);
    var sign := SignText(padded, negative, f);
    assert sign == if |digits| + z < 32 then SignOf(negative, flags.plus, flags.space) else "";
    FieldLayout(WithSign(padded, negative, f), w, f, sign, z, Reverse(digits));
    SamePads(Reverse(digits), negative, prec, width, flags, f, sign, z);
  }

  lemma Unprefixed(value: nat, negative: bool, base: nat, prec: nat, width: nat, flags: Flags)
    requires 2 <= base <= 16 && (!flags.hash || value == 0)
    ensures var f := if value == 0 then flags.(hash := false) else flags;
            NumberText(value, negative, base, prec, width, flags) ==
            Field(WithSign(Padded(NumberDigits(value, base, flags), negative, prec, width, f), negative, f), PadWidth(negative, width, f), f)
  {
    hide Digits, Padded, WithSign, Field, PadWidth;
  }

  lemma SamePads(digits: string, negative: bool, prec: nat, width: nat, flags: Flags, f: Flags, sign: string, z: nat)
    requires f == flags || f == flags.(hash := false)
    requires z == Zeros(|digits|, Signed(negative, f), prec, width, f)
    requires sign == if |digits| + z < 32 then SignOf(negative, flags.plus, flags.space) else ""
    ensures var pad := Least(PadWidth(negative, width, f) - (|sign| + z + |digits|));
            Parts(if f.left || f.zeropad then 0 else pad, sign, z, digits, if f.left then pad else 0)
            == PartsOf(digits, negative, prec, width, flags)
  {
  }

  lemma FieldLayout(buf: string, w: nat, flags: Flags, sign: string, z: nat, digits: string)
    requires Reverse(buf) == sign + (Copies('0', z) + digits)
    ensures var pad := Least(w - (|sign| + z + |digits|));
            Field(buf, w, flags) == Joined(Parts(if flags.left || flags.zeropad then 0 else pad, sign, z, digits, if flags.left then pad else 0))
  {
    var pad := Least(w - |buf|);
    CopiesLeast(' ', w - |buf|);
    assert |buf| == |sign| + z + |digits|;
    var l, r := if flags.left || flags.zeropad then 0 else pad, if flags.left then pad else 0;
    assert Copies(' ', 0) == "";
    assert Field(buf, w, flags) == Copies(' ', l) + (sign + (Copies('0', z) + digits)) + Copies(' ', r);
    hide *;
    assert Copies(' ', l) + (sign + (Copies('0', z) + digits)) == Copies(' ', l) + sign + Copies('0', z) + digits;
  }
}
