/** The conversions of a format: what each letter, flag and length modifier makes of its argument. */
module PrintfMeaning {
  import opened Words
  import opened PrintfText
  import opened PrintfRender
  import opened PrintfLayout

  // ---------------------------------------------------------------- operands

  /** The operand sizes of the length modifiers, as powers of two. */
  function LimitOf(mods: string): (n: nat)
  {
    if mods == "hh" then 0x100
    else if mods == "h" then 0x1_0000
    else if mods == "" then 0x1_0000_0000
    else 0x1_0000_0000_0000_0000
  }

  predicate IsModifier(mods: string)
  {
    mods == "" || mods == "h" || mods == "hh" || mods == "l" || mods == "ll" || mods == "j" || mods == "z" || mods == "t"
  }

  /** The flags that a length modifier leaves. */
  predicate HasModifier(flags: Flags, mods: string)
  {
    && flags.isChar == (mods == "hh") && flags.isShort == (mods == "h" || mods == "hh")
    && flags.isLongLong == (mods == "ll") && flags.isLong == (mods == "l" || mods == "ll" || mods == "j" || mods == "z" || mods == "t")
  }

  /** The signed number in the low bits. */
  function TwosComplement(w: Word, limit: nat): (v: int)
    requires limit > 0
  {
    if w % limit < limit / 2 then w % limit else w % limit - limit
  }

  lemma OperandIs(c: char, mods: string, flags: Flags, w: Word)
    requires IsModifier(mods) && HasModifier(flags, mods)
    ensures LimitOf(mods) > 0
    ensures (c == 'd' || c == 'i') ==> IntegerValue(c, flags, w) == TwosComplement(w, LimitOf(mods))
    ensures !(c == 'd' || c == 'i') ==> IntegerValue(c, flags, w) == w % LimitOf(mods)
  {
  }

  predicate Operand(s: Parsed, args: seq<Arg>, w: Word)
  {
    s.Parsed? && s.arg < |args| && args[s.arg] == Num(w)
  }

  // ---------------------------------------------------------------- integers read back

  /** What a reader of an integer conversion gets: for 'x' and 'X' in base 16, for 'o' in base 8 and for
      'u' in base 10 the low bits of the argument that the modifier selects; for 'd' and 'i' in base 10
      the signed number in them; and for 'b' in base 2 the low bits if and only if they are below
      2^32. */
  lemma IntegerMeans(c: char, mods: string, s: Parsed, args: seq<Arg>, w: Word)
    requires Operand(s, args, w) && IsModifier(mods) && HasModifier(s.flags, mods) && s.width <= 32 && s.prec < 32
    requires c == 'd' || c == 'i' || c == 'u' || ((c == 'x' || c == 'X' || c == 'o' || c == 'b') && !s.flags.hash)
    ensures Convert(c, s, args).Piece? && Convert(c, s, args).arg == s.arg + 1
    ensures var t := Convert(c, s, args).text;
            && (c == 'x' || c == 'X' ==> ReadField(t, 16) == w % LimitOf(mods))
            && (c == 'o' ==> ReadField(t, 8) == w % LimitOf(mods))
            && (c == 'u' ==> ReadField(t, 10) == w % LimitOf(mods))
            && (c == 'd' || c == 'i' ==> LimitOf(mods) > 0 && ReadField(t, 10) == TwosComplement(w, LimitOf(mods)))
            && (c == 'b' ==> (ReadField(t, 2) == w % LimitOf(mods) <==> w % LimitOf(mods) < 0x1_0000_0000))
  {
    hide ReadField, NumberText, IntegerText, IntegerValue, TwosComplement, LimitOf;
    OperandIs(c, mods, s.flags, w);
    IntegerReadsBack(c, s, w);
  }

  // ---------------------------------------------------------------- integers, part by part

  /** The number that an integer conversion prints, and its base. */
  predicate Prints(c: char, base: nat, mods: string, w: Word, v: int)
  {
    && LimitOf(mods) > 0
    && (c == 'd' || c == 'i' ==> base == 10 && v == TwosComplement(w, LimitOf(mods)))
    && (c == 'u' ==> base == 10 && v == w % LimitOf(mods))
    && (c == 'x' || c == 'X' ==> base == 16 && v == w % LimitOf(mods))
    && (c == 'o' ==> base == 8 && v == w % LimitOf(mods))
    && (c == 'b' ==> base == 2 && v == w % LimitOf(mods))
    && (c == 'd' || c == 'i' || c == 'u' || c == 'x' || c == 'X' || c == 'o' || c == 'b')
  }

  /** The digits of m, highest first; none for 0 when there is a precision, and at most 32. */
  predicate DigitsOf(digits: string, m: nat, base: nat, uppercase: bool, hasPrecision: bool)
    requires base > 0
  {
    var n := |digits|;
    && n <= 32 && (n == 0 <==> hasPrecision && m == 0)
    && (n > 1 ==> Pow(base, n - 1) <= m) && (0 < n < 32 ==> m < Pow(base, n))
    && forall k: nat :: k < n ==> DigitOf(m, base, k) < 16 && digits[n - 1 - k] == Symbol(DigitOf(m, base, k), uppercase)
  }

  lemma CollectedDigits(m: nat, base: nat, flags: Flags)
    requires 2 <= base <= 16
    ensures DigitsOf(Reverse(NumberDigits(m, base, flags)), m, base, flags.uppercase, flags.hasPrecision)
  {
    hide Pow, DigitOf, Digits, Symbol;
    var d := NumberDigits(m, base, flags);
    if !(flags.hasPrecision && m == 0) {
      DigitCount(m, base, flags.uppercase, BUFFER);
      forall k: nat | k < |d| ensures d[k] == Symbol(DigitOf(m, base, k), flags.uppercase) {
        DigitAt(m, base, flags.uppercase, BUFFER, k);
      }
    }
  }

  /** How the other parts follow from the number of digits and from the format: zeros up to the precision,
      or up to the width with '0'; the sign, if the 32 places of the work buffer leave room for it; and
      spaces up to the width, on the right with '-'. */
  ghost predicate SharedOut(p: Parts, c: char, s: Parsed, v: int)
    requires s.Parsed?
  {
    var f, nd := s.flags, |p.digits|;
    var signed := v < 0 || ((c == 'd' || c == 'i') && (f.plus || f.space));
    && p.zeros == (if f.left then 0
                   else if f.hasPrecision then Least(Min(s.prec, 32) - nd)
                   else if f.zeropad then Least(Min(if signed && s.width > 0 then s.width - 1 else s.width, 32) - nd)
                   else 0)
    && p.sign == (if nd + p.zeros >= 32 then ""
                  else if v < 0 then "-"
                  else if (c == 'd' || c == 'i') && f.plus then "+"
                  else if (c == 'd' || c == 'i') && f.space then " "
                  else "")
    && p.before == (if f.left || (f.zeropad && !f.hasPrecision) then 0 else Least(s.width - (|p.sign| + p.zeros + nd)))
    && p.after == (if f.left then Least(s.width - (|p.sign| + p.zeros + nd)) else 0)
  }

  lemma FlagsFor(c: char, s: Parsed, v: int, digits: string)
    requires s.Parsed? && (s.flags.hasPrecision || s.prec == 0) && |digits| <= 32
    requires c == 'd' || c == 'i' || c == 'u' || c == 'x' || c == 'X' || c == 'o' || c == 'b'
    ensures var p := PartsOf(digits, v < 0, s.prec, s.width, IntegerFlags(c, s.flags)); p.digits == digits && SharedOut(p, c, s, v)
  {
    hide PartsOf, SharedOut, IntegerFlags;
    FlagsAre(c, s);
    SharedFor(c, s, v, digits, IntegerFlags(c, s.flags));
  }

  lemma SharedFor(c: char, s: Parsed, v: int, digits: string, f: Flags)
    requires s.Parsed? && (s.flags.hasPrecision || s.prec == 0) && |digits| <= 32
    requires f.hasPrecision == s.flags.hasPrecision && f.left == s.flags.left && f.zeropad == (s.flags.zeropad && !s.flags.hasPrecision)
    requires f.plus == (s.flags.plus && (c == 'd' || c == 'i')) && f.space == (s.flags.space && (c == 'd' || c == 'i'))
    ensures var p := PartsOf(digits, v < 0, s.prec, s.width, f); p.digits == digits && SharedOut(p, c, s, v)
  {
    hide Zeros;
    ZerosShared(|digits|, v < 0 || f.plus || f.space, s, f);
  }

  lemma ZerosShared(nd: nat, signed: bool, s: Parsed, f: Flags)
    requires s.Parsed? && (s.flags.hasPrecision || s.prec == 0) && nd <= 32
    requires f.left == s.flags.left && f.zeropad == (s.flags.zeropad && !s.flags.hasPrecision)
    ensures Zeros(nd, signed, s.prec, s.width, f)
         == (if s.flags.left then 0
             else if s.flags.hasPrecision then Least(Min(s.prec, 32) - nd)
             else if s.flags.zeropad then Least(Min(if signed && s.width > 0 then s.width - 1 else s.width, 32) - nd)
             else 0)
  {
  }

  /** Every integer conversion without an effective '#' prints spaces, sign, zeros, digits and spaces:
      the digits are those of the operand in the base of the letter, capital for 'X' alone; and the
      other parts are what width, precision and flags ask for, as far as the 32 characters of the work
      buffer go. */
  lemma IntegerLayout(c: char, base: nat, mods: string, s: Parsed, args: seq<Arg>, w: Word, v: int) returns (p: Parts)
    requires Operand(s, args, w) && IsModifier(mods) && HasModifier(s.flags, mods) && Prints(c, base, mods, w, v)
    requires s.flags.hasPrecision || s.prec == 0
    requires !s.flags.hash || v == 0 || c == 'd' || c == 'i' || c == 'u'
    ensures Convert(c, s, args) == Piece(Joined(p), s.arg + 1)
    ensures DigitsOf(p.digits, if v < 0 then -v else v, base, c == 'X' || s.flags.uppercase, s.flags.hasPrecision)
    ensures SharedOut(p, c, s, v)
  {
    hide SharedOut, NumberText, Joined, PartsOf, DigitsOf, NumberDigits, IntegerFlags, Reverse, HasModifier, IsModifier, Prints, Convert, Zeros;
    IntegerIs(c, base, mods, s, args, w, v);
    var m: nat := if v < 0 then -v else v;
    var f := IntegerFlags(c, s.flags);
    FlagsAre(c, s);
    var digits := Reverse(NumberDigits(m, base, f));
    p := PartsOf(digits, v < 0, s.prec, s.width, f);
    NumberLayout(m, v < 0, base, s.prec, s.width, f);
    CollectedDigits(m, base, f);
    FlagsFor(c, s, v, digits);
  }

  /** An integer conversion is the text of its number. */
  lemma IntegerIs(c: char, base: nat, mods: string, s: Parsed, args: seq<Arg>, w: Word, v: int)
    requires Operand(s, args, w) && IsModifier(mods) && HasModifier(s.flags, mods) && Prints(c, base, mods, w, v)
    ensures c == 'd' || c == 'i' || c == 'u' || c == 'x' || c == 'X' || c == 'o' || c == 'b'
    ensures base == BaseFor(c) && (base == 2 || base == 8 || base == 10 || base == 16)
    ensures Convert(c, s, args)
         == Piece(NumberText(if v < 0 then -v else v, v < 0, base, s.prec, s.width, IntegerFlags(c, s.flags)), s.arg + 1)
  {
    hide TwosComplement, LimitOf, IntegerValue, NumberText, IntegerFlags, HasModifier, IsModifier;
    OperandIs(c, mods, s.flags, w);
  }

  lemma FlagsAre(c: char, s: Parsed)
    requires s.Parsed? && (c == 'd' || c == 'i' || c == 'u' || c == 'x' || c == 'X' || c == 'o' || c == 'b')
    ensures var f := IntegerFlags(c, s.flags);
            && f.uppercase == (c == 'X' || s.flags.uppercase) && f.hasPrecision == s.flags.hasPrecision && f.left == s.flags.left
            && f.zeropad == (s.flags.zeropad && !s.flags.hasPrecision)
            && f.hash == (s.flags.hash && !(c == 'd' || c == 'i' || c == 'u'))
            && f.plus == (s.flags.plus && (c == 'd' || c == 'i')) && f.space == (s.flags.space && (c == 'd' || c == 'i'))
  {
  }

  // ---------------------------------------------------------------- the prefix

  /** What '#' does to the collected digits: `cut` of the highest make way, then the prefix follows. */
  lemma PrefixIs(s: string, base: nat, prec: nat, width: nat, flags: Flags, cut: nat)
    requires |s| <= 29 && flags.hash && (base == 16 || base == 8 || base == 2)
    requires cut == if !flags.hasPrecision && s != "" && (|s| == prec || |s| == width) then (if |s| > 1 && base == 16 then 2 else 1) else 0
    ensures cut <= |s|
    ensures Reverse(Hashed(s, base, prec, width, flags))
         == (if base == 16 then (if flags.uppercase then "0X" else "0x") else if base == 2 then "0b" else "0") + Reverse(s[..|s| - cut])
  {
    hide Reverse;
    var t := s[..|s| - cut];
    Single('x'); Single('X'); Single('b'); Single('0');
    var mark := if base == 16 then (if flags.uppercase then "X" else "x") else if base == 2 then "b" else "";
    assert Hashed(s, base, prec, width, flags) == t + mark + "0";
    ReverseAppend(t + mark, "0");
    ReverseAppend(t, mark);
    NoMark();
    assert "0" + (mark + Reverse(t)) == ("0" + mark) + Reverse(t);
    assert "0" + "x" == "0x" && "0" + "X" == "0X" && "0" + "b" == "0b" && "0" + "" == "0";
  }

  lemma Single(c: char)
    ensures Reverse([c]) == [c]
  {
  }

  lemma NoMark()
    ensures Reverse("") == ""
  {
  }

  /** The prefix of a letter. */
  function PrefixOf(c: char, uppercase: bool): (t: string)
  {
    if c == 'X' || (c == 'x' && uppercase) then "0X" else if c == 'x' then "0x" else if c == 'b' then "0b" else "0"
  }

  /** What '#' replaces when zeros and digits already have the width asked for, and there is no precision:
      up to two of their first characters, be they zeros or digits. */
  function CutOf(c: char, s: Parsed, n: nat): (cut: nat)
    requires s.Parsed?
  {
    if !s.flags.hasPrecision && n == s.width then (if s.width > 1 && (c == 'x' || c == 'X') then 2 else if n > 0 then 1 else 0) else 0
  }

  /** With '#', when digits and zeros leave three places of the work buffer, 'x', 'X', 'b' and 'o' print
      spaces, the prefix, what is left of zeros and digits, and spaces. */
  lemma PrefixLayout(c: char, base: nat, mods: string, s: Parsed, args: seq<Arg>, w: Word, v: nat, digits: string, zeros: nat)
    requires Operand(s, args, w) && IsModifier(mods) && HasModifier(s.flags, mods) && Prints(c, base, mods, w, v)
    requires (c == 'x' || c == 'X' || c == 'o' || c == 'b') && s.flags.hash && v > 0 && (s.flags.hasPrecision || s.prec == 0)
    requires digits == Reverse(NumberDigits(v, base, IntegerFlags(c, s.flags)))
    requires zeros == (if s.flags.left then 0
                       else if s.flags.hasPrecision then Least(Min(s.prec, 32) - |digits|)
                       else if s.flags.zeropad then Least(Min(s.width, 32) - |digits|)
                       else 0)
    requires zeros + |digits| <= 29
    ensures DigitsOf(digits, v, base, c == 'X' || s.flags.uppercase, s.flags.hasPrecision)
    ensures CutOf(c, s, zeros + |digits|) <= zeros + |digits|
    ensures var t := PrefixOf(c, s.flags.uppercase) + (Copies('0', zeros) + digits)[CutOf(c, s, zeros + |digits|)..];
            var pad := Least(s.width - |t|);
            Convert(c, s, args) == Piece(if s.flags.left then t + Copies(' ', pad)
                                         else if s.flags.zeropad && !s.flags.hasPrecision then t
                                         else Copies(' ', pad) + t, s.arg + 1)
  {
    hide NumberText, DigitsOf, NumberDigits, Hashed, Padded, Zeros, IntegerFlags, Reverse, Copies, HasModifier, IsModifier, Convert, Field,
      Prints, PrefixOf, CutOf;
    IntegerIs(c, base, mods, s, args, w, v);
    var f := IntegerFlags(c, s.flags);
    FlagsAre(c, s);
    CollectedDigits(v, base, f);
    var low := NumberDigits(v, base, f);
    ZerosFor(c, s, |low|);
    PaddedIs(low, false, s.prec, s.width, f);
    var padded := low + Copies('0', zeros);
    var cut, prefix := CutOf(c, s, |padded|), PrefixOf(c, s.flags.uppercase);
    LowIsNotEmpty(v, base, f);
    PrefixFor(c, base, s, padded, f, cut, prefix);
    CutIs(low, zeros, cut);
    HashedText(c, base, s, v, low, padded, Hashed(padded, base, s.prec, s.width, f));
    PlainField(Hashed(padded, base, s.prec, s.width, f), s.width, f, prefix + (Copies('0', zeros) + digits)[cut..]);
  }

  lemma PrefixFor(c: char, base: nat, s: Parsed, padded: string, f: Flags, cut: nat, prefix: string)
    requires s.Parsed? && (c == 'x' || c == 'X' || c == 'o' || c == 'b') && base == BaseFor(c) && (s.flags.hasPrecision || s.prec == 0)
    requires 0 < |padded| <= 29 && f.hash && f.hasPrecision == s.flags.hasPrecision && f.uppercase == (c == 'X' || s.flags.uppercase)
    requires cut == CutOf(c, s, |padded|) && prefix == PrefixOf(c, s.flags.uppercase)
    ensures cut <= |padded|
    ensures Reverse(Hashed(padded, base, s.prec, s.width, f)) == prefix + Reverse(padded[..|padded| - cut])
  {
    hide Hashed, Reverse;
    PrefixIs(padded, base, s.prec, s.width, f, cut);
  }

  lemma ZerosFor(c: char, s: Parsed, nd: nat)
    requires s.Parsed? && (s.flags.hasPrecision || s.prec == 0) && (c == 'x' || c == 'X' || c == 'o' || c == 'b') && nd <= 32
    ensures Zeros(nd, false, s.prec, s.width, IntegerFlags(c, s.flags))
         == (if s.flags.left then 0
             else if s.flags.hasPrecision then Least(Min(s.prec, 32) - nd)
             else if s.flags.zeropad then Least(Min(s.width, 32) - nd)
             else 0)
  {
    hide Zeros, IntegerFlags;
    FlagsAre(c, s);
    ZerosShared(nd, false, s, IntegerFlags(c, s.flags));
  }

  lemma LowIsNotEmpty(v: nat, base: nat, flags: Flags)
    requires v > 0 && 2 <= base <= 16
    ensures NumberDigits(v, base, flags) != ""
  {
    hide Digits;
  }

  lemma CutIs(low: string, z: nat, cut: nat)
    requires cut <= |low| + z
    ensures var padded := low + Copies('0', z);
            Reverse(padded[..|padded| - cut]) == (Copies('0', z) + Reverse(low))[cut..]
  {
  }

  /** The field of a hexadecimal, octal or binary conversion: no sign, whatever the flags. */
  lemma HashedText(c: char, base: nat, s: Parsed, v: nat, low: string, padded: string, buf: string)
    requires s.Parsed? && (c == 'x' || c == 'X' || c == 'o' || c == 'b') && base == BaseFor(c) && v > 0
    requires var f := IntegerFlags(c, s.flags);
             && low == NumberDigits(v, base, f) && padded == Padded(low, false, s.prec, s.width, f)
             && buf == Hashed(padded, base, s.prec, s.width, f)
    ensures NumberText(v, false, base, s.prec, s.width, IntegerFlags(c, s.flags)) == Field(buf, s.width, IntegerFlags(c, s.flags))
  {
    hide Digits, NumberDigits, Padded, Hashed, Field;
  }

  lemma PlainField(buf: string, width: nat, flags: Flags, t: string)
    requires Reverse(buf) == t
    ensures var pad := Least(width - |t|);
            Field(buf, width, flags) == if flags.left then t + Copies(' ', pad) else if flags.zeropad then t else Copies(' ', pad) + t
  {
    assert |buf| == |t|;
    CopiesLeast(' ', width - |buf|);
    assert "" + t == t && t + "" == t;
  }

  lemma SymbolValue(d: nat, uppercase: bool)
    requires d < 16
    ensures DigitValue(Symbol(d, uppercase)) == d
  {
  }

  lemma {:induction false} ValueBelow(s: string, base: nat)
    requires AllDigits(s) && forall k :: 0 <= k < |s| ==> DigitValue(s[k]) < base
    ensures ValueOf(s, base) < Pow(base, |s|)
  {
    hide Pow, ValueOf, DigitValue, AllDigits;
    if s == "" {
      ValueEmpty(base);
      PowZero(base);
    } else {
      var t := s[..|s| - 1];
      ValueLast(s, base);
      ValueBelow(t, base);
      PowStep(base, |s|);
      DigitBelow(ValueOf(t, base), DigitValue(s[|s| - 1]), base, Pow(base, |t|));
    }
  }

  lemma DigitBelow(v: nat, d: int, base: nat, p: nat)
    requires v < p && d < base
    ensures v * base + d < base * p
  {
    MulMono(v + 1, p, base);
    Successor(v, base);
  }

  lemma ValueEmpty(base: nat)
    ensures AllDigits("") && ValueOf("", base) == 0
  {
  }

  lemma ValueLast(s: string, base: nat)
    requires AllDigits(s) && s != ""
    ensures AllDigits(s[..|s| - 1]) && ValueOf(s, base) == ValueOf(s[..|s| - 1], base) * base + DigitValue(s[|s| - 1])
  {
  }

  lemma DigitsRead(digits: string, v: nat, base: nat, flags: Flags)
    requires 2 <= base <= 16 && digits == Reverse(NumberDigits(v, base, flags)) && |digits| < 32
    ensures AllDigits(digits) && (forall k :: 0 <= k < |digits| ==> DigitValue(digits[k]) < base) && ValueOf(digits, base) == v
  {
    hide Pow, Digits, DigitOf, Symbol, NumberDigits, Reverse, ValueOf, DigitValue;
    CollectedDigits(v, base, flags);
    var n := |digits|;
    forall k | 0 <= k < n ensures 0 <= DigitValue(digits[k]) < base {
      assert digits[n - 1 - (n - 1 - k)] == Symbol(DigitOf(v, base, n - 1 - k), flags.uppercase);
      SymbolValue(DigitOf(v, base, n - 1 - k), flags.uppercase);
    }
    NumberValue(v, base, flags);
  }

  lemma NumberValue(v: nat, base: nat, flags: Flags)
    requires 2 <= base <= 16 && |NumberDigits(v, base, flags)| < 32
    ensures AllDigits(Reverse(NumberDigits(v, base, flags))) && ValueOf(Reverse(NumberDigits(v, base, flags)), base) == v
  {
    if flags.hasPrecision && v == 0 {
      assert Reverse("") == "";
    } else {
      DigitsValue(v, base, flags.uppercase, 32);
      DigitCount(v, base, flags.uppercase, 32);
      hide Digits, ValueOf, Reverse, AllDigits;
      PowLess(base, |NumberDigits(v, base, flags)|, 32);
      SmallMod(v, Pow(base, 32));
    }
  }

  lemma PowLess(base: nat, m: nat, n: nat)
    requires base > 0 && m <= n
    ensures Pow(base, m) <= Pow(base, n)
  {
    hide Pow;
    PowSum(base, m, n - m);
    PowPositive(base, n - m);
    MulMono(1, Pow(base, n - m), Pow(base, m));
  }

  /** The number is still there behind the prefix if and only if the prefix replaced zeros only. */
  lemma PrefixKeepsIff(v: nat, base: nat, flags: Flags, digits: string, zeros: nat, cut: nat)
    requires 2 <= base <= 16 && v > 0 && digits == Reverse(NumberDigits(v, base, flags)) && |digits| < 32 && cut <= zeros + |digits|
    ensures var body := (Copies('0', zeros) + digits)[cut..];
            AllDigits(body) && (ValueOf(body, base) == v <==> cut <= zeros)
  {
    hide Pow, NumberDigits, Reverse, ValueOf, DigitValue, DigitsOf;
    DigitsRead(digits, v, base, flags);
    CollectedDigits(v, base, flags);
    var body := (Copies('0', zeros) + digits)[cut..];
    if cut <= zeros {
      assert body == Copies('0', zeros - cut) + digits;
      LeadingZeros(zeros - cut, digits, base);
    } else {
      var k := cut - zeros;
      assert body == digits[k..];
      assert forall i :: 0 <= i < |body| ==> body[i] == digits[k + i];
      ValueBelow(body, base);
      Shorter(digits, v, base, flags, |body|);
    }
  }

  lemma Shorter(digits: string, v: nat, base: nat, flags: Flags, n: nat)
    requires 2 <= base <= 16 && v > 0 && DigitsOf(digits, v, base, flags.uppercase, flags.hasPrecision) && n < |digits|
    ensures Pow(base, n) <= v
  {
    hide Pow;
    if |digits| > 1 {
      PowLess(base, n, |digits| - 1);
    } else {
      PowZero(base);
    }
  }

  // ---------------------------------------------------------------- characters, strings, pointers

  /** %c: one character, the low byte of the argument, behind the padding, or before it with '-'. */
  lemma CharLayout(s: Parsed, args: seq<Arg>, w: Word)
    requires Operand(s, args, w)
    ensures Convert('c', s, args).Piece? && Convert('c', s, args).arg == s.arg + 1
    ensures var t := Convert('c', s, args).text;
            && |t| == (if s.width > 1 then s.width else 1)
            && t[if s.flags.left then 0 else |t| - 1] == (w % 0x100) as char
            && forall k :: 0 <= k < |t| && k != (if s.flags.left then 0 else |t| - 1) ==> t[k] == ' '
  {
  }

  /** %s: the string, cut to the precision if there is one, behind the padding, or before it with '-'. */
  lemma StringLayout(s: Parsed, args: seq<Arg>, str: string)
    requires s.Parsed? && s.arg < |args| && args[s.arg] == Str(str)
    ensures Convert('s', s, args).Piece? && Convert('s', s, args).arg == s.arg + 1
    ensures var t := Convert('s', s, args).text;
            var n := if s.flags.hasPrecision && s.prec < |str| then s.prec else |str|;
            var pad := if s.width > n then s.width - n else 0;
            && |t| == n + pad
            && (s.flags.left ==> (forall k :: 0 <= k < n ==> t[k] == str[k]) && (forall k :: n <= k < n + pad ==> t[k] == ' '))
            && (!s.flags.left ==> (forall k :: 0 <= k < pad ==> t[k] == ' ') && (forall k :: pad <= k < n + pad ==> t[k] == str[k - pad]))
  {
  }

  /** %p: the argument in capital hexadecimal, as a number of width 16 with zeros. */
  lemma PointerLayout(s: Parsed, args: seq<Arg>, w: Word) returns (p: Parts)
    requires Operand(s, args, w) && (!s.flags.hash || w == 0)
    ensures Convert('p', s, args) == Piece(Joined(p), s.arg + 1)
    ensures DigitsOf(p.digits, w, 16, true, s.flags.hasPrecision)
    ensures p.before == 0 && p.after == (if s.flags.left then Least(16 - (|p.sign| + p.zeros + |p.digits|)) else 0)
    ensures p.zeros == if s.flags.left then 0
                       else Least(Max(Min(s.prec, 32), if s.flags.plus || s.flags.space then 15 else 16) - |p.digits|)
    ensures p.sign == if |p.digits| + p.zeros >= 32 then "" else if s.flags.plus then "+" else if s.flags.space then " " else ""
  {
    hide NumberText, Joined, DigitsOf, NumberDigits, Pow;
    var f := s.flags.(zeropad := true, uppercase := true);
    NumberLayout(w, false, 16, s.prec, 16, f);
    CollectedDigits(w, 16, f);
    p := PartsOf(Reverse(NumberDigits(w, 16, f)), false, s.prec, 16, f);
    SixteenDigits(p.digits, w, s.flags.hasPrecision);
  }

  lemma SixteenDigits(digits: string, w: Word, hasPrecision: bool)
    requires DigitsOf(digits, w, 16, true, hasPrecision)
    ensures |digits| <= 16
  {
    hide Pow, DigitOf, Symbol;
    if |digits| > 16 {
      var e := |digits| - 17;
      PowSum(16, 16, e);
      PowPositive(16, e);
      MulMono(1, Pow(16, e), Pow(16, 16));
      SixteenToSixteen();
    }
  }

  lemma SixteenToSixteen()
    ensures Pow(16, 16) == 0x1_0000_0000_0000_0000
  {
    PowSum(16, 8, 8);
    PowSum(16, 4, 4);
    assert Pow(16, 4) == 0x1_0000;
  }

  /** Every other letter, '%' among them, prints itself and takes no argument. */
  lemma OtherLetter(c: char, s: Parsed, args: seq<Arg>)
    requires s.Parsed?
    requires c !in ['d', 'i', 'u', 'x', 'X', 'o', 'b', 'c', 's', 'p']
    ensures Convert(c, s, args) == Piece([c], s.arg)
  {
  }
}
