/** What a format and its arguments print, without any limit on the length. */
module PrintfRender {
  import opened Words
  import opened PrintfText

  /** One variadic argument: a 64-bit register or stack slot, or a string. */
  datatype Arg = Num(w: Word) | Str(s: string)

  const UINT_LIMIT: nat := 0x1_0000_0000

  const NO_FLAGS: Flags := Flags(false, false, false, false, false, false, false, false, false, false, false)

  predicate IsDigit(c: char) { '0' <= c <= '9' }

  /** _atoi from position p on, in unsigned int arithmetic. */
  function Atoi(f: string, p: nat, acc: nat): (r: (nat, nat))
    requires p <= |f|
    ensures p <= r.1 <= |f|
    decreases |f| - p
  {
    if p < |f| && IsDigit(f[p]) then Atoi(f, p + 1, (acc * 10 + (f[p] as int - '0' as int)) % UINT_LIMIT) else (acc, p)
  }

  predicate IsFlag(c: char) { c == '0' || c == '-' || c == '+' || c == ' ' || c == '#' }

  function AddFlag(flags: Flags, c: char): (r: Flags)
  {
    if c == '0' then flags.(zeropad := true)
    else if c == '-' then flags.(left := true)
    else if c == '+' then flags.(plus := true)
    else if c == ' ' then flags.(space := true)
    else flags.(hash := true)
  }

  function ParseFlags(f: string, p: nat, flags: Flags): (r: (Flags, nat))
    requires p <= |f|
    ensures p <= r.1 <= |f|
    decreases |f| - p
  {
    if p < |f| && IsFlag(f[p]) then ParseFlags(f, p + 1, AddFlag(flags, f[p])) else (flags, p)
  }

  /** The low bits of w as a signed number of that size. */
  function SignedOf(w: nat, limit: nat): (n: int)
    requires limit > 0
  {
    var v := w % limit;
    if v >= limit / 2 then v - limit else v
  }

  /** The state of the parser inside a specifier. Undefined: the argument is missing or of another kind. */
  datatype Parsed = Parsed(flags: Flags, width: nat, prec: nat, pos: nat, arg: nat) | Undefined

  /** The width field. */
  function ParseWidth(f: string, p: nat, flags: Flags, args: seq<Arg>, a: nat): (r: Parsed)
    requires p <= |f|
    ensures r.Parsed? ==> p <= r.pos <= |f|
  {
    if p < |f| && IsDigit(f[p]) then var (w, q) := Atoi(f, p, 0); Parsed(flags, w, 0, q, a)
    else if p < |f| && f[p] == '*' then
      if a < |args| && args[a].Num? then
        var w := SignedOf(args[a].w, UINT_LIMIT);
        Parsed(if w < 0 then flags.(left := true) else flags, if w < 0 then -w else w, 0, p + 1, a + 1)
      else Undefined
    else Parsed(flags, 0, 0, p, a)
  }

  /** The precision field. */
  function ParsePrecision(f: string, s: Parsed, args: seq<Arg>): (r: Parsed)
    requires s.Parsed? && s.pos <= |f|
    ensures r.Parsed? ==> s.pos <= r.pos <= |f|
  {
    var p, flags := s.pos + 1, s.flags.(hasPrecision := true);
    if !(s.pos < |f| && f[s.pos] == '.') then s
    else if p < |f| && IsDigit(f[p]) then var (n, q) := Atoi(f, p, 0); s.(flags := flags, prec := n, pos := q)
    else if p < |f| && f[p] == '*' then
      if s.arg < |args| && args[s.arg].Num? then
        var n := SignedOf(args[s.arg].w, UINT_LIMIT);
        s.(flags := flags, prec := if n > 0 then n else 0, pos := p + 1, arg := s.arg + 1)
      else Undefined
    else s.(flags := flags, pos := p)
  }

  /** The length field. */
  function ParseLength(f: string, s: Parsed): (r: Parsed)
    requires s.Parsed? && s.pos <= |f|
    ensures r.Parsed? && s.pos <= r.pos <= |f|
  {
    var p := s.pos;
    if p == |f| then s
    else if f[p] == 'l' then
      if p + 1 < |f| && f[p + 1] == 'l' then s.(flags := s.flags.(isLong := true, isLongLong := true), pos := p + 2)
      else s.(flags := s.flags.(isLong := true), pos := p + 1)
    else if f[p] == 'h' then
      if p + 1 < |f| && f[p + 1] == 'h' then s.(flags := s.flags.(isShort := true, isChar := true), pos := p + 2)
      else s.(flags := s.flags.(isShort := true), pos := p + 1)
    else if f[p] == 't' || f[p] == 'j' || f[p] == 'z' then s.(flags := s.flags.(isLong := true), pos := p + 1)
    else s
  }

  /** Everything between '%' and the conversion character. */
  function ParseSpec(f: string, p: nat, args: seq<Arg>, a: nat): (r: Parsed)
    requires p <= |f|
    ensures r.Parsed? ==> p <= r.pos <= |f|
  {
    var (flags, q) := ParseFlags(f, p, NO_FLAGS);
    var s := ParseWidth(f, q, flags, args, a);
    if s.Undefined? then Undefined
    else
      var t := ParsePrecision(f, s, args);
      if t.Undefined? then Undefined else ParseLength(f, t)
  }

  predicate IsInteger(c: char)
  {
    c == 'd' || c == 'i' || c == 'u' || c == 'x' || c == 'X' || c == 'o' || c == 'b'
  }

  predicate IsSigned(c: char) { c == 'd' || c == 'i' }

  function BaseFor(c: char): (b: nat)
    ensures 2 <= b <= 16
  {
    if c == 'x' || c == 'X' then 16 else if c == 'o' then 8 else if c == 'b' then 2 else 10
  }

  /** The flags that an integer conversion goes by. */
  function IntegerFlags(c: char, flags: Flags): (r: Flags)
  {
    var f := if BaseFor(c) == 10 then flags.(hash := false) else flags;
    var g := if c == 'X' then f.(uppercase := true) else f;
    var h := if !IsSigned(c) then g.(plus := false, space := false) else g;
    if h.hasPrecision then h.(zeropad := false) else h
  }

  /** The argument as the conversion reads it. */
  function IntegerValue(c: char, flags: Flags, w: Word): (n: int)
  {
    var limit := if flags.isLongLong || flags.isLong then WORD_LIMIT
                 else if flags.isChar then 0x100 else if flags.isShort then 0x1_0000 else UINT_LIMIT;
    if IsSigned(c) then SignedOf(w, limit) else w % limit
  }

  function IntegerText(c: char, s: Parsed, w: Word): (r: string)
    requires s.Parsed?
  {
    var v := IntegerValue(c, s.flags, w);
    NumberText(if v < 0 then -v else v, v < 0, BaseFor(c), s.prec, s.width, IntegerFlags(c, s.flags))
  }

  /** Padding with spaces to the width, on the side that the flags say. */
  function Spaced(text: string, width: nat, left: bool): (r: string)
  {
    if left then text + Copies(' ', width - |text|) else Copies(' ', width - |text|) + text
  }

  function StringPart(str: string, s: Parsed): (r: string)
    requires s.Parsed?
  {
    if s.flags.hasPrecision && s.prec < |str| then str[..s.prec] else str
  }

  function PointerText(s: Parsed, w: Word): (r: string)
    requires s.Parsed?
  {
    NumberText(w, false, 16, s.prec, 16, s.flags.(zeropad := true, uppercase := true))
  }

  /** What one conversion prints, and the next argument. */
  datatype Piece = Piece(text: string, arg: nat) | NoPiece

  function Convert(c: char, s: Parsed, args: seq<Arg>): (r: Piece)
    requires s.Parsed?
  {
    if IsInteger(c) then
      if s.arg < |args| && args[s.arg].Num? then Piece(IntegerText(c, s, args[s.arg].w), s.arg + 1) else NoPiece
    else if c == 'c' then
      if s.arg < |args| && args[s.arg].Num? then Piece(Spaced([(args[s.arg].w % 0x100) as char], s.width, s.flags.left), s.arg + 1)
      else NoPiece
    else if c == 's' then
      if s.arg < |args| && args[s.arg].Str? then Piece(Spaced(StringPart(args[s.arg].s, s), s.width, s.flags.left), s.arg + 1)
      else NoPiece
    else if c == 'p' then
      if s.arg < |args| && args[s.arg].Num? then Piece(PointerText(s, args[s.arg].w), s.arg + 1) else NoPiece
    else Piece([c], s.arg)
  }

  datatype Rendered = Text(s: string) | Bad

  function Prefixed(t: string, r: Rendered): (res: Rendered)
  {
    match r
    case Text(s) => Text(t + s)
    case Bad => Bad
  }

  /** The unbounded rendering from position p of the format and argument a on. Bad: the format ends
      inside a specifier, or an argument is missing or of another kind. */
  function Render(f: string, p: nat, args: seq<Arg>, a: nat): (r: Rendered)
    requires p <= |f|
    decreases |f| - p
  {
    if p == |f| then Text("")
    else if f[p] != '%' then Prefixed([f[p]], Render(f, p + 1, args, a))
    else
      var s := ParseSpec(f, p + 1, args, a);
      if s.Undefined? || s.pos == |f| then Bad
      else
        match Convert(f[s.pos], s, args)
        case NoPiece => Bad
        case Piece(text, next) => Prefixed(text, Render(f, s.pos + 1, args, next))
  }

  // ---------------------------------------------------------------- what a reader gets

  /** The digits of every conversion but %b fill at most 22 places of the work buffer. */
  lemma {:induction false} FewDigits(v: nat, base: nat, uppercase: bool, n: nat, room: nat)
    requires 2 <= base <= 16 && 0 < n <= room && v < Pow(base, n)
    ensures |Digits(v, base, uppercase, room)| <= n
    decreases n
  {
    if n == 1 {
      assert Pow(base, 1) == base * Pow(base, 0) == base;
      SmallMod(v, base);
    } else if v / base != 0 {
      QuotientBound(v, base, Pow(base, n - 1));
      FewDigits(v / base, base, uppercase, n - 1, room - 1);
    }
  }

  lemma WordDigits(v: nat, base: nat, uppercase: bool)
    requires v < WORD_LIMIT && 8 <= base <= 16
    ensures |Digits(v, base, uppercase, BUFFER)| <= 22
  {
    PowSum(8, 11, 11);
    EightToEleven();
    PowMono(8, base, 22);
    FewDigits(v, base, uppercase, 22, BUFFER);
  }

  lemma EightToEleven()
    ensures Pow(8, 11) == 0x2_0000_0000
  {
    PowSum(8, 5, 6);
    assert Pow(8, 5) == 0x8000 && Pow(8, 6) == 0x4_0000;
  }

  /** An integer conversion without '#', with a precision and a width of at most 32 characters, reads
      back as its argument: always in base 8, 10 and 16; in base 2 exactly below 2^32. */
  lemma IntegerReadsBack(c: char, s: Parsed, w: Word)
    requires s.Parsed? && IsInteger(c) && !IntegerFlags(c, s.flags).hash && s.width <= BUFFER && s.prec < BUFFER
    ensures ReadField(IntegerText(c, s, w), BaseFor(c)) == IntegerValue(c, s.flags, w)
            <==> (c == 'b' ==> IntegerValue(c, s.flags, w) < UINT_LIMIT)
  {
    hide NumberText, ReadField, Digits, Pow, SignFits, NumberDigits;
    var v := IntegerValue(c, s.flags, w);
    var flags, base := IntegerFlags(c, s.flags), BaseFor(c);
    var m: nat := if v < 0 then -v else v;
    ValueBound(c, s.flags, w);
    hide IntegerValue, IntegerFlags;
    BaseDigits(c, m);
    RoundTripIff(m, v < 0, base, s.prec, s.width, flags);
    if v < 0 { SignHasRoom(m, base, s.prec, s.width, flags); }
  }

  lemma ValueBound(c: char, flags: Flags, w: Word)
    ensures -(WORD_LIMIT as int) < IntegerValue(c, flags, w) < WORD_LIMIT
    ensures IntegerValue(c, flags, w) < 0 ==> IsSigned(c)
  {
  }

  /** A 64-bit value has at most 32 digits in every base but 2. */
  lemma BaseDigits(c: char, m: nat)
    requires IsInteger(c) && m < WORD_LIMIT
    ensures c == 'b' ==> BaseFor(c) == 2 && Pow(2, BUFFER) == UINT_LIMIT
    ensures c != 'b' ==> 8 <= BaseFor(c) && m < Pow(BaseFor(c), BUFFER)
  {
    hide Pow;
    EnoughDigits(BaseFor(c));
  }

  lemma SignHasRoom(m: nat, base: nat, prec: nat, width: nat, flags: Flags)
    requires m < WORD_LIMIT && 8 <= base <= 16 && width <= BUFFER && prec < BUFFER
    ensures SignFits(|NumberDigits(m, base, flags)|, true, prec, width, flags)
  {
    WordDigits(m, base, flags.uppercase);
    hide Digits;
  }
}
