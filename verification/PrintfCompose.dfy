/** Rendering is compositional: a format prints what its parts print, each part going on with the
    arguments that the parts before it left. */
module PrintfCompose {
  import opened Words
  import opened PrintfText
  import opened PrintfRender
  import PrintfMeaning

  // ---------------------------------------------------------------- a longer format behind

  lemma {:induction false} AtoiLocal(f: string, g: string, p: nat, acc: nat)
    requires p <= |f| && Atoi(f, p, acc).1 < |f|
    ensures Atoi(f + g, p, acc) == Atoi(f, p, acc)
    decreases |f| - p
  {
    if p < |f| && IsDigit(f[p]) {
      AtoiLocal(f, g, p + 1, (acc * 10 + (f[p] as int - '0' as int)) % UINT_LIMIT);
    }
  }

  lemma {:induction false} FlagsLocal(f: string, g: string, p: nat, flags: Flags)
    requires p <= |f| && ParseFlags(f, p, flags).1 < |f|
    ensures ParseFlags(f + g, p, flags) == ParseFlags(f, p, flags)
    decreases |f| - p
  {
    if p < |f| && IsFlag(f[p]) { FlagsLocal(f, g, p + 1, AddFlag(flags, f[p])); }
  }

  lemma WidthLocal(f: string, g: string, p: nat, flags: Flags, args: seq<Arg>, more: seq<Arg>, a: nat)
    requires p <= |f| && ParseWidth(f, p, flags, args, a).Parsed? && ParseWidth(f, p, flags, args, a).pos < |f|
    ensures ParseWidth(f + g, p, flags, args + more, a) == ParseWidth(f, p, flags, args, a)
  {
    hide Atoi, SignedOf;
    assert p < |f| && (f + g)[p] == f[p];
    if IsDigit(f[p]) { AtoiLocal(f, g, p, 0); }
  }

  lemma PrecisionLocal(f: string, g: string, s: Parsed, args: seq<Arg>, more: seq<Arg>)
    requires s.Parsed? && s.pos <= |f| && ParsePrecision(f, s, args).Parsed? && ParsePrecision(f, s, args).pos < |f|
    ensures ParsePrecision(f + g, s, args + more) == ParsePrecision(f, s, args)
  {
    hide Atoi, SignedOf;
    var p := s.pos + 1;
    if f[s.pos] == '.' && IsDigit(f[p]) { AtoiLocal(f, g, p, 0); }
  }

  lemma LengthLocal(f: string, g: string, s: Parsed)
    requires s.Parsed? && s.pos <= |f| && ParseLength(f, s).pos < |f|
    ensures ParseLength(f + g, s) == ParseLength(f, s)
  {
  }

  lemma SpecLocal(f: string, g: string, p: nat, args: seq<Arg>, more: seq<Arg>, a: nat)
    requires p <= |f| && ParseSpec(f, p, args, a).Parsed? && ParseSpec(f, p, args, a).pos < |f|
    ensures ParseSpec(f + g, p, args + more, a) == ParseSpec(f, p, args, a)
  {
    hide ParseFlags, ParseWidth, ParsePrecision, ParseLength;
    var (flags, q) := ParseFlags(f, p, NO_FLAGS);
    var s := ParseWidth(f, q, flags, args, a);
    var t := ParsePrecision(f, s, args);
    FlagsLocal(f, g, p, NO_FLAGS);
    WidthLocal(f, g, q, flags, args, more, a);
    PrecisionLocal(f, g, s, args, more);
    LengthLocal(f, g, t);
  }

  lemma ConvertLocal(c: char, s: Parsed, args: seq<Arg>, more: seq<Arg>)
    requires s.Parsed? && Convert(c, s, args).Piece?
    ensures Convert(c, s, args + more) == Convert(c, s, args)
  {
    hide IntegerText, Spaced, StringPart, PointerText;
  }

  /** The argument that is next after the whole format. */
  function ArgsAfter(f: string, p: nat, args: seq<Arg>, a: nat): (n: nat)
    requires p <= |f|
    decreases |f| - p
  {
    if p == |f| then a
    else if f[p] != '%' then ArgsAfter(f, p + 1, args, a)
    else
      var s := ParseSpec(f, p + 1, args, a);
      if s.Undefined? || s.pos == |f| then a
      else
        match Convert(f[s.pos], s, args)
        case NoPiece => a
        case Piece(_, next) => ArgsAfter(f, s.pos + 1, args, next)
  }

  lemma PrefixedTwice(s: string, t: string, r: Rendered)
    ensures Prefixed(s, Prefixed(t, r)) == Prefixed(s + t, r)
  {
    if r.Text? { assert s + (t + r.s) == s + t + r.s; }
  }

  lemma PrefixedNothing(r: Rendered)
    ensures Prefixed("", r) == r
  {
    if r.Text? { assert "" + r.s == r.s; }
  }

  lemma {:induction false} RenderLocal(f: string, g: string, p: nat, args: seq<Arg>, more: seq<Arg>, a: nat)
    requires p <= |f| && Render(f, p, args, a).Text?
    ensures Render(f + g, p, args + more, a)
         == Prefixed(Render(f, p, args, a).s, Render(f + g, |f|, args + more, ArgsAfter(f, p, args, a)))
    decreases |f| - p
  {
    hide ParseSpec, Convert;
    if p == |f| {
      PrefixedNothing(Render(f + g, |f|, args + more, a));
    } else if f[p] != '%' {
      RenderLocal(f, g, p + 1, args, more, a);
      PrefixedTwice([f[p]], Render(f, p + 1, args, a).s, Render(f + g, |f|, args + more, ArgsAfter(f, p + 1, args, a)));
    } else {
      var s := ParseSpec(f, p + 1, args, a);
      SpecLocal(f, g, p + 1, args, more, a);
      ConvertLocal(f[s.pos], s, args, more);
      var piece := Convert(f[s.pos], s, args);
      RenderLocal(f, g, s.pos + 1, args, more, piece.arg);
      PrefixedTwice(piece.text, Render(f, s.pos + 1, args, piece.arg).s,
                    Render(f + g, |f|, args + more, ArgsAfter(f, s.pos + 1, args, piece.arg)));
    }
  }

  // ---------------------------------------------------------------- a longer format in front

  /** The same parser state n characters further on. */
  function Further(s: Parsed, n: nat): (r: Parsed)
  {
    if s.Parsed? then s.(pos := s.pos + n) else s
  }

  lemma {:induction false} AtoiShift(f: string, g: string, q: nat, acc: nat)
    requires q <= |g|
    ensures Atoi(f + g, |f| + q, acc) == (Atoi(g, q, acc).0, |f| + Atoi(g, q, acc).1)
    decreases |g| - q
  {
    if q < |g| && IsDigit(g[q]) {
      AtoiShift(f, g, q + 1, (acc * 10 + (g[q] as int - '0' as int)) % UINT_LIMIT);
    }
  }

  lemma {:induction false} FlagsShift(f: string, g: string, q: nat, flags: Flags)
    requires q <= |g|
    ensures ParseFlags(f + g, |f| + q, flags) == (ParseFlags(g, q, flags).0, |f| + ParseFlags(g, q, flags).1)
    decreases |g| - q
  {
    if q < |g| && IsFlag(g[q]) { FlagsShift(f, g, q + 1, AddFlag(flags, g[q])); }
  }

  lemma WidthShift(f: string, g: string, q: nat, flags: Flags, args: seq<Arg>, a: nat)
    requires q <= |g|
    ensures ParseWidth(f + g, |f| + q, flags, args, a) == Further(ParseWidth(g, q, flags, args, a), |f|)
  {
    hide Atoi, SignedOf;
    if q < |g| { assert (f + g)[|f| + q] == g[q]; }
    AtoiShift(f, g, q, 0);
  }

  lemma PrecisionShift(f: string, g: string, s: Parsed, args: seq<Arg>)
    requires s.Parsed? && s.pos <= |g|
    ensures ParsePrecision(f + g, Further(s, |f|), args) == Further(ParsePrecision(g, s, args), |f|)
  {
    hide Atoi, SignedOf;
    if s.pos < |g| {
      assert (f + g)[|f| + s.pos] == g[s.pos];
      AtoiShift(f, g, s.pos + 1, 0);
      if s.pos + 1 < |g| { assert (f + g)[|f| + (s.pos + 1)] == g[s.pos + 1]; }
    }
  }

  lemma LengthShift(f: string, g: string, s: Parsed)
    requires s.Parsed? && s.pos <= |g|
    ensures ParseLength(f + g, Further(s, |f|)) == Further(ParseLength(g, s), |f|)
  {
    if s.pos < |g| {
      assert (f + g)[|f| + s.pos] == g[s.pos];
      if s.pos + 1 < |g| { assert (f + g)[|f| + (s.pos + 1)] == g[s.pos + 1]; }
    }
  }

  lemma SpecShift(f: string, g: string, q: nat, args: seq<Arg>, a: nat)
    requires q <= |g|
    ensures ParseSpec(f + g, |f| + q, args, a) == Further(ParseSpec(g, q, args, a), |f|)
  {
    hide ParseFlags, ParseWidth, ParsePrecision, ParseLength;
    var (flags, p) := ParseFlags(g, q, NO_FLAGS);
    FlagsShift(f, g, q, NO_FLAGS);
    var s := ParseWidth(g, p, flags, args, a);
    WidthShift(f, g, p, flags, args, a);
    if s.Parsed? {
      PrecisionShift(f, g, s, args);
      var t := ParsePrecision(g, s, args);
      if t.Parsed? { LengthShift(f, g, t); }
    }
  }

  lemma ConvertFurther(c: char, s: Parsed, n: nat, args: seq<Arg>)
    requires s.Parsed?
    ensures Convert(c, Further(s, n), args) == Convert(c, s, args)
  {
    hide NumberText, Spaced;
  }

  lemma {:induction false} RenderShift(f: string, g: string, q: nat, args: seq<Arg>, a: nat)
    requires q <= |g|
    ensures Render(f + g, |f| + q, args, a) == Render(g, q, args, a)
    decreases |g| - q
  {
    hide ParseSpec, Convert;
    if q < |g| {
      assert (f + g)[|f| + q] == g[q];
      if g[q] != '%' {
        RenderShift(f, g, q + 1, args, a);
      } else {
        var s := ParseSpec(g, q + 1, args, a);
        SpecShift(f, g, q + 1, args, a);
        if s.Parsed? && s.pos < |g| {
          assert (f + g)[|f| + s.pos] == g[s.pos];
          ConvertFurther(g[s.pos], s, |f|, args);
          var piece := Convert(g[s.pos], s, args);
          if piece.Piece? { RenderShift(f, g, s.pos + 1, args, piece.arg); }
        }
      }
    }
  }

  /** One format after another prints one rendering after the other. */
  lemma RenderConcat(f: string, g: string, args: seq<Arg>, more: seq<Arg>)
    requires Render(f, 0, args, 0).Text?
    ensures Render(f + g, 0, args + more, 0) == Prefixed(Render(f, 0, args, 0).s, Render(g, 0, args + more, ArgsAfter(f, 0, args, 0)))
  {
    RenderLocal(f, g, 0, args, more, 0);
    RenderShift(f, g, 0, args + more, ArgsAfter(f, 0, args, 0));
  }

  /** A format without '%' prints itself. */
  lemma {:induction false} RenderLiteral(f: string, p: nat, args: seq<Arg>, a: nat)
    requires p <= |f| && forall k :: p <= k < |f| ==> f[k] != '%'
    ensures Render(f, p, args, a) == Text(f[p..])
    decreases |f| - p
  {
    hide ParseSpec, Convert;
    if p < |f| {
      RenderLiteral(f, p + 1, args, a);
      assert f[p..] == [f[p]] + f[p + 1..];
    }
  }

  // ---------------------------------------------------------------- flags and numbers in the format

  /** r is flags with the flag characters of s added. */
  predicate Adds(flags: Flags, s: string, r: Flags)
  {
    && r.zeropad == (flags.zeropad || '0' in s) && r.left == (flags.left || '-' in s)
    && r.plus == (flags.plus || '+' in s) && r.space == (flags.space || ' ' in s)
    && r.hash == (flags.hash || '#' in s)
    && r.uppercase == flags.uppercase && r.isChar == flags.isChar && r.isShort == flags.isShort && r.isLong == flags.isLong
    && r.isLongLong == flags.isLongLong && r.hasPrecision == flags.hasPrecision
  }

  lemma AddsOne(flags: Flags, c: char, s: string, r: Flags)
    requires IsFlag(c) && Adds(AddFlag(flags, c), s, r)
    ensures Adds(flags, [c] + s, r)
  {
    hide AddFlag, IsFlag;
    FlagChars(c);
    AddFlagIs(flags, c);
    InCons('0', c, s); InCons('-', c, s); InCons('+', c, s); InCons(' ', c, s); InCons('#', c, s);
  }

  lemma FlagChars(c: char)
    requires IsFlag(c)
    ensures c == '0' || c == '-' || c == '+' || c == ' ' || c == '#'
  {
  }

  lemma AddFlagIs(flags: Flags, c: char)
    requires c == '0' || c == '-' || c == '+' || c == ' ' || c == '#'
    ensures var r := AddFlag(flags, c);
            && r.zeropad == (flags.zeropad || c == '0') && r.left == (flags.left || c == '-')
            && r.plus == (flags.plus || c == '+') && r.space == (flags.space || c == ' ')
            && r.hash == (flags.hash || c == '#')
            && r.uppercase == flags.uppercase && r.isChar == flags.isChar && r.isShort == flags.isShort && r.isLong == flags.isLong
            && r.isLongLong == flags.isLongLong && r.hasPrecision == flags.hasPrecision
  {
  }

  lemma InCons(d: char, c: char, s: string)
    ensures d in [c] + s <==> d == c || d in s
  {
  }

  /** The flags after a run of flag characters are exactly the characters that occur in it, in any
      order and however often; parsing stops at the first other character. */
  lemma {:induction false} FlagsAre(f: string, p: nat, flags: Flags)
    requires p <= |f|
    ensures var (r, q) := ParseFlags(f, p, flags);
            (q < |f| ==> !IsFlag(f[q])) && (forall k :: p <= k < q ==> IsFlag(f[k])) && Adds(flags, f[p..q], r)
    decreases |f| - p
  {
    if p < |f| && IsFlag(f[p]) {
      var (r, q) := ParseFlags(f, p + 1, AddFlag(flags, f[p]));
      FlagsAre(f, p + 1, AddFlag(flags, f[p]));
      assert ParseFlags(f, p, flags) == (r, q);
      hide ParseFlags, Adds, IsFlag, AddFlag;
      AddsOne(flags, f[p], f[p + 1..q], r);
      assert f[p..q] == [f[p]] + f[p + 1..q];
    } else {
      assert f[p..p] == "";
    }
  }

  /** _atoi reads the decimal number that the digits spell, modulo 2^32. */
  lemma {:induction false} AtoiIs(f: string, p: nat, q: nat)
    requires p <= q <= |f| && (forall k :: p <= k < q ==> IsDigit(f[k])) && (q < |f| ==> !IsDigit(f[q]))
    ensures AllDigits(f[p..q]) && Atoi(f, p, 0) == (ValueOf(f[p..q], 10) % UINT_LIMIT, q)
  {
    assert f[p..p] == "";
    AtoiFrom(f, p, p, q);
  }

  lemma {:induction false} AtoiFrom(f: string, p: nat, m: nat, q: nat)
    requires p <= m <= q <= |f| && (forall k :: p <= k < q ==> IsDigit(f[k])) && (q < |f| ==> !IsDigit(f[q]))
    ensures AllDigits(f[p..m]) && AllDigits(f[p..q])
    ensures Atoi(f, m, ValueOf(f[p..m], 10) % UINT_LIMIT) == (ValueOf(f[p..q], 10) % UINT_LIMIT, q)
    decreases q - m
  {
    hide ValueOf, AllDigits, IsDigit, DigitValue;
    DigitSlice(f, p, m);
    DigitSlice(f, p, q);
    if m < q {
      assert f[p..m + 1] == f[p..m] + [f[m]];
      DigitCounts(f[m]);
      ValueSnoc(f[p..m], f[m], 10);
      AtoiFrom(f, p, m + 1, q);
      AtoiStep(f, m, ValueOf(f[p..m], 10));
    }
  }

  lemma DigitCounts(c: char)
    requires IsDigit(c)
    ensures DigitValue(c) >= 0
  {
  }

  lemma DigitSlice(f: string, p: nat, m: nat)
    requires p <= m <= |f| && forall k :: p <= k < m ==> IsDigit(f[k])
    ensures AllDigits(f[p..m])
  {
  }

  /** One round of _atoi on a reduced accumulator. */
  lemma AtoiStep(f: string, m: nat, v: nat)
    requires m < |f| && IsDigit(f[m])
    ensures Atoi(f, m, v % UINT_LIMIT) == Atoi(f, m + 1, (v * 10 + DigitValue(f[m])) % UINT_LIMIT)
  {
    ReducedFirst(v, DigitValue(f[m]));
  }

  lemma ReducedFirst(v: nat, d: nat)
    ensures (v % UINT_LIMIT * 10 + d) % UINT_LIMIT == (v * 10 + d) % UINT_LIMIT
  {
    var q, r := v / UINT_LIMIT, v % UINT_LIMIT;
    assert v * 10 + d == q * 10 * UINT_LIMIT + (r * 10 + d);
    AddMultiple(q * 10, r * 10 + d, UINT_LIMIT);
  }

  // ---------------------------------------------------------------- whole specifiers

  predicate FlagChar(c: char) { c == '0' || c == '-' || c == '+' || c == ' ' || c == '#' }
  predicate DigitChars(f: string, p: nat, q: nat)
    requires p <= q <= |f|
  {
    forall k :: p <= k < q ==> '0' <= f[k] <= '9'
  }

  /** A specifier in its fields: flags from p to q, the width from q to r, a precision from r to t, and a
      length modifier before the letter. */
  predicate Fields(f: string, p: nat, q: nat, r: nat, t: nat, mods: string)
  {
    && p <= q <= r <= t && t + |mods| < |f|
    && (forall k :: p <= k < q ==> FlagChar(f[k])) && !FlagChar(f[q])
    && DigitChars(f, q, r) && !('0' <= f[r] <= '9') && (q == r ==> f[q] != '*')
    && (f[r] != '.' ==> t == r)
    && (f[r] == '.' ==> t > r && DigitChars(f, r + 1, t) && !('0' <= f[t] <= '9') && (t == r + 1 ==> f[t] != '*'))
    && PrintfMeaning.IsModifier(mods) && f[t..t + |mods|] == mods
    && (mods == "" ==> f[t] != 'l' && f[t] != 'h' && f[t] != 'j' && f[t] != 'z' && f[t] != 't')
    && (mods == "l" ==> f[t + 1] != 'l') && (mods == "h" ==> f[t + 1] != 'h')
  }

  /** The fields mean what they spell: the flag characters that occur, width and precision as numbers
      modulo 2^32, and the length modifier. */
  lemma SpecMeans(f: string, p: nat, q: nat, r: nat, t: nat, mods: string, args: seq<Arg>, a: nat)
    requires Fields(f, p, q, r, t, mods)
    ensures var s := ParseSpec(f, p, args, a);
            && s.Parsed? && s.pos == t + |mods| && s.arg == a && PrintfMeaning.HasModifier(s.flags, mods)
            && s.flags.zeropad == ('0' in f[p..q]) && s.flags.left == ('-' in f[p..q]) && s.flags.plus == ('+' in f[p..q])
            && s.flags.space == (' ' in f[p..q]) && s.flags.hash == ('#' in f[p..q]) && !s.flags.uppercase
            && s.flags.hasPrecision == (t > r)
            && AllDigits(f[q..r]) && s.width == ValueOf(f[q..r], 10) % 0x1_0000_0000
            && (t > r ==> AllDigits(f[r + 1..t]) && s.prec == ValueOf(f[r + 1..t], 10) % 0x1_0000_0000)
            && (t == r ==> s.prec == 0)
  {
    hide ParseFlags, ParseWidth, ParsePrecision, ParseLength, Atoi, ValueOf, AllDigits;
    FlagsEnd(f, p, q);
    FlagsAre(f, p, NO_FLAGS);
    var flags := ParseFlags(f, p, NO_FLAGS).0;
    WidthMeans(f, q, r, flags, args, a);
    var s := ParseWidth(f, q, flags, args, a);
    PrecisionMeans(f, r, t, s, args);
    LengthMeans(f, t, mods, ParsePrecision(f, s, args));
  }

  lemma FlagsEnd(f: string, p: nat, q: nat)
    requires p <= q < |f| && (forall k :: p <= k < q ==> FlagChar(f[k])) && !FlagChar(f[q])
    ensures ParseFlags(f, p, NO_FLAGS).1 == q
  {
    FlagsAre(f, p, NO_FLAGS);
    hide ParseFlags, Adds;
  }

  lemma WidthMeans(f: string, q: nat, r: nat, flags: Flags, args: seq<Arg>, a: nat)
    requires q <= r < |f| && DigitChars(f, q, r) && !('0' <= f[r] <= '9') && (q == r ==> f[q] != '*')
    ensures AllDigits(f[q..r]) && ParseWidth(f, q, flags, args, a) == Parsed(flags, ValueOf(f[q..r], 10) % 0x1_0000_0000, 0, r, a)
  {
    AtoiIs(f, q, r);
    hide Atoi;
    if q == r { assert f[q..r] == "" && ValueOf("", 10) == 0; }
  }

  lemma PrecisionMeans(f: string, r: nat, t: nat, s: Parsed, args: seq<Arg>)
    requires s.Parsed? && s.pos == r <= t < |f| && s.prec == 0 && !s.flags.hasPrecision
    requires f[r] != '.' ==> t == r
    requires f[r] == '.' ==> t > r && DigitChars(f, r + 1, t) && !('0' <= f[t] <= '9') && (t == r + 1 ==> f[t] != '*')
    ensures t == r ==> ParsePrecision(f, s, args) == s
    ensures t > r ==> AllDigits(f[r + 1..t])
                      && ParsePrecision(f, s, args)
                         == s.(flags := s.flags.(hasPrecision := true), prec := ValueOf(f[r + 1..t], 10) % 0x1_0000_0000, pos := t)
  {
    hide Atoi;
    if t > r {
      AtoiIs(f, r + 1, t);
      if t == r + 1 { assert f[r + 1..t] == "" && ValueOf("", 10) == 0; }
    }
  }

  lemma LengthMeans(f: string, t: nat, mods: string, s: Parsed)
    requires s.Parsed? && s.pos == t && t + |mods| < |f| && PrintfMeaning.IsModifier(mods) && f[t..t + |mods|] == mods
    requires mods == "" ==> f[t] != 'l' && f[t] != 'h' && f[t] != 'j' && f[t] != 'z' && f[t] != 't'
    requires (mods == "l" ==> f[t + 1] != 'l') && (mods == "h" ==> f[t + 1] != 'h')
    requires !s.flags.isChar && !s.flags.isShort && !s.flags.isLong && !s.flags.isLongLong
    ensures var u := ParseLength(f, s);
            && u.pos == t + |mods| && u.width == s.width && u.prec == s.prec && u.arg == s.arg && PrintfMeaning.HasModifier(u.flags, mods)
            && u.flags == s.flags.(isChar := u.flags.isChar, isShort := u.flags.isShort, isLong := u.flags.isLong, isLongLong := u.flags.isLongLong)
  {
    ModifierAt(f, t, mods);
    ParsedLength(f, t, mods, s);
  }

  lemma ModifierAt(f: string, t: nat, mods: string)
    requires t + |mods| < |f| && f[t..t + |mods|] == mods
    ensures |mods| > 0 ==> f[t] == mods[0]
    ensures |mods| > 1 ==> f[t + 1] == mods[1]
  {
    assert |mods| > 0 ==> f[t..t + |mods|][0] == f[t];
    assert |mods| > 1 ==> f[t..t + |mods|][1] == f[t + 1];
  }

  lemma ParsedLength(f: string, t: nat, mods: string, s: Parsed)
    requires s.Parsed? && s.pos == t && t + |mods| < |f| && PrintfMeaning.IsModifier(mods)
    requires (|mods| > 0 ==> f[t] == mods[0]) && (|mods| > 1 ==> f[t + 1] == mods[1])
    requires mods == "" ==> f[t] != 'l' && f[t] != 'h' && f[t] != 'j' && f[t] != 'z' && f[t] != 't'
    requires (mods == "l" ==> f[t + 1] != 'l') && (mods == "h" ==> f[t + 1] != 'h')
    requires !s.flags.isChar && !s.flags.isShort && !s.flags.isLong && !s.flags.isLongLong
    ensures var u := ParseLength(f, s);
            && u.pos == t + |mods| && PrintfMeaning.HasModifier(u.flags, mods)
            && u == s.(pos := u.pos, flags := s.flags.(isChar := u.flags.isChar, isShort := u.flags.isShort,
                                                       isLong := u.flags.isLong, isLongLong := u.flags.isLongLong))
  {
  }

  /** A star takes width or precision from an int argument: a negative width turns to '-', and a negative
      precision to 0. */
  lemma StarMeans(f: string, p: nat, flags: Flags, args: seq<Arg>, a: nat, w: Word, s: Parsed)
    requires p < |f| && f[p] == '*' && a < |args| && args[a] == Num(w)
    requires s.Parsed? && 0 < p && s.pos == p - 1 && f[p - 1] == '.' && s.arg == a
    ensures var n := PrintfMeaning.TwosComplement(w, 0x1_0000_0000);
            && ParseWidth(f, p, flags, args, a) == Parsed(if n < 0 then flags.(left := true) else flags, if n < 0 then -n else n, 0, p + 1, a + 1)
            && ParsePrecision(f, s, args)
               == s.(flags := s.flags.(hasPrecision := true), prec := if n > 0 then n else 0, pos := p + 1, arg := a + 1)
  {
    hide Atoi;
  }

  lemma LetterInside(f: string, p: nat, q: nat, r: nat, t: nat, mods: string)
    requires Fields(f, p, q, r, t, mods)
    ensures t + |mods| < |f|
  {
  }

  lemma RenderPiece(f: string, p: nat, args: seq<Arg>, a: nat)
    requires p < |f| && f[p] == '%'
    requires var s := ParseSpec(f, p + 1, args, a); s.Parsed? && s.pos < |f| && Convert(f[s.pos], s, args).Piece?
    ensures var s := ParseSpec(f, p + 1, args, a);
            var piece := Convert(f[s.pos], s, args);
            Render(f, p, args, a) == Prefixed(piece.text, Render(f, s.pos + 1, args, piece.arg))
  {
    hide ParseSpec, Convert;
  }

  /** Such a specifier behind a percent sign prints what the letter after its fields makes of them, and the
      rest of the format goes on with the arguments that are left. */
  lemma RenderSpec(f: string, p: nat, q: nat, r: nat, t: nat, mods: string, args: seq<Arg>, a: nat)
    requires p < |f| && f[p] == '%' && Fields(f, p + 1, q, r, t, mods)
    requires var s := ParseSpec(f, p + 1, args, a); s.Parsed? && Convert(f[t + |mods|], s, args).Piece?
    ensures var s := ParseSpec(f, p + 1, args, a);
            var piece := Convert(f[t + |mods|], s, args);
            Render(f, p, args, a) == Prefixed(piece.text, Render(f, t + |mods| + 1, args, piece.arg))
  {
    hide *;
    SpecMeans(f, p + 1, q, r, t, mods, args, a);
    LetterInside(f, p + 1, q, r, t, mods);
    RenderPiece(f, p, args, a);
  }
}
