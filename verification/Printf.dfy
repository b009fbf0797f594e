/** _vsnprintf and its helpers, writing characters one by one into a buffer of limited length. */
module Printfs {
  import opened Words
  import opened PrintfText
  import opened PrintfRender

  /** The buffer after text was output from index idx on: only the first maxlen places are written. */
  function Emit(b: seq<char>, idx: nat, text: string, maxlen: nat): (r: seq<char>)
    ensures |r| == |b|
  {
    seq(|b|, k requires 0 <= k < |b| => if idx <= k < idx + |text| && k < maxlen then text[k - idx] else b[k])
  }

  lemma EmitNothing(b: seq<char>, idx: nat, maxlen: nat)
    ensures Emit(b, idx, "", maxlen) == b
  {
  }

  /** Outputting one text after another is outputting their concatenation. */
  lemma EmitTwice(b: seq<char>, idx: nat, s: string, t: string, maxlen: nat)
    ensures Emit(Emit(b, idx, s, maxlen), idx + |s|, t, maxlen) == Emit(b, idx, s + t, maxlen)
  {
  }

  /** The buffer after a call: the first min(|text|, n-1) characters and a NUL. */
  function Terminated(b: seq<char>, text: string, n: nat): (s: seq<char>)
    requires n <= |b|
  {
    if n == 0 then b else Emit(b, 0, text, n)[Min(|text|, n - 1) := '\0']
  }

  /** Truncation: what is in the buffer, and what was not touched. */
  lemma Truncated(b: seq<char>, text: string, n: nat)
    requires n <= |b|
    ensures var r := Terminated(b, text, n);
            && |r| == |b|
            && (n > 0 ==> var m := Min(|text|, n - 1);
                          r[..m] == text[..m] && r[m] == '\0' && forall k :: m < k < |b| ==> r[k] == b[k])
            && (n == 0 ==> r == b)
  {
    if n > 0 {
      var m, r := Min(|text|, n - 1), Terminated(b, text, n);
      assert r[..m] == text[..m];
    }
  }

  /** _out_buffer. */
  method OutBuffer(c: char, buffer: array<char>, idx: nat, maxlen: nat)
    requires maxlen <= buffer.Length
    modifies buffer
    ensures buffer[..] == Emit(old(buffer[..]), idx, [c], maxlen)
  {
    if idx < maxlen {
      buffer[idx] := c;
    }
  }

  /** Outputs a character until the index is `until`. */
  method OutCopies(c: char, buffer: array<char>, idx: nat, maxlen: nat, n: int) returns (r: nat)
    requires maxlen <= buffer.Length
    modifies buffer
    ensures buffer[..] == Emit(old(buffer[..]), idx, Copies(c, n), maxlen) && r == idx + |Copies(c, n)|
  {
    ghost var b := buffer[..];
    r := idx;
    var i := 0;
    EmitNothing(b, idx, maxlen);
    assert Copies(c, 0) == "";
    while i < n
      invariant 0 <= i && i <= Max(n, 0)
      invariant r == idx + i && buffer[..] == Emit(b, idx, Copies(c, i), maxlen)
    {
      OutBuffer(c, buffer, r, maxlen);
      EmitTwice(b, idx, Copies(c, i), [c], maxlen);
      assert Copies(c, i) + [c] == Copies(c, i + 1);
      i, r := i + 1, r + 1;
    }
    assert Copies(c, n) == Copies(c, i);
  }

  lemma ReverseStep(s: string, l: nat)
    requires l < |s|
    ensures Reverse(s)[..|s| - l] == Reverse(s)[..|s| - l - 1] + [s[l]]
  {
  }

  /** _out_rev. */
  method OutRev(buffer: array<char>, idx: nat, maxlen: nat, buf: array<char>, len: nat, width: nat, flags: Flags) returns (r: nat)
    requires maxlen <= buffer.Length && len <= buf.Length && buf != buffer
    modifies buffer
    ensures buffer[..] == Emit(old(buffer[..]), idx, Field(buf[..len], width, flags), maxlen)
    ensures r == idx + |Field(buf[..len], width, flags)|
  {
    hide Emit, Field, Copies, Reverse;
    ghost var b := buffer[..];
    r := idx;
    ghost var done := "";
    EmitNothing(b, idx, maxlen);
    if !flags.left && !flags.zeropad {
      r := OutCopies(' ', buffer, r, maxlen, width - len);
      done := Copies(' ', width - len);
    }
    assert buffer[..] == Emit(b, idx, done, maxlen) && r == idx + |done|;
    r := OutReversed(buffer, r, maxlen, buf, len);
    EmitTwice(b, idx, done, Reverse(buf[..len]), maxlen);
    done := done + Reverse(buf[..len]);
    if flags.left {
      EmitTwice(b, idx, done, Copies(' ', width - len), maxlen);
      r := OutCopies(' ', buffer, r, maxlen, width - (r - idx));
      done := done + Copies(' ', width - len);
    } else {
      assert done + "" == done;
    }
    FieldIsDone(buf[..len], width, flags, done);
  }

  lemma FieldIsDone(s: string, width: nat, flags: Flags, done: string)
    requires done == (if !flags.left && !flags.zeropad then Copies(' ', width - |s|) else "") + Reverse(s)
                     + (if flags.left then Copies(' ', width - |s|) else "")
    ensures done == Field(s, width, flags)
  {
  }

  /** The loop that outputs the work buffer backwards. */
  method OutReversed(buffer: array<char>, idx: nat, maxlen: nat, buf: array<char>, len: nat) returns (r: nat)
    requires maxlen <= buffer.Length && len <= buf.Length && buf != buffer
    modifies buffer
    ensures buffer[..] == Emit(old(buffer[..]), idx, Reverse(buf[..len]), maxlen) && r == idx + len
  {
    ghost var b, all := buffer[..], Reverse(buf[..len]);
    r := idx;
    var l := len;
    EmitNothing(b, idx, maxlen);
    while l > 0
      invariant 0 <= l <= len
      invariant r == idx + len - l && buffer[..] == Emit(b, idx, all[..len - l], maxlen)
    {
      l := l - 1;
      OutBuffer(buf[l], buffer, r, maxlen);
      EmitTwice(b, idx, all[..len - l - 1], [buf[l]], maxlen);
      ReverseStep(buf[..len], l);
      r := r + 1;
    }
    assert all[..len] == all;
  }

  // ---------------------------------------------------------------- numbers

  /** Appends zeros to the work buffer up to length n. */
  method PadZeros(buf: array<char>, len: nat, n: nat) returns (r: nat)
    requires buf.Length == BUFFER && len <= BUFFER
    modifies buf
    ensures r <= BUFFER && buf[..r] == ZeroTo(old(buf[..len]), n)
  {
    r := len;
    ghost var s := buf[..len];
    assert s + Copies('0', 0) == s;
    while r < n && r < BUFFER
      invariant len <= r <= BUFFER && r <= Max(len, n)
      invariant buf[..r] == s + Copies('0', r - len)
    {
      buf[r] := '0';
      assert buf[..r + 1] == buf[..r] + ['0'];
      assert Copies('0', r + 1 - len) == Copies('0', r - len) + ['0'];
      r := r + 1;
    }
    assert Copies('0', Min(n, BUFFER) - len) == Copies('0', r - len);
  }

  method PutChar(buf: array<char>, len: nat, c: char) returns (r: nat)
    requires buf.Length == BUFFER && len <= BUFFER
    modifies buf
    ensures r <= BUFFER && buf[..r] == Put(old(buf[..len]), c)
  {
    r := len;
    if r < BUFFER {
      buf[r] := c;
      r := r + 1;
      assert buf[..r] == old(buf[..len]) + [c];
    }
  }

  /** The '#' part of _ntoa_format. */
  method HandleHash(buf: array<char>, len: nat, base: nat, prec: nat, width: nat, flags: Flags) returns (r: nat)
    requires buf.Length == BUFFER && len <= BUFFER
    modifies buf
    ensures r <= BUFFER && buf[..r] == Hashed(old(buf[..len]), base, prec, width, flags)
  {
    r := len;
    if flags.hash {
      if !flags.hasPrecision && r > 0 && (r == prec || r == width) {
        r := r - 1;
        if r > 0 && base == 16 {
          r := r - 1;
        }
      }
      assert buf[..r] == old(buf[..len])[..r];
      if base == 16 && !flags.uppercase && r < BUFFER {
        r := PutChar(buf, r, 'x');
      } else if base == 16 && flags.uppercase && r < BUFFER {
        r := PutChar(buf, r, 'X');
      } else if base == 2 && r < BUFFER {
        r := PutChar(buf, r, 'b');
      }
      r := PutChar(buf, r, '0');
    }
  }

  /** _ntoa_format. */
  method NtoaFormat(buffer: array<char>, idx: nat, maxlen: nat, buf: array<char>, len: nat, negative: bool, base: nat, prec: nat,
                    width: nat, flags: Flags) returns (r: nat)
    requires maxlen <= buffer.Length && buf.Length == BUFFER && len <= BUFFER && buf != buffer
    modifies buffer, buf
    ensures var text := FormatText(old(buf[..len]), negative, base, prec, width, flags);
            buffer[..] == Emit(old(buffer[..]), idx, text, maxlen) && r == idx + |text|
  {
    hide Emit, Field, ZeroTo, Hashed, Put;
    var l, w := len, width;
    if !flags.left {
      if w > 0 && flags.zeropad && (negative || flags.plus || flags.space) {
        w := w - 1;
      }
      l := PadZeros(buf, l, prec);
      if flags.zeropad {
        l := PadZeros(buf, l, w);
      }
    }
    l := HandleHash(buf, l, base, prec, w, flags);
    if negative {
      l := PutChar(buf, l, '-');
    } else if flags.plus {
      l := PutChar(buf, l, '+');
    } else if flags.space {
      l := PutChar(buf, l, ' ');
    }
    r := OutRev(buffer, idx, maxlen, buf, l, w, flags);
  }

  /** _ntoa_long and _ntoa_long_long, which differ only in the width of their operands. */
  method NtoaLong(buffer: array<char>, idx: nat, maxlen: nat, value: Word, negative: bool, base: nat, prec: nat, width: nat,
                  flags: Flags) returns (r: nat)
    requires maxlen <= buffer.Length && 2 <= base <= 16
    modifies buffer
    ensures var text := NumberText(value, negative, base, prec, width, flags);
            buffer[..] == Emit(old(buffer[..]), idx, text, maxlen) && r == idx + |text|
  {
    hide Emit, FormatText;
    var buf := new char[BUFFER];
    var len := 0;
    var f := if value == 0 then flags.(hash := false) else flags;
    if !f.hasPrecision || value != 0 {
      len := CollectDigits(buf, value, base, f.uppercase);
    } else {
      assert buf[..0] == "";
    }
    r := NtoaFormat(buffer, idx, maxlen, buf, len, negative, base, prec, width, f);
  }

  /** The digits that are still to come when `room` places are left. */
  ghost function MoreDigits(v: nat, base: nat, uppercase: bool, room: nat): (r: string)
    requires 2 <= base <= 16
  {
    if v == 0 || room == 0 then "" else Digits(v, base, uppercase, room)
  }

  lemma OneRound(s: string, v: nat, base: nat, uppercase: bool, room: nat)
    requires 2 <= base <= 16 && room > 0
    ensures s + Digits(v, base, uppercase, room) == s + [DigitChar(v % base, uppercase)] + MoreDigits(v / base, base, uppercase, room - 1)
  {
  }

  /** `value % base` and `value /= base`. */
  method NextDigit(value: nat, base: nat, uppercase: bool) returns (rest: nat, c: char)
    requires 2 <= base <= 16
    ensures rest == value / base && c == DigitChar(value % base, uppercase)
  {
    rest, c := value / base, DigitChar(value % base, uppercase);
  }

  /** The do-while loop: the first round always runs. */
  method CollectDigits(buf: array<char>, value: Word, base: nat, uppercase: bool) returns (len: nat)
    requires buf.Length == BUFFER && 2 <= base <= 16
    modifies buf
    ensures len <= BUFFER && buf[..len] == Digits(value, base, uppercase, BUFFER)
  {
    ghost var all := Digits(value, base, uppercase, BUFFER);
    OneRound("", value, base, uppercase, BUFFER);
    hide Digits, DigitChar;
    var v, c := NextDigit(value, base, uppercase);
    buf[0] := c;
    len := 1;
    assert buf[..1] == "" + [c];
    while v != 0 && len < BUFFER
      invariant 1 <= len <= BUFFER
      invariant all == buf[..len] + MoreDigits(v, base, uppercase, BUFFER - len)
      decreases BUFFER - len
    {
      OneRound(buf[..len], v, base, uppercase, BUFFER - len);
      v, c := NextDigit(v, base, uppercase);
      buf[len] := c;
      assert buf[..len + 1] == buf[..len] + [c];
      len := len + 1;
    }
    assert all == buf[..len];
  }

  // ---------------------------------------------------------------- the specifier

  /** _atoi: the number, and the position after it. */
  method ReadNumber(f: string, p: nat) returns (i: nat, q: nat)
    requires p <= |f|
    ensures (i, q) == Atoi(f, p, 0)
  {
    i, q := 0, p;
    while q < |f| && IsDigit(f[q])
      invariant p <= q <= |f| && Atoi(f, q, i) == Atoi(f, p, 0)
    {
      i := (i * 10 + (f[q] as int - '0' as int)) % UINT_LIMIT;
      q := q + 1;
    }
  }

  method EvaluateFlags(f: string, p: nat) returns (flags: Flags, q: nat)
    requires p <= |f|
    ensures (flags, q) == ParseFlags(f, p, NO_FLAGS)
  {
    flags, q := NO_FLAGS, p;
    var n := true;
    while n
      invariant p <= q <= |f|
      invariant if n then ParseFlags(f, q, flags) == ParseFlags(f, p, NO_FLAGS) else (flags, q) == ParseFlags(f, p, NO_FLAGS)
      decreases |f| - q, n
    {
      n := q < |f| && IsFlag(f[q]);
      if n {
        flags, q := AddFlag(flags, f[q]), q + 1;
      }
    }
  }

  /** Flags, width, precision and length. */
  method EvaluateSpec(f: string, p: nat, args: seq<Arg>, a: nat) returns (s: Parsed)
    requires p <= |f|
    ensures s == ParseSpec(f, p, args, a)
  {
    hide ParseFlags, ParseWidth, ParsePrecision, ParseLength;
    var flags, q := EvaluateFlags(f, p);
    s := EvaluateWidth(f, q, flags, args, a);
    if s.Undefined? {
      return;
    }
    s := EvaluatePrecision(f, s, args);
    if s.Undefined? {
      return;
    }
    s := ParseLength(f, s);
  }

  method EvaluateWidth(f: string, q: nat, flags: Flags, args: seq<Arg>, a: nat) returns (s: Parsed)
    requires q <= |f|
    ensures s == ParseWidth(f, q, flags, args, a)
  {
    hide Atoi, SignedOf;
    s := Parsed(flags, 0, 0, q, a);
    if q < |f| && IsDigit(f[q]) {
      var width, after := ReadNumber(f, q);
      s := s.(width := width, pos := after);
    } else if q < |f| && f[q] == '*' {
      if !(a < |args| && args[a].Num?) {
        return Undefined;
      }
      var w := SignedOf(args[a].w, UINT_LIMIT);
      if w < 0 {
        s := Parsed(flags.(left := true), -w, 0, q + 1, a + 1);
      } else {
        s := Parsed(flags, w, 0, q + 1, a + 1);
      }
    }
  }

  method EvaluatePrecision(f: string, s0: Parsed, args: seq<Arg>) returns (s: Parsed)
    requires s0.Parsed? && s0.pos <= |f|
    ensures s == ParsePrecision(f, s0, args)
  {
    hide Atoi, SignedOf;
    s := s0;
    if s.pos < |f| && f[s.pos] == '.' {
      s := s.(flags := s.flags.(hasPrecision := true), pos := s.pos + 1);
      if s.pos < |f| && IsDigit(f[s.pos]) {
        var prec, after := ReadNumber(f, s.pos);
        s := s.(prec := prec, pos := after);
      } else if s.pos < |f| && f[s.pos] == '*' {
        if !(s.arg < |args| && args[s.arg].Num?) {
          return Undefined;
        }
        var n := SignedOf(args[s.arg].w, UINT_LIMIT);
        s := s.(prec := if n > 0 then n else 0, pos := s.pos + 1, arg := s.arg + 1);
      }
    }
  }

  // ---------------------------------------------------------------- conversions

  method ConvertInteger(buffer: array<char>, idx: nat, maxlen: nat, c: char, s: Parsed, w: Word) returns (r: nat)
    requires maxlen <= buffer.Length && s.Parsed?
    modifies buffer
    ensures buffer[..] == Emit(old(buffer[..]), idx, IntegerText(c, s, w), maxlen) && r == idx + |IntegerText(c, s, w)|
  {
    hide Emit, NumberText;
    var flags := IntegerFlags(c, s.flags);
    var value := IntegerValue(c, s.flags, w);
    MagnitudeBound(c, s.flags, w);
    r := NtoaLong(buffer, idx, maxlen, if value < 0 then -value else value, value < 0, BaseFor(c), s.prec, s.width, flags);
  }

  lemma MagnitudeBound(c: char, flags: Flags, w: Word)
    ensures -(WORD_LIMIT as int) < IntegerValue(c, flags, w) < WORD_LIMIT
  {
    ValueBound(c, flags, w);
  }

  /** %c and %s: padding before or after the characters. */
  method ConvertString(buffer: array<char>, idx: nat, maxlen: nat, text: string, width: nat, left: bool) returns (r: nat)
    requires maxlen <= buffer.Length
    modifies buffer
    ensures buffer[..] == Emit(old(buffer[..]), idx, Spaced(text, width, left), maxlen) && r == idx + |Spaced(text, width, left)|
  {
    hide Emit, Copies;
    ghost var b := buffer[..];
    r := idx;
    var pad := width - |text|;
    if !left {
      r := OutCopies(' ', buffer, r, maxlen, pad);
      EmitTwice(b, idx, Copies(' ', pad), text, maxlen);
    }
    r := OutString(buffer, r, maxlen, text);
    if left {
      EmitTwice(b, idx, text, Copies(' ', pad), maxlen);
      r := OutCopies(' ', buffer, r, maxlen, pad);
    }
  }

  method OutString(buffer: array<char>, idx: nat, maxlen: nat, text: string) returns (r: nat)
    requires maxlen <= buffer.Length
    modifies buffer
    ensures buffer[..] == Emit(old(buffer[..]), idx, text, maxlen) && r == idx + |text|
  {
    ghost var b := buffer[..];
    r := idx;
    var i := 0;
    EmitNothing(b, idx, maxlen);
    while i < |text|
      invariant 0 <= i <= |text| && r == idx + i && buffer[..] == Emit(b, idx, text[..i], maxlen)
    {
      OutBuffer(text[i], buffer, r, maxlen);
      EmitTwice(b, idx, text[..i], [text[i]], maxlen);
      assert text[..i] + [text[i]] == text[..i + 1];
      i, r := i + 1, r + 1;
    }
    assert text[..i] == text;
  }

  /** The switch on the conversion character. */
  method Conversion(buffer: array<char>, idx: nat, maxlen: nat, c: char, s: Parsed, args: seq<Arg>) returns (r: nat, arg: nat)
    requires maxlen <= buffer.Length && s.Parsed? && Convert(c, s, args).Piece?
    modifies buffer
    ensures var piece := Convert(c, s, args);
            buffer[..] == Emit(old(buffer[..]), idx, piece.text, maxlen) && r == idx + |piece.text| && arg == piece.arg
  {
    hide Emit, IntegerText, Spaced, NumberText;
    arg := s.arg;
    if IsInteger(c) {
      r := ConvertInteger(buffer, idx, maxlen, c, s, args[arg].w);
      arg := arg + 1;
    } else if c == 'c' {
      r := ConvertString(buffer, idx, maxlen, [(args[arg].w % 0x100) as char], s.width, s.flags.left);
      arg := arg + 1;
    } else if c == 's' {
      r := ConvertString(buffer, idx, maxlen, StringPart(args[arg].s, s), s.width, s.flags.left);
      arg := arg + 1;
    } else if c == 'p' {
      r := NtoaLong(buffer, idx, maxlen, args[arg].w, false, 16, s.prec, 16, s.flags.(zeropad := true, uppercase := true));
      arg := arg + 1;
    } else {
      OutBuffer(c, buffer, idx, maxlen);
      r := idx + 1;
    }
  }

  /** _vsnprintf: the buffer holds the rendering cut to maxlen - 1 characters and a NUL, and the result
      is the length of the whole rendering. */
  method Vsnprintf(buffer: array<char>, maxlen: Word, format: string, args: seq<Arg>) returns (idx: nat)
    requires maxlen <= buffer.Length && Render(format, 0, args, 0).Text?
    modifies buffer
    ensures var text := Render(format, 0, args, 0).s;
            buffer[..] == Terminated(old(buffer[..]), text, maxlen) && idx == |text|
  {
    hide Emit, ParseSpec, Convert, Render, Terminated;
    ghost var b, text := buffer[..], Render(format, 0, args, 0).s;
    idx := 0;
    var p, a := 0, 0;
    ghost var done := "";
    EmitNothing(b, 0, maxlen);
    assert done + text == text;
    while p < |format|
      invariant p <= |format| && idx == |done| && buffer[..] == Emit(b, 0, done, maxlen)
      invariant Render(format, p, args, a).Text? && text == done + Render(format, p, args, a).s
    {
      ghost var t, rest;
      RenderStep(format, p, args, a);
      if format[p] != '%' {
        OutBuffer(format[p], buffer, idx, maxlen);
        t := [format[p]];
        idx, p := idx + 1, p + 1;
      } else {
        var s := EvaluateSpec(format, p + 1, args, a);
        t := Convert(format[s.pos], s, args).text;
        idx, a := Conversion(buffer, idx, maxlen, format[s.pos], s, args);
        p := s.pos + 1;
      }
      EmitTwice(b, 0, done, t, maxlen);
      rest := Render(format, p, args, a).s;
      assert done + (t + rest) == (done + t) + rest;
      done := done + t;
    }
    RenderEnd(format, args, a);
    assert text == done;
    var last := if idx < maxlen then idx else (maxlen + WORD_LIMIT - 1) % WORD_LIMIT;
    OutBuffer('\0', buffer, last, maxlen);
    LastChar(b, text, maxlen, last);
  }

  /** One piece of the format. */
  lemma RenderStep(format: string, p: nat, args: seq<Arg>, a: nat)
    requires p < |format| && Render(format, p, args, a).Text?
    ensures format[p] != '%' ==>
              var rest := Render(format, p + 1, args, a);
              rest.Text? && Render(format, p, args, a).s == [format[p]] + rest.s
    ensures format[p] == '%' ==>
              var s := ParseSpec(format, p + 1, args, a);
              && s.Parsed? && p < s.pos < |format| && Convert(format[s.pos], s, args).Piece?
              && var piece := Convert(format[s.pos], s, args);
              var rest := Render(format, s.pos + 1, args, piece.arg);
              rest.Text? && Render(format, p, args, a).s == piece.text + rest.s
  {
    hide ParseSpec, Convert;
  }

  lemma RenderEnd(format: string, args: seq<Arg>, a: nat)
    ensures Render(format, |format|, args, a) == Text("")
  {
  }

  lemma LastChar(b: seq<char>, text: string, maxlen: Word, last: nat)
    requires maxlen <= |b| && last == if |text| < maxlen then |text| else (maxlen + WORD_LIMIT - 1) % WORD_LIMIT
    ensures Emit(Emit(b, 0, text, maxlen), last, ['\0'], maxlen) == Terminated(b, text, maxlen)
  {
    if maxlen == 0 {
      assert last == WORD_LIMIT - 1;
    } else if |text| >= maxlen {
      AddMultiple(1, maxlen - 1, WORD_LIMIT);
      SmallMod(maxlen - 1, WORD_LIMIT);
    }
  }
}
