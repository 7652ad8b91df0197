/** The functions of printf.c that put characters out, with the output buffer and the
    conversion buffer in place. A null output buffer stands for the null output
    function. */
module PrintfDriver {
  import opened Common
  import opened PrintfText
  import opened PrintfFormat
  import opened PrintfSpec

  class Output {
    const buffer: array<char>
    const isNull: bool
    const maxlen: nat

    ghost predicate Valid() {
      !isNull ==> maxlen <= buffer.Length
    }

    /** What can be seen of the buffer. */
    ghost function Contents(): Text
      reads buffer
    {
      if isNull then [] else buffer[..]
    }

    constructor (buffer: array<char>, isNull: bool, maxlen: nat)
      requires !isNull ==> maxlen <= buffer.Length
      ensures Valid() && this.buffer == buffer && this.isNull == isNull && this.maxlen == maxlen
    {
      this.buffer, this.isNull, this.maxlen := buffer, isNull, maxlen;
    }

    /** _out_buffer or _out_null. */
    method Out(c: char, idx: nat)
      requires Valid()
      modifies buffer
      ensures Contents() == Put(old(Contents()), idx, c, maxlen)
    {
      if !isNull && idx < maxlen {
        buffer[idx] := c;
      }
    }

    method OutNext(c: char, idx: nat) returns (next: nat)
      requires Valid()
      modifies buffer
      ensures next == idx + 1 && Contents() == Emitted(old(Contents()), idx, [c], maxlen)
    {
      Out(c, idx);
      next := idx + 1;
      assert ([c])[1..] == [];
    }

    /** A run of the same character, counted from `l` up to `width`. */
    method OutPad(c: char, l: nat, width: nat, idx: nat) returns (next: nat)
      requires Valid()
      modifies buffer
      ensures next == idx + |Repeat(c, width - l)|
      ensures Contents() == Emitted(old(Contents()), idx, Repeat(c, width - l), maxlen)
    {
      next := idx;
      ghost var start := Contents();
      var i := l;
      assert Repeat(c, 0) == [] && (width <= l ==> Repeat(c, width - l) == []);
      while i < width
        invariant l <= i && (l <= width ==> i <= width) && (width <= l ==> i == l) && next == idx + (i - l)
        invariant Contents() == Emitted(start, idx, Repeat(c, i - l), maxlen)
      {
        EmittedJoin(start, idx, Repeat(c, i - l), [c], maxlen);
        next := OutNext(c, next);
        i := i + 1;
      }
    }

    method OutText(t: Text, idx: nat) returns (next: nat)
      requires Valid()
      modifies buffer
      ensures next == idx + |t| && Contents() == Emitted(old(Contents()), idx, t, maxlen)
    {
      next := idx;
      ghost var start := Contents();
      for i := 0 to |t|
        invariant next == idx + i && Contents() == Emitted(start, idx, t[..i], maxlen)
      {
        EmittedJoin(start, idx, t[..i], [t[i]], maxlen);
        assert t[..i] + [t[i]] == t[..i + 1];
        next := OutNext(t[i], next);
      }
      assert t[..|t|] == t;
    }

    /** The reversing loop of _out_rev. */
    method OutReversed(buf: array<char>, n: nat, idx: nat) returns (next: nat)
      requires Valid() && n <= buf.Length && buf != buffer
      modifies buffer
      ensures next == idx + n && Contents() == Emitted(old(Contents()), idx, Reverse(buf[..n]), maxlen)
    {
      next := idx;
      ghost var start, sofar: Text := Contents(), [];
      var len: nat := n;
      assert [] + Reverse(buf[..n]) == Reverse(buf[..n]);
      while len != 0
        invariant len <= n && buf[..] == old(buf[..]) && next == idx + |sofar|
        invariant sofar + Reverse(buf[..len]) == Reverse(old(buf[..n]))
        invariant Contents() == Emitted(start, idx, sofar, maxlen)
      {
        len := len - 1;
        ReverseLast(sofar, buf[..len + 1], buf[..len]);
        EmittedJoin(start, idx, sofar, [buf[len]], maxlen);
        sofar := sofar + [buf[len]];
        next := OutNext(buf[len], next);
      }
      assert sofar + [] == sofar;
    }

    /** _out_rev. */
    method OutRev(buf: array<char>, len: nat, width: nat, f: Flags, idx: nat) returns (next: nat)
      requires Valid() && len <= buf.Length && buf != buffer
      modifies buffer
      ensures var t := PrintfText.OutRev(buf[..len], width, f);
              next == idx + |t| && Contents() == Emitted(old(Contents()), idx, t, maxlen)
    {
      ghost var before := if !f.left && !f.zeropad then Repeat(' ', width - len) else [];
      ghost var text := Reverse(buf[..len]);
      ghost var after := if f.left then Repeat(' ', width - len) else [];
      EmittedJoin(Contents(), idx, before, text, maxlen);
      EmittedJoin(Contents(), idx, before + text, after, maxlen);
      next := idx;
      if !f.left && !f.zeropad {
        next := OutPad(' ', len, width, next);
      }
      next := OutReversed(buf, len, next);
      if f.left {
        next := OutPad(' ', next - idx, width, next);
      }
    }

    // ----- The conversion buffer

    /** The zero-padding loops of _ntoa_format. */
    method PadBuffer(buf: array<char>, n: nat, prec: nat) returns (len: nat)
      requires n <= buf.Length == PRINTF_NTOA_BUFFER_SIZE
      modifies buf
      ensures len <= buf.Length && buf[..len] == PadZeros(old(buf[..])[..n], prec)
    {
      len := n;
      ghost var d := buf[..n];
      assert d + [] == d;
      while len < prec && len < PRINTF_NTOA_BUFFER_SIZE
        invariant n <= len <= buf.Length && (n < prec ==> len <= prec) && (prec <= n ==> len == n)
        invariant buf[..len] == d + Repeat('0', len - n)
      {
        buf[len] := '0';
        len := len + 1;
      }
      var m := if prec < PRINTF_NTOA_BUFFER_SIZE then prec else PRINTF_NTOA_BUFFER_SIZE;
      if m <= n {
        assert Repeat('0', m - n) == [] == Repeat('0', 0);
      }
    }

    /** A character more in the buffer, if there is room. */
    method PushChar(buf: array<char>, n: nat, c: char) returns (len: nat)
      requires n <= buf.Length == PRINTF_NTOA_BUFFER_SIZE
      modifies buf
      ensures len <= buf.Length && buf[..len] == Push(old(buf[..])[..n], [c])
    {
      len := n;
      if len < PRINTF_NTOA_BUFFER_SIZE {
        buf[len] := c;
        len := len + 1;
      }
    }

    /** The '#' part of _ntoa_format. */
    method Hash(buf: array<char>, n: nat, base: nat, prec: nat, width: nat, f: Flags) returns (len: nat)
      requires n <= buf.Length == PRINTF_NTOA_BUFFER_SIZE
      modifies buf
      ensures len <= buf.Length && buf[..len] == HashPrefix(old(buf[..])[..n], base, prec, width, f)
    {
      len := n;
      if !f.prec && len != 0 && (len == prec || len == width) {
        len := len - 1;
        if len != 0 && base == 16 {
          len := len - 1;
        }
      }
      assert buf[..len] == old(buf[..])[..n][..len];
      NothingPushed(buf[..len]);
      if base == 16 && !f.upper {
        len := PushChar(buf, len, 'x');
      } else if base == 16 && f.upper {
        len := PushChar(buf, len, 'X');
      } else if base == 2 {
        len := PushChar(buf, len, 'b');
      }
      len := PushChar(buf, len, '0');
    }

    /** The sign part of _ntoa_format. */
    method PushSign(buf: array<char>, n: nat, neg: bool, f: Flags) returns (len: nat)
      requires n <= buf.Length == PRINTF_NTOA_BUFFER_SIZE
      modifies buf
      ensures len <= buf.Length && buf[..len] == Push(old(buf[..])[..n], Sign(neg, f))
    {
      len := n;
      NothingPushed(buf[..n]);
      if neg {
        len := PushChar(buf, len, '-');
      } else if f.plus {
        len := PushChar(buf, len, '+');
      } else if f.space {
        len := PushChar(buf, len, ' ');
      }
    }

    /** The padding part of _ntoa_format. */
    method Pad(buf: array<char>, n: nat, prec: nat, width: nat, f: Flags) returns (len: nat)
      requires n <= buf.Length == PRINTF_NTOA_BUFFER_SIZE
      modifies buf
      ensures len <= buf.Length
      ensures var d := old(buf[..])[..n];
              buf[..len] == if f.left then d
                            else if f.zeropad then PadZeros(PadZeros(d, prec), width) else PadZeros(d, prec)
    {
      len := n;
      assert buf[..n] == old(buf[..])[..n];
      if !f.left {
        len := PadBuffer(buf, len, prec);
        if f.zeropad {
          assert buf[..len] == buf[..][..len];
          len := PadBuffer(buf, len, width);
        }
      }
    }

    /** _ntoa_format. */
    method NtoaFormat(buf: array<char>, n: nat, neg: bool, base: nat, prec: nat, width: nat, f: Flags, idx: nat)
      returns (next: nat)
      requires Valid() && n <= buf.Length == PRINTF_NTOA_BUFFER_SIZE && buf != buffer
      modifies buffer, buf
      ensures var t := Format(old(buf[..])[..n], neg, base, prec, width, f);
              next == idx + |t| && Contents() == Emitted(old(Contents()), idx, t, maxlen)
    {
      var w := width;
      if !f.left && w != 0 && f.zeropad && (neg || f.plus || f.space) {
        w := w - 1;
      }
      var len := FillBuffer(buf, n, neg, base, prec, w, f);
      next := OutRev(buf, len, w, f, idx);
    }

    method FillBuffer(buf: array<char>, n: nat, neg: bool, base: nat, prec: nat, w: nat, f: Flags) returns (len: nat)
      requires n <= buf.Length == PRINTF_NTOA_BUFFER_SIZE
      modifies buf
      ensures len <= buf.Length
      ensures forall width: nat :: Width(neg, width, f) == w ==>
                buf[..len] == FormatBuffer(old(buf[..])[..n], neg, base, prec, width, f)
    {
      len := Pad(buf, n, prec, w, f);
      assert buf[..][..len] == buf[..len];
      if f.hash {
        len := Hash(buf, len, base, prec, w, f);
        assert buf[..][..len] == buf[..len];
      }
      len := PushSign(buf, len, neg, f);
    }

    /** The digit loop of _ntoa_long and _ntoa_long_long. */
    method DigitsInto(buf: array<char>, value: nat, base: nat, upper: bool) returns (len: nat)
      requires buf.Length == PRINTF_NTOA_BUFFER_SIZE && 2 <= base <= 16
      modifies buf
      ensures len <= buf.Length && buf[..len] == DigitLoop(value, base, upper, PRINTF_NTOA_BUFFER_SIZE)
    {
      hide DigitLoop;
      len := 0;
      var v: nat, more := value, true;
      assert buf[..0] == [];
      while more
        invariant len <= PRINTF_NTOA_BUFFER_SIZE && (more ==> len < PRINTF_NTOA_BUFFER_SIZE)
        invariant DigitLoop(value, base, upper, PRINTF_NTOA_BUFFER_SIZE)
               == buf[..len] + (if more then DigitLoop(v, base, upper, PRINTF_NTOA_BUFFER_SIZE - len) else [])
        decreases PRINTF_NTOA_BUFFER_SIZE - len, more
      {
        len, v, more := DigitTurn(buf, len, v, base, upper);
      }
    }

    method DigitTurn(buf: array<char>, n: nat, v: nat, base: nat, upper: bool) returns (len: nat, q: nat, more: bool)
      requires n < buf.Length == PRINTF_NTOA_BUFFER_SIZE && 2 <= base <= 16
      modifies buf
      ensures len == n + 1 && more == (q != 0 && len < PRINTF_NTOA_BUFFER_SIZE)
      ensures buf[..len] + (if more then DigitLoop(q, base, upper, PRINTF_NTOA_BUFFER_SIZE - len) else [])
           == old(buf[..n]) + DigitLoop(v, base, upper, PRINTF_NTOA_BUFFER_SIZE - n)
    {
      hide DigitLoop;
      var c;
      c, q := OneDigit(v, base, upper, buf[..n], PRINTF_NTOA_BUFFER_SIZE - n);
      buf[n] := c;
      assert buf[..n + 1] == old(buf[..n]) + [c];
      len := n + 1;
      more := q != 0 && len < PRINTF_NTOA_BUFFER_SIZE;
    }

    /** _ntoa_long and _ntoa_long_long, which differ in the type of the value. */
    method NtoaLong(value: nat, neg: bool, base: nat, prec: nat, width: nat, f: Flags, idx: nat) returns (next: nat)
      requires Valid() && 2 <= base <= 16
      modifies buffer
      ensures var t := Ntoa(value, neg, base, prec, width, f);
              next == idx + |t| && Contents() == Emitted(old(Contents()), idx, t, maxlen)
    {
      var buf := new char[PRINTF_NTOA_BUFFER_SIZE](_ => '\0');
      var len := 0;
      assert buf[..0] == [];
      var g := if value == 0 then f.(hash := false) else f;
      if !f.prec || value != 0 {
        len := DigitsInto(buf, value, base, f.upper);
      }
      assert buf[..][..len] == buf[..len];
      next := NtoaFormat(buf, len, neg, base, prec, width, g, idx);
    }

    // ----- The conversions

    /** %c. */
    method CharConversion(s: Spec, bits: nat, idx: nat) returns (next: nat)
      requires Valid()
      modifies buffer
      ensures var t := CharField(s, bits);
              next == idx + |t| && Contents() == Emitted(old(Contents()), idx, t, maxlen)
    {
      var c := Unsigned(bits, 0x100) as char;
      next := idx;
      if s.f.left {
        EmittedJoin(Contents(), idx, [c], Repeat(' ', s.width - 1), maxlen);
        next := OutNext(c, next);
        next := OutPad(' ', 1, s.width, next);
      } else {
        EmittedJoin(Contents(), idx, Repeat(' ', s.width - 1), [c], maxlen);
        next := OutPad(' ', 1, s.width, next);
        next := OutNext(c, next);
      }
    }

    /** A text and blanks up to the width, behind it or before. */
    method OutTextAndPad(t: Text, l: nat, width: nat, idx: nat) returns (next: nat)
      requires Valid() && l == |t|
      modifies buffer
      ensures var r := t + Repeat(' ', width - |t|);
              next == idx + |r| && Contents() == Emitted(old(Contents()), idx, r, maxlen)
    {
      EmittedJoin(Contents(), idx, t, Repeat(' ', width - |t|), maxlen);
      next := OutText(t, idx);
      next := OutPad(' ', l, width, next);
    }

    method OutPadAndText(t: Text, l: nat, width: nat, idx: nat) returns (next: nat)
      requires Valid() && l == |t|
      modifies buffer
      ensures var r := Repeat(' ', width - |t|) + t;
              next == idx + |r| && Contents() == Emitted(old(Contents()), idx, r, maxlen)
    {
      EmittedJoin(Contents(), idx, Repeat(' ', width - |t|), t, maxlen);
      next := OutPad(' ', l, width, idx);
      next := OutText(t, next);
    }

    /** %s; `l` is the length that counts for the padding, `t` what the output loop
        reaches. */
    method StringConversion(s: Spec, str: Text, idx: nat) returns (next: nat)
      requires Valid()
      modifies buffer
      ensures var t := StringField(s, str);
              next == idx + |t| && Contents() == Emitted(old(Contents()), idx, t, maxlen)
    {
      var l := if s.prec != 0 && s.prec < |str| then s.prec else |str|;
      if s.f.prec {
        l := if l < s.prec then l else s.prec;
      } else {
        l := |str|;
      }
      var t := if s.f.prec && s.prec < |str| then str[..s.prec] else str;
      if s.f.left {
        next := OutTextAndPad(t, l, s.width, idx);
      } else {
        next := OutPadAndText(t, l, s.width, idx);
      }
    }

    /** The switch over the conversion specifier. */
    method Conversion(c: char, s: Spec, va: Args, idx: nat) returns (next: nat)
      requires Valid()
      modifies buffer
      ensures var t := FieldText(c, s, va);
              next == idx + |t| && Contents() == Emitted(old(Contents()), idx, t, maxlen)
    {
      var arg := va.at(s.k);
      if IsInteger(c) {
        var v := IntegerValue(c, s.f, arg.bits);
        next := NtoaLong(Abs(v), v < 0, Base(c), s.prec, s.width, IntegerFlags(c, s.f), idx);
      } else if IsFloat(c) {
        next := OutText(va.float(arg, c, s.prec, s.width, s.f), idx);
      } else if c == 'c' {
        next := CharConversion(s, arg.bits, idx);
      } else if c == 's' {
        next := StringConversion(s, arg.str, idx);
      } else if c == 'p' {
        next := NtoaLong(Unsigned(arg.bits, 0x1_0000_0000), false, 16, s.prec, 8,
                         s.f.(zeropad := true, upper := true), idx);
      } else {
        next := OutNext(c, idx);
      }
    }

    /** _vsnprintf, for a format that does not end inside a specification. */
    method VSnprintf(fmt: Text, va: Args) returns (ret: nat)
      requires Valid() && !EndsInside(fmt, 0)
      modifies buffer
      ensures var t := Rendered(fmt, va);
              ret == |t| && Contents() == Ended(Emitted(old(Contents()), 0, t, maxlen), |t|, maxlen)
    {
      RenderedExactlyWhen(fmt, 0, va, 0);
      ghost var start, sofar: Text := Contents(), [];
      var i: nat, k: nat := 0, 0;
      ret := 0;
      NothingBefore(Render(fmt, 0, va, 0));
      while i < |fmt|
        invariant i <= |fmt| && ret == |sofar| && Contents() == Emitted(start, 0, sofar, maxlen)
        invariant Render(fmt, 0, va, 0) == Before(sofar, Render(fmt, i, va, k))
      {
        ghost var text;
        i, k, ret, text := Turn(fmt, va, i, k, ret, start, sofar);
        sofar := sofar + text;
      }
      assert sofar + [] == sofar;
      Out('\0', if ret < maxlen || maxlen == 0 then ret else maxlen - 1);
    }

    /** One turn of its loop. */
    method Turn(fmt: Text, va: Args, i: nat, k: nat, idx: nat, ghost start: Text, ghost sofar: Text)
      returns (j: nat, m: nat, next: nat, ghost text: Text)
      requires Valid() && i < |fmt| && Before(sofar, Render(fmt, i, va, k)).Some?
      requires idx == |sofar| && Contents() == Emitted(start, 0, sofar, maxlen)
      modifies buffer
      ensures i < j <= |fmt| && next == |sofar + text| && Contents() == Emitted(start, 0, sofar + text, maxlen)
      ensures Before(sofar, Render(fmt, i, va, k)) == Before(sofar + text, Render(fmt, j, va, m))
    {
      hide FieldText, ReadSpec;
      if fmt[i] != '%' {
        text := [fmt[i]];
        EmittedJoin(start, 0, sofar, text, maxlen);
        next := OutNext(fmt[i], idx);
        j, m := i + 1, k;
        BeforeJoin(sofar, text, Render(fmt, j, va, m));
      } else {
        ghost var s, rest := RenderConversion(fmt, i, va, k);
        j, m, next, text := TurnConversion(fmt, va, i, k, idx, start, sofar);
        BeforeJoin(sofar, text, rest);
      }
    }

    method TurnConversion(fmt: Text, va: Args, i: nat, k: nat, idx: nat, ghost start: Text, ghost sofar: Text)
      returns (j: nat, m: nat, next: nat, ghost text: Text)
      requires Valid() && i < |fmt| && ReadSpec(fmt, i + 1, va, k).i < |fmt|
      requires idx == |sofar| && Contents() == Emitted(start, 0, sofar, maxlen)
      modifies buffer
      ensures next == |sofar + text| && Contents() == Emitted(start, 0, sofar + text, maxlen)
      ensures var s := ReadSpec(fmt, i + 1, va, k);
              && text == FieldText(fmt[s.i], s, va) && j == s.i + 1
              && m == if Takes(fmt[s.i]) then s.k + 1 else s.k
    {
      var s := ParseSpec(fmt, i + 1, va, k);
      text := FieldText(fmt[s.i], s, va);
      EmittedJoin(start, 0, sofar, text, maxlen);
      next := Conversion(fmt[s.i], s, va, idx);
      j, m := s.i + 1, if Takes(fmt[s.i]) then s.k + 1 else s.k;
    }
  }

  /** snprintf_: the returned length is that of the whole output, whatever the count; with
      room for anything, the buffer holds as much of it as leaves room for the end mark,
      and nothing at or behind the count is written. */
  method Snprintf(buffer: array<char>, isNull: bool, count: nat, fmt: Text, va: Args) returns (ret: nat)
    requires !isNull ==> count <= buffer.Length
    requires !EndsInside(fmt, 0)
    modifies buffer
    ensures ret == |Rendered(fmt, va)|
    ensures isNull || count == 0 ==> buffer[..] == old(buffer[..])
    ensures !isNull && count > 0 ==>
              var n := if ret < count then ret else count - 1;
              && buffer[..n] == Rendered(fmt, va)[..n] && buffer[n] == '\0'
              && buffer[n + 1..] == old(buffer[..])[n + 1..]
  {
    var o := new Output(buffer, isNull, count);
    if isNull {
      var nothing := new char[0];
      o := new Output(nothing, isNull, count);
    }
    ret := o.VSnprintf(fmt, va);
    ghost var t := Rendered(fmt, va);
    if !isNull {
      if count > 0 {
        TruncationIsAPrefix(old(buffer[..]), t, count);
      } else {
        NothingEmitted(old(buffer[..]), 0, t);
      }
    }
  }

  /** The end mark, where there is room for one: a count of zero makes its place the
      largest there is. */
  function Ended(b: Text, n: nat, maxlen: nat): Text {
    Put(b, if n < maxlen || maxlen == 0 then n else maxlen - 1, '\0', maxlen)
  }

  lemma {:induction false} NothingEmitted(b: Text, idx: nat, t: Text)
    ensures Emitted(b, idx, t, 0) == b
    decreases |t|
  {
    if t != [] {
      NothingEmitted(b, idx + 1, t[1..]);
    }
  }

  lemma NothingBefore(r: Option<Text>)
    ensures Before([], r) == r
  {
    if r.Some? {
      assert [] + r.value == r.value;
    }
  }

  lemma BeforeJoin(a: Text, b: Text, r: Option<Text>)
    ensures Before(a, Before(b, r)) == Before(a + b, r)
  {
    if r.Some? {
      Associative(a, b, r.value);
    }
  }

  // ----- Reading a conversion specification

  /** _atoi: the decimal value of the digits, modulo two to the 32. */
  method Atoi(fmt: Text, i: nat) returns (n: nat, j: nat)
    requires i <= |fmt|
    ensures (n, j) == ReadNumber(fmt, i, 0)
    ensures j == DigitsEnd(fmt, i) && n == DecimalValue(fmt[i..j]) % 0x1_0000_0000
  {
    NumberIsRead(fmt, i, i);
    n, j := 0, i;
    while IsDecimal(At(fmt, j))
      invariant j <= |fmt| && ReadNumber(fmt, j, n) == ReadNumber(fmt, i, 0)
      decreases |fmt| - j
    {
      n := (n * 10 + (fmt[j] - '0') as nat) % 0x1_0000_0000;
      j := j + 1;
    }
  }

  /** The loop over the flags. */
  method ParseFlags(fmt: Text, i: nat) returns (f: Flags, j: nat)
    requires i <= |fmt|
    ensures (f, j) == ReadFlags(fmt, i, NO_FLAGS)
  {
    f, j := NO_FLAGS, i;
    var n := true;
    while n
      invariant j <= |fmt|
      invariant n ==> ReadFlags(fmt, j, f) == ReadFlags(fmt, i, NO_FLAGS)
      invariant !n ==> (f, j) == ReadFlags(fmt, i, NO_FLAGS)
      decreases |fmt| - j, n
    {
      match WithFlag(At(fmt, j), f)
      case Some(g) =>
        f := g;
        j := j + 1;
      case None =>
        n := false;
    }
  }

  method ParseWidth(fmt: Text, r: Spec, va: Args) returns (s: Spec)
    requires r.i <= |fmt|
    ensures s == ReadWidth(fmt, r, va)
  {
    s := r;
    if IsDecimal(At(fmt, s.i)) {
      var n, j := Atoi(fmt, s.i);
      s := s.(width := n, i := j);
    } else if At(fmt, s.i) == '*' {
      var w := Signed(va.at(s.k).bits, 0x1_0000_0000);
      s := s.(width := Abs(w), f := if w < 0 then s.f.(left := true) else s.f, i := s.i + 1, k := s.k + 1);
    }
  }

  method ParsePrecision(fmt: Text, r: Spec, va: Args) returns (s: Spec)
    requires r.i <= |fmt|
    ensures s == ReadPrecision(fmt, r, va)
  {
    s := r;
    if At(fmt, s.i) == '.' {
      s := s.(f := s.f.(prec := true), i := s.i + 1);
      if IsDecimal(At(fmt, s.i)) {
        var n, j := Atoi(fmt, s.i);
        s := s.(prec := n, i := j);
      } else if At(fmt, s.i) == '*' {
        var p := Signed(va.at(s.k).bits, 0x1_0000_0000);
        s := s.(prec := if p > 0 then p else 0, i := s.i + 1, k := s.k + 1);
      }
    }
  }

  /** Flags, width, precision and length. */
  method ParseSpec(fmt: Text, i: nat, va: Args, k: nat) returns (s: Spec)
    requires i <= |fmt|
    ensures s == ReadSpec(fmt, i, va, k)
  {
    var f, j := ParseFlags(fmt, i);
    s := ParseWidth(fmt, Spec(f, 0, 0, j, k), va);
    s := ParsePrecision(fmt, s, va);
    s := ReadLength(fmt, s);
  }

  lemma NothingPushed(s: Text)
    ensures Push(s, []) == s
  {
    assert s + [] == s;
  }

  /** The body of the digit loop. */
  method OneDigit(v: nat, base: nat, upper: bool, ghost before: Text, ghost room: nat) returns (c: char, q: nat)
    requires 2 <= base <= 16 && room > 0
    ensures before + DigitLoop(v, base, upper, room)
         == before + [c] + (if q != 0 && room > 1 then DigitLoop(q, base, upper, room - 1) else [])
  {
    hide DigitLoop;
    c, q := DigitChar(v % base, upper), v / base;
    ghost var rest := FirstDigit(v, base, upper, room);
    Associative(before, [c], rest);
  }

  lemma FirstDigit(v: nat, base: nat, upper: bool, room: nat) returns (rest: Text)
    requires 2 <= base <= 16 && room > 0
    ensures rest == if v / base != 0 && room > 1 then DigitLoop(v / base, base, upper, room - 1) else []
    ensures DigitLoop(v, base, upper, room) == [DigitChar(v % base, upper)] + rest
  {
    rest := if v / base == 0 then [] else DigitLoop(v / base, base, upper, room - 1);
  }

  lemma ReverseLast(sofar: Text, s: Text, t: Text)
    requires s != [] && t == s[..|s| - 1]
    ensures sofar + Reverse(s) == sofar + [s[|s| - 1]] + Reverse(t)
  {
    var c := [s[|s| - 1]];
    assert s == t + c;
    ReverseJoin(t, c);
    assert c[1..] == [] && Reverse(c) == [] + c == c;
    Associative(sofar, c, Reverse(t));
  }
}
