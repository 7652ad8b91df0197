/** The conversions of printf.c against section 7.21.6.1 of ISO/IEC 9899:2011, from the text
    of the format on. What the standard reads and prints is written down here without any
    function of the code: from the characters of a specification, numbers of any size, a
    negative precision argument taken as none, and an hh argument as a signed char. */
module PrintfStandard {
  import opened Common
  import opened PrintfText
  import opened PrintfIso
  import opened PrintfAlt
  import opened PrintfRead
  import opened PrintfFormat
  import opened PrintfSpec

  // ----- What the standard reads

  /** A conversion specification: its flag characters, with a '-' for a negative width
      argument, its width and precision, its length modifier, and the places behind it in
      the format and among the arguments. */
  datatype Directive = Directive(flags: Text, width: nat, prec: Option<nat>, length: Text, i: nat, k: nat)

  /** The low bits of an argument, in two's complement if its type is signed. */
  function StandardValue(signed: bool, size: nat, bits: nat): int
    requires size > 0
  {
    var r := bits % size;
    if signed && r >= size / 2 then r - size else r
  }

  /** A number is what its digits say, or an int argument. */
  function StandardNumber(text: Text, va: Args, k: nat): int
    requires IsWidth(text)
  {
    if text == "*" then StandardValue(true, 0x1_0000_0000, va.at(k).bits) else DecimalValue(text)
  }

  /** A precision of a dot alone is zero; a negative one counts as if there were none. */
  function StandardPrecision(text: Text, va: Args, k: nat): Option<nat>
    requires IsPrecision(text)
  {
    if text == [] then None else
    var n := StandardNumber(text[1..], va, k);
    if n < 0 then None else Some(n)
  }

  /** How many arguments the stars of a text take. */
  function Stars(text: Text): nat {
    if text == [] then 0 else (if text[0] == '*' then 1 else 0) + Stars(text[1..])
  }

  function StandardReading(fmt: Text, i: nat, va: Args, k: nat): (t: Directive)
    requires i <= |fmt|
    ensures t.i == SpecEnd(fmt, i)
  {
    var a := FlagsEnd(fmt, i);
    var b := WidthEnd(fmt, a);
    var c := PrecisionEnd(fmt, b);
    var e := LengthEnd(fmt, c);
    WidthFound(fmt, a);
    PrecisionFound(fmt, b);
    var width := StandardNumber(fmt[a..b], va, k);
    Directive(fmt[i..a] + (if width < 0 then "-" else ""), Abs(width),
              StandardPrecision(fmt[b..c], va, k + Stars(fmt[a..b])),
              fmt[c..e], e, k + Stars(fmt[a..b]) + Stars(fmt[b..c]))
  }

  // ----- What the code reads against it

  /** A number too large wraps. */
  predicate Wrapped(code: nat, standard: nat) {
    code < 0x1_0000_0000 && (code == standard || standard >= 0x1_0000_0000)
  }

  /** The code's reading of a specification that the standard reads as `t`: the same flags,
      size and place, numbers that may have wrapped, and zero for an omitted precision. */
  predicate Against(s: Spec, t: Directive) {
    && s.i == t.i && s.k == t.k
    && SameFlags(s.f, t.flags) && Size(s.f) == LengthSize(t.length)
    && Wrapped(s.width, t.width)
    && (t.prec.Some? ==> s.f.prec && Wrapped(s.prec, t.prec.value))
    && (t.prec.None? ==> s.prec == 0)
  }

  predicate SameFlags(f: Flags, flags: Text) {
    && f.zeropad == Has(flags, '0') && f.left == Has(flags, '-') && f.plus == Has(flags, '+')
    && f.space == Has(flags, ' ') && f.hash == Has(flags, '#') && !f.upper
  }

  lemma Modulo(v: nat)
    ensures Wrapped(v % 0x1_0000_0000, v)
  {}

  lemma {:induction false} DigitsHaveNoStars(text: Text)
    requires AllDecimal(text)
    ensures Stars(text) == 0 && text != "*"
  {
    if text != [] {
      assert IsDecimal(text[0]);
      assert AllDecimal(text[1..]) by {
        assert forall k :: 0 <= k < |text| - 1 ==> text[1..][k] == text[k + 1];
      }
      DigitsHaveNoStars(text[1..]);
    }
  }

  lemma SameSigned(bits: nat, size: nat)
    requires size > 1
    ensures Signed(bits, size) == StandardValue(true, size, bits)
    ensures Abs(Signed(bits, size)) < size
  {}

  lemma WidthAgainst(fmt: Text, r: Spec, va: Args) returns (s: Spec, text: Text, n: int)
    requires r.i <= |fmt| && r.width == 0
    ensures text == fmt[r.i..WidthEnd(fmt, r.i)] && IsWidth(text) && n == StandardNumber(text, va, r.k)
    ensures s == ReadWidth(fmt, r, va)
    ensures s == r.(i := WidthEnd(fmt, r.i), k := r.k + Stars(text), width := s.width,
                    f := r.f.(left := r.f.left || n < 0))
    ensures Wrapped(s.width, Abs(n))
  {
    hide StandardValue, Stars, DecimalValue, DigitsEnd, ReadWidth, AllDecimal, Wrapped;
    s, text := ReadWidth(fmt, r, va), fmt[r.i..WidthEnd(fmt, r.i)];
    WidthFound(fmt, r.i);
    n := StandardNumber(text, va, r.k);
    if At(fmt, r.i) == '*' {
      assert text == "*";
      OneStar();
      s := StarAgainst(fmt, r, va, n);
    } else {
      DigitsHaveNoStars(text);
      s := DigitsAgainst(fmt, r, va, text);
    }
  }

  lemma StarAgainst(fmt: Text, r: Spec, va: Args, n: int) returns (s: Spec)
    requires r.i <= |fmt| && At(fmt, r.i) == '*'
    requires n == StandardValue(true, 0x1_0000_0000, va.at(r.k).bits)
    ensures s == ReadWidth(fmt, r, va)
             == r.(i := r.i + 1, k := r.k + 1, width := s.width, f := r.f.(left := r.f.left || n < 0))
    ensures Wrapped(s.width, Abs(n))
  {
    hide Signed, StandardValue;
    s := ReadWidth(fmt, r, va);
    SameSigned(va.at(r.k).bits, 0x1_0000_0000);
  }

  lemma DigitsAgainst(fmt: Text, r: Spec, va: Args, text: Text) returns (s: Spec)
    requires r.i <= |fmt| && r.width == 0 && At(fmt, r.i) != '*'
    requires text == fmt[r.i..DigitsEnd(fmt, r.i)] && AllDecimal(text)
    ensures s == ReadWidth(fmt, r, va) == r.(i := DigitsEnd(fmt, r.i), width := s.width)
    ensures Wrapped(s.width, DecimalValue(text))
  {
    hide DecimalValue, DigitsEnd, ReadNumber, AllDecimal, Wrapped;
    s := ReadWidth(fmt, r, va);
    WidthIsRead(fmt, r, va);
    Modulo(DecimalValue(text));
    NoDigits(text);
  }

  lemma OneStar()
    ensures Stars("*") == 1 && Stars(".*") == 1
  {
    assert ".*"[1..] == "*";
  }

  lemma NoDigits(text: Text)
    ensures text == [] ==> DecimalValue(text) == 0
  {}

  lemma PrecisionAgainst(fmt: Text, r: Spec, va: Args) returns (s: Spec, text: Text, p: Option<nat>)
    requires r.i <= |fmt| && r.prec == 0 && !r.f.prec
    ensures text == fmt[r.i..PrecisionEnd(fmt, r.i)] && IsPrecision(text) && p == StandardPrecision(text, va, r.k)
    ensures s == ReadPrecision(fmt, r, va)
    ensures s == r.(i := PrecisionEnd(fmt, r.i), k := r.k + Stars(text), prec := s.prec,
                    f := r.f.(prec := r.i < s.i))
    ensures if p.Some? then r.i < s.i && Wrapped(s.prec, p.value) else s.prec == 0
  {
    hide Signed, StandardValue, Stars, DecimalValue, DigitsEnd, ReadNumber;
    s, text := ReadPrecision(fmt, r, va), fmt[r.i..PrecisionEnd(fmt, r.i)];
    PrecisionFound(fmt, r.i);
    p := StandardPrecision(text, va, r.k);
    if At(fmt, r.i) != '.' {
      assert text == [];
      DigitsHaveNoStars(text);
    } else {
      assert text[1..] == fmt[r.i + 1..WidthEnd(fmt, r.i + 1)];
      if At(fmt, r.i + 1) == '*' {
        assert text == ".*" && text[1..] == "*";
        OneStar();
        SameSigned(va.at(r.k).bits, 0x1_0000_0000);
      } else {
        assert AllDecimal(text[1..]);
        DotHasNoStar(text);
        DigitsHaveNoStars(text[1..]);
        PrecisionIsRead(fmt, r, va);
        Modulo(DecimalValue(text[1..]));
        NoDigits(text[1..]);
      }
    }
  }

  lemma DotHasNoStar(text: Text)
    requires text != [] && text[0] == '.'
    ensures Stars(text) == Stars(text[1..])
  {}

  lemma FlagsAgainst(f: Flags, run: Text, negative: bool)
    requires f == Flagged(NO_FLAGS, run)
    ensures SameFlags(f.(left := f.left || negative), run + (if negative then "-" else ""))
  {
    hide Has;
    HasBehind(run, negative, '0');
    HasBehind(run, negative, '-');
    HasBehind(run, negative, '+');
    HasBehind(run, negative, ' ');
    HasBehind(run, negative, '#');
  }

  lemma HasBehind(run: Text, negative: bool, c: char)
    ensures Has(run + (if negative then "-" else ""), c) <==> Has(run, c) || (negative && c == '-')
  {}

  /** The code reads a specification as the standard does, up to wrapping; only it takes an
      omitted precision for zero. */
  lemma SpecAgainst(fmt: Text, i: nat, va: Args, k: nat) returns (s: Spec, t: Directive)
    requires i <= |fmt|
    ensures s == ReadSpec(fmt, i, va, k) && t == StandardReading(fmt, i, va, k) && Against(s, t)
  {
    hide ReadWidth, ReadPrecision, ReadLength, StandardNumber, StandardPrecision, Wrapped, SameFlags, Flagged, Has,
         Stars, LengthSize, Size, IsWidth, IsPrecision;
    FlagsAreRead(fmt, i, NO_FLAGS);
    var f := ReadFlags(fmt, i, NO_FLAGS).0;
    var w, wide, n := WidthAgainst(fmt, Spec(f, 0, 0, FlagsEnd(fmt, i), k), va);
    NoneFlagged(fmt[i..FlagsEnd(fmt, i)]);
    FlagsAgainst(f, fmt[i..FlagsEnd(fmt, i)], n < 0);
    var p, precise, prec := PrecisionAgainst(fmt, w, va);
    LengthIsRead(fmt, p);
    s, t := ReadLength(fmt, p), StandardReading(fmt, i, va, k);
    OtherFlags(w.f, p.f, s.f, t.flags);
  }

  lemma NoneFlagged(run: Text)
    ensures var f := Flagged(NO_FLAGS, run);
            NoLength(f) && !f.prec
  {}

  lemma OtherFlags(f: Flags, g: Flags, h: Flags, flags: Text)
    requires SameFlags(f, flags) && g == f.(prec := g.prec)
    requires h == g.(chr := h.chr, short := h.short, long := h.long, longLong := h.longLong)
    ensures SameFlags(h, flags)
  {}

  // ----- What the standard prints

  predicate IsStandardInteger(c: char) {
    c in "diouxX"
  }

  function StandardBase(c: char): (b: nat)
    ensures 2 <= b <= 16
  {
    match c
    case 'o' => 8
    case 'x' => 16
    case 'X' => 16
    case 'b' => 2
    case _ => 10
  }

  /** A negative number has a minus sign; a signed conversion puts a plus or a blank in the
      place of the sign if the flags ask for it, the plus first. */
  function StandardSign(c: char, negative: bool, flags: Text): Text {
    if c != 'd' && c != 'i' then ""
    else if negative then "-" else if Has(flags, '+') then "+" else if Has(flags, ' ') then " " else ""
  }

  function StandardPrefix(c: char, v: nat, flags: Text): Text {
    if !Has(flags, '#') || v == 0 then "" else if c == 'x' then "0x" else if c == 'X' then "0X" else ""
  }

  /** At least as many digits as the precision, 1 if there is none; with '#', an octal number
      begins with a zero. */
  function StandardDigits(c: char, v: nat, prec: Option<nat>, flags: Text): Text {
    var n := Numeral(v, StandardBase(c), c == 'X');
    var digits := Repeat('0', (if prec.Some? then prec.value else 1) - |n|) + n;
    if c == 'o' && Has(flags, '#') && (digits == [] || digits[0] != '0') then "0" + digits else digits
  }

  function StandardInteger(c: char, t: Directive, bits: nat): int {
    StandardValue(c == 'd' || c == 'i', LengthSize(t.length), bits)
  }

  /** An integer; '0' pads with zeros unless there is a precision or '-'. */
  function StandardField(c: char, t: Directive, bits: nat): Text {
    var v := StandardInteger(c, t, bits);
    Field(StandardSign(c, v < 0, t.flags) + StandardPrefix(c, Abs(v), t.flags),
          StandardDigits(c, Abs(v), t.prec, t.flags), t.width, Has(t.flags, '-'),
          Has(t.flags, '0') && t.prec.None?)
  }

  // ----- When the code prints it

  /** A negative number of a signed char: the code takes it for a positive one. */
  predicate IsNegativeChar(c: char, length: Text, bits: nat) {
    (c == 'd' || c == 'i') && length == "hh" && bits % 0x100 >= 0x80
  }

  /** What the code prints for a precision of zero is right without one: a digit is printed
      anyway, and no zeros are to fill the width. */
  predicate DoesWithout(v: nat, neg: bool, base: nat, width: nat, h: Flags)
    requires 2 <= base <= 16
  {
    v != 0 && (h.zeropad && !h.left ==> width <= |Sign(neg, h)| + |Numeral(v, base, h.upper)|)
  }

  /** The same with a prefix. */
  predicate AltDoesWithout(v: nat, base: nat, width: nat, h: Flags)
    requires 2 <= base <= 16
  {
    v != 0 && (h.zeropad && !h.left ==> width <= (if base == 16 then 2 else 1) + |Numeral(v, base, h.upper)|)
  }

  /** The flags that the code would go on with if it saw an omitted precision as such. */
  function OmittedFlags(c: char, f: Flags, t: Directive): Flags {
    IntegerFlags(c, f.(prec := t.prec.Some?))
  }

  /** When the code prints what the standard asks for: it reads the same numbers, the value
      is not one of a negative char, digits, prefix and padding meet the conditions of the
      conversion buffer, and an omitted precision makes no difference. */
  predicate AsStandard(c: char, s: Spec, t: Directive, bits: nat) {
    var v, g, h := IntegerValue(c, s.f, bits), IntegerFlags(c, s.f), OmittedFlags(c, s.f, t);
    && s.width == t.width && (t.prec.Some? ==> s.prec == t.prec.value) && !IsNegativeChar(c, t.length, bits)
    && (if g.hash then
          if s.f.prec && t.prec.None? then AltDoesWithout(Abs(v), Base(c), s.width, h)
          else MeetsAlt(Abs(v), Base(c), s.prec, s.width, g)
        else
          && MeetsIso(Abs(v), v < 0, Base(c), s.prec, s.width, g)
          && (s.f.prec && t.prec.None? ==> DoesWithout(Abs(v), v < 0, Base(c), s.width, h)))
  }

  // ----- Negative chars

  lemma {:induction false} NoMinusInRepeat(c: char, n: int)
    requires c != '-'
    ensures '-' !in Repeat(c, n)
  {
    if n > 0 {
      NoMinusInRepeat(c, n - 1);
    }
  }

  lemma {:induction false} NoMinusInReverse(s: Text)
    requires '-' !in s
    ensures '-' !in Reverse(s)
  {
    if s != [] {
      NoMinusInReverse(s[1..]);
    }
  }

  lemma {:induction false} NoMinusInDigits(v: nat, base: nat, upper: bool, room: nat)
    requires 2 <= base <= 16
    ensures '-' !in DigitLoop(v, base, upper, room)
    decreases room
  {
    hide DigitLoop;
    if room > 0 {
      var c, q := FirstDigit(v, base, upper, room);
      var rest := if q == 0 then [] else DigitLoop(q, base, upper, room - 1);
      if q != 0 {
        NoMinusInDigits(q, base, upper, room - 1);
      }
      NotInJoin('-', [c], rest);
    }
  }

  lemma NotInJoin(c: char, a: Text, b: Text)
    requires c !in a && c !in b
    ensures c !in a + b
  {}

  /** The code prints no minus sign for a number that is not negative. */
  lemma NoMinus(v: nat, base: nat, prec: nat, width: nat, f: Flags)
    requires Proper(v, false, base, prec, f)
    ensures '-' !in Ntoa(v, false, base, prec, width, f)
  {
    hide Ntoa, NtoaDigits, PadZeros, Zeros;
    var p, core, t := CodeShape(v, false, base, prec, width, f);
    NoMinusInPadded(v, base, Zeros(false, prec, width, f), f);
    NoMinusInReverse(p);
    NoMinusInRepeat(' ', width - |core|);
  }

  lemma NoMinusInPadded(v: nat, base: nat, n: nat, f: Flags)
    requires 2 <= base <= 16
    ensures '-' !in PadZeros(NtoaDigits(v, base, f), n)
  {
    var d := NtoaDigits(v, base, f);
    NoMinusInDigits(v, base, f.upper, PRINTF_NTOA_BUFFER_SIZE);
    var z := ZeroPadding(d, n);
    NoMinusInRepeat('0', Min(n, PRINTF_NTOA_BUFFER_SIZE) - |d|);
    NotInJoin('-', d, z);
  }

  lemma MinusInField(v: nat, base: nat, prec: nat, width: nat, f: Flags)
    requires 2 <= base <= 16
    ensures '-' in Iso(v, true, base, prec, width, f)
  {
    assert Sign(true, f) == ['-'];
  }

  // ----- Numbers that wrap

  /** A width or precision that does not fit 32 bits makes a field too long for the code. */
  lemma TooLong(v: nat, neg: bool, base: nat, prec: nat, width: nat, f: Flags, w: nat, neg': bool, p: nat, g: Flags,
                w': nat)
    requires Proper(w, neg', base, p, g) && Proper(v, neg, base, prec, f) && w' < 0x1_0000_0000
    requires width >= 0x1_0000_0000 || prec >= 0x1_0000_0000
    requires p < 0x1_0000_0000
    ensures Ntoa(w, neg', base, p, w', g) != Iso(v, neg, base, prec, width, f)
  {
    var n := CodeMeasures(w, neg', base, p, w', g);
    IsoMeasures(v, neg, base, prec, width, f);
  }

  lemma AltTooLong(v: nat, base: nat, prec: nat, width: nat, h: Flags, p: nat, w: nat, g: Flags)
    requires ProperAlt(v, base, p, g) && ProperAlt(v, base, prec, h) && w < 0x1_0000_0000
    requires width >= 0x1_0000_0000 || prec >= 0x1_0000_0000
    ensures Ntoa(v, false, base, p, w, g) != AltField(v, base, prec, width, h)
  {
    hide Ntoa, AltField, Filled, AltCore, Padded;
    AltFieldIsLong(v, base, prec, width, h);
    if v == 0 {
      ZeroPrintsAlike(base, p, w, g);
      ZeroIsShort(base, p, w, g.(hash := false));
    } else {
      var d, n := AltDigits(v, base, g);
      var core, t := AltCodeShape(v, base, p, w, g);
      FilledIsShort(n, p, w, g, base);
      PaddedMeasures(core, w, g);
    }
  }

  lemma ZeroIsShort(base: nat, prec: nat, width: nat, f: Flags)
    requires Proper(0, false, base, prec, f)
    ensures |Ntoa(0, false, base, prec, width, f)| <= Max(33, width)
  {
    hide Ntoa, Zeros;
    var n := CodeMeasures(0, false, base, prec, width, f);
  }

  lemma FilledIsShort(n: Text, prec: nat, width: nat, f: Flags, base: nat)
    requires |n| <= 22
    ensures |AltCore(Filled(n, prec, width, f), base, width, f)| <= 34
  {}

  lemma AltFieldIsLong(v: nat, base: nat, prec: nat, width: nat, h: Flags)
    requires ProperAlt(v, base, prec, h)
    ensures |AltField(v, base, prec, width, h)| >= Max(prec, width)
  {
    BodyShape(v, false, base, prec, h.(hash := false));
    assert Body(v, base, prec, h) == Body(v, base, prec, h.(hash := false));
    FieldMeasures(AltPrefix(v, base, h), AltBody(v, base, prec, h), width, h.left, h.zeropad && !h.prec);
  }

  // ----- Omitted precisions

  /** With a digit to print anyway, a precision of zero only keeps zeros from filling the
      width. */
  lemma OmittedField(v: nat, neg: bool, base: nat, width: nat, g: Flags, h: Flags)
    requires 2 <= base <= 16 && v != 0
    requires g.prec && !h.prec && g.left == h.left && g.upper == h.upper && Sign(neg, g) == Sign(neg, h)
    requires DoesWithout(v, neg, base, width, h)
    ensures Iso(v, neg, base, 0, width, g) == Iso(v, neg, base, 0, width, h)
  {
    var n, sign := Numeral(v, base, h.upper), Sign(neg, h);
    NumeralIsThere(v, base, h.upper);
    Empty(n);
    NoRepeat('0', -|n|);
    NoRepeat('0', 1 - |n|);
    if h.zeropad && !h.left {
      var fill := width - |sign| - |n|;
      NoRepeat('0', fill);
      NoRepeat(' ', fill);
      Empty(sign);
    }
  }

  lemma NumeralIsThere(v: nat, base: nat, upper: bool)
    requires 2 <= base <= 16 && v != 0
    ensures |Numeral(v, base, upper)| >= 1
  {}

  /** Otherwise the standard prints more digits and signs than the code. */
  lemma OmittedMatters(v: nat, neg: bool, base: nat, width: nat, g: Flags, h: Flags)
    requires Proper(v, neg, base, 0, g) && Proper(v, neg, base, 0, h)
    requires g.prec && !h.prec && g.left == h.left && g.upper == h.upper && Sign(neg, g) == Sign(neg, h)
    requires !DoesWithout(v, neg, base, width, h)
    ensures Ntoa(v, neg, base, 0, width, g) != Iso(v, neg, base, 0, width, h)
  {
    var n := CodeMeasures(v, neg, base, 0, width, g);
    IsoMeasures(v, neg, base, 0, width, h);
    InkSign(neg, h);
  }

  lemma OmittedExactlyWhen(v: nat, neg: bool, base: nat, width: nat, g: Flags, h: Flags)
    requires Proper(v, neg, base, 0, g) && Proper(v, neg, base, 0, h)
    requires g.prec && !h.prec && g.left == h.left && g.upper == h.upper && Sign(neg, g) == Sign(neg, h)
    ensures Ntoa(v, neg, base, 0, width, g) == Iso(v, neg, base, 0, width, h) <==>
            MeetsIso(v, neg, base, 0, width, g) && DoesWithout(v, neg, base, width, h)
  {
    if DoesWithout(v, neg, base, width, h) {
      OmittedField(v, neg, base, width, g, h);
      AgreesExactlyWhen(v, neg, base, 0, width, g);
    } else {
      OmittedMatters(v, neg, base, width, g, h);
    }
  }

  lemma AltOmittedExactlyWhen(v: nat, base: nat, width: nat, g: Flags, h: Flags)
    requires ProperAlt(v, base, 0, g) && ProperAlt(v, base, 0, h)
    requires g.prec && !h.prec && g.left == h.left && g.upper == h.upper
    ensures Ntoa(v, false, base, 0, width, g) == AltField(v, base, 0, width, h) <==>
            AltDoesWithout(v, base, width, h)
  {
    if v == 0 {
      AltOmittedZero(base, width, g, h);
    } else {
      var d, n := AltDigits(v, base, h);
      var code, iso := AltInk(v, base, 0, width, g);
      var code', iso' := AltInk(v, base, 0, width, h);
      hide Ntoa, AltField, Filled, AltCore, Padded, Numeral, Ink;
      AltAgreesExactlyWhen(v, base, 0, width, g);
      AltOmittedCores(n, base, width, g, h);
      if AltDoesWithout(v, base, width, h) {
        SamePadding(iso, width, g, h);
      }
    }
  }

  /** Zeros fill no width that the prefix and the digits fill. */
  lemma SamePadding(core: Text, width: nat, g: Flags, h: Flags)
    requires g.left == h.left && !g.zeropad && (h.zeropad && !h.left ==> width <= |core|)
    ensures Padded(core, width, g) == Padded(core, width, h)
  {
    if h.zeropad && !h.left {
      NoRepeat(' ', width - |core|);
      Empty(core);
    }
  }

  lemma AltOmittedCores(n: Text, base: nat, width: nat, g: Flags, h: Flags)
    requires (base == 8 || base == 16) && 0 < |n| && !g.zeropad && g.left == h.left
    ensures var some, none := AltZeros(|n|, base, 0, width, g), AltZeros(|n|, base, 0, width, h);
            some == none <==> (h.zeropad && !h.left ==> width <= (if base == 16 then 2 else 1) + |n|)
  {}

  /** With a precision of zero the code prints no digit of a zero. */
  lemma AltOmittedZero(base: nat, width: nat, g: Flags, h: Flags)
    requires ProperAlt(0, base, 0, g) && ProperAlt(0, base, 0, h) && g.prec && !h.prec
    ensures Ntoa(0, false, base, 0, width, g) != AltField(0, base, 0, width, h)
  {
    hide Ntoa, Iso, Ink, Body, Field;
    ZeroWithoutInk(base, width, g.(hash := false));
    ZeroPrintsAlike(base, 0, width, g);
    InkOfPrefixes();
    ZeroInFront(base, 0, h);
    InkBody(0, base, 0, h);
    FieldMeasures("", Body(0, base, 0, h), width, h.left, h.zeropad && !h.prec);
  }

  lemma ZeroWithoutInk(base: nat, width: nat, f: Flags)
    requires Proper(0, false, base, 0, f) && f.prec && !f.plus && !f.space
    ensures Ink(Ntoa(0, false, base, 0, width, f)) == 0
  {
    hide Ntoa, Ink;
    var n := CodeMeasures(0, false, base, 0, width, f);
    InkOfPrefixes();
  }

  // ----- Integer conversions

  /** What the code goes on with, `v` and `g`, and the standard, `w` and `h`. */
  lemma Arguments(c: char, s: Spec, t: Directive, bits: nat) returns (v: int, w: int, g: Flags, h: Flags)
    requires IsStandardInteger(c) || (c == 'b' && !Has(t.flags, '#'))
    requires Against(s, t)
    ensures v == IntegerValue(c, s.f, bits) && g == IntegerFlags(c, s.f) && w == StandardInteger(c, t, bits)
    ensures h == OmittedFlags(c, s.f, t) && Base(c) == StandardBase(c)
    ensures if IsNegativeChar(c, t.length, bits) then v > 0 > w else v == w
    ensures if g.hash then ProperAlt(Abs(v), Base(c), s.prec, g) && v >= 0
            else Proper(Abs(v), v < 0, Base(c), s.prec, g)
    ensures if h.hash then ProperAlt(Abs(w), Base(c), Precision(t), h) && w >= 0
            else Proper(Abs(w), w < 0, Base(c), Precision(t), h)
    ensures g.left == h.left && g.upper == h.upper && g.plus == h.plus && g.space == h.space && g.hash == h.hash
    ensures g.prec == s.f.prec && h.prec == t.prec.Some? && (g.prec == h.prec ==> g == h)
  {
    IntegersAreProper(c, s.f, bits);
    SizeRange(s.f);
    Range(bits, Size(s.f));
    v, g := IntegerValue(c, s.f, bits), IntegerFlags(c, s.f);
    w, h := StandardInteger(c, t, bits), OmittedFlags(c, s.f, t);
    assert s.f.prec == t.prec.Some? ==> s.f.(prec := t.prec.Some?) == s.f;
  }

  function Precision(t: Directive): nat {
    if t.prec.Some? then t.prec.value else 0
  }

  /** The standard's field, in the terms of the code's flags. */
  lemma FieldOfFlags(c: char, s: Spec, t: Directive, bits: nat)
    requires IsStandardInteger(c) || (c == 'b' && !Has(t.flags, '#'))
    requires Against(s, t)
    ensures var w, h := StandardInteger(c, t, bits), OmittedFlags(c, s.f, t);
            StandardField(c, t, bits) ==
            if h.hash then AltField(Abs(w), StandardBase(c), Precision(t), t.width, h)
            else Iso(Abs(w), w < 0, StandardBase(c), Precision(t), t.width, h)
  {
    var v, w, g, h := Arguments(c, s, t, bits);
    hide IntegerValue, StandardInteger, Numeral, Has, Repeat, Field, StandardSign, StandardPrefix, StandardDigits,
         Body, AltBody, AltPrefix, Sign, IntegerFlags, OmittedFlags;
    SignOfFlags(c, s, t, w < 0);
    DigitsOfFlags(c, s, t, Abs(w));
    Empty(Sign(w < 0, h));
    Empty(StandardPrefix(c, Abs(w), t.flags));
  }

  lemma SignOfFlags(c: char, s: Spec, t: Directive, neg: bool)
    requires IsStandardInteger(c) || (c == 'b' && !Has(t.flags, '#'))
    requires Against(s, t) && (neg ==> c == 'd' || c == 'i')
    ensures StandardSign(c, neg, t.flags) == Sign(neg, OmittedFlags(c, s.f, t))
  {}

  lemma DigitsOfFlags(c: char, s: Spec, t: Directive, v: nat)
    requires IsStandardInteger(c) || (c == 'b' && !Has(t.flags, '#'))
    requires Against(s, t)
    ensures var h := OmittedFlags(c, s.f, t);
            && h.left == Has(t.flags, '-') && (h.zeropad && !h.prec) == (Has(t.flags, '0') && t.prec.None?)
            && StandardPrefix(c, v, t.flags) == (if h.hash then AltPrefix(v, StandardBase(c), h) else "")
            && StandardDigits(c, v, t.prec, t.flags) ==
               (if h.hash then AltBody(v, StandardBase(c), Precision(t), h)
                else Body(v, StandardBase(c), Precision(t), h))
            && (h.hash ==> StandardSign(c, false, t.flags) == "")
  {
    hide Numeral, Repeat, Has;
  }

  lemma FieldAgreesExactlyWhen(c: char, s: Spec, t: Directive, bits: nat)
    requires IsStandardInteger(c) || (c == 'b' && !Has(t.flags, '#'))
    requires Against(s, t)
    ensures IntegerField(c, s, bits) == StandardField(c, t, bits) <==> AsStandard(c, s, t, bits)
  {
    var v, w, g, h := Arguments(c, s, t, bits);
    FieldOfFlags(c, s, t, bits);
    hide IntegerValue, StandardInteger, IntegerFlags, OmittedFlags, StandardField, Iso, AltField, Ntoa, MeetsIso,
         MeetsAlt, DoesWithout, AltDoesWithout, Proper, ProperAlt, IsNegativeChar;
    if IsNegativeChar(c, t.length, bits) {
      NegativeCharIsDecimal(c, s, t, bits);
      NoMinus(Abs(v), Base(c), s.prec, s.width, g);
      MinusInField(Abs(w), Base(c), Precision(t), t.width, h);
    } else if h.hash {
      AltFieldAgrees(c, s, t, bits, v, g, h);
    } else if s.width != t.width || s.prec != Precision(t) {
      TooLong(Abs(w), w < 0, Base(c), Precision(t), t.width, h, Abs(v), v < 0, s.prec, g, s.width);
    } else if g.prec != h.prec {
      SameSign(v < 0, g, h);
      OmittedExactlyWhen(Abs(v), v < 0, Base(c), s.width, g, h);
    } else {
      AgreesExactlyWhen(Abs(v), v < 0, Base(c), s.prec, s.width, g);
    }
  }

  lemma SameSign(neg: bool, g: Flags, h: Flags)
    requires g.plus == h.plus && g.space == h.space
    ensures Sign(neg, g) == Sign(neg, h)
  {}

  lemma NegativeCharIsDecimal(c: char, s: Spec, t: Directive, bits: nat)
    requires IsNegativeChar(c, t.length, bits)
    ensures !IntegerFlags(c, s.f).hash && !OmittedFlags(c, s.f, t).hash
  {}

  lemma AltFieldAgrees(c: char, s: Spec, t: Directive, bits: nat, v: int, g: Flags, h: Flags)
    requires v == IntegerValue(c, s.f, bits) && v >= 0 && !IsNegativeChar(c, t.length, bits) && Against(s, t)
    requires g == IntegerFlags(c, s.f) && h == OmittedFlags(c, s.f, t)
    requires g.hash && h.hash && g.left == h.left && g.upper == h.upper
    requires g.prec == s.f.prec && h.prec == t.prec.Some? && (g.prec == h.prec ==> g == h)
    requires ProperAlt(v, Base(c), s.prec, g) && ProperAlt(v, Base(c), Precision(t), h)
    ensures IntegerField(c, s, bits) == AltField(v, Base(c), Precision(t), t.width, h) <==> AsStandard(c, s, t, bits)
  {
    hide IntegerValue, IntegerFlags, OmittedFlags, AltField, Ntoa, MeetsAlt, AltDoesWithout, ProperAlt,
         IsNegativeChar;
    if s.width != t.width || s.prec != Precision(t) {
      AltTooLong(v, Base(c), Precision(t), t.width, h, s.prec, s.width, g);
    } else if g.prec != h.prec {
      AltOmittedExactlyWhen(v, Base(c), s.width, g, h);
    } else {
      AltAgreesExactlyWhen(v, Base(c), s.prec, s.width, g);
    }
  }

  /** From the text of a format: an integer conversion prints what the standard asks for
      exactly when the condition holds; without a prefix it then reads back as the value
      that the standard gives the argument. (The standard has no 'b'; it is held here to
      what the others do in base 2.) */
  lemma ConversionAgreesExactlyWhen(fmt: Text, i: nat, va: Args, k: nat)
    requires i <= |fmt| && SpecEnd(fmt, i) < |fmt|
    requires var c := fmt[SpecEnd(fmt, i)];
             IsStandardInteger(c) || (c == 'b' && !Has(StandardReading(fmt, i, va, k).flags, '#'))
    ensures var s, t := ReadSpec(fmt, i, va, k), StandardReading(fmt, i, va, k);
            var c, bits := fmt[t.i], va.at(t.k).bits;
            var v := StandardInteger(c, t, bits);
            && s.i == t.i && s.k == t.k
            && (FieldText(c, s, va) == StandardField(c, t, bits) <==> AsStandard(c, s, t, bits))
            && (AsStandard(c, s, t, bits) && StandardPrefix(c, Abs(v), t.flags) == "" ==>
                  Read(FieldText(c, s, va), StandardBase(c)) == (v < 0, Abs(v)))
  {
    hide ReadSpec, StandardReading, AsStandard, StandardField, IntegerField, StandardInteger, Against, Read, FieldText,
         StandardPrefix;
    var s, t := SpecAgainst(fmt, i, va, k);
    SamePlace(s, t);
    var c, bits := fmt[t.i], va.at(t.k).bits;
    FieldAgreesExactlyWhen(c, s, t, bits);
    IntegerText(c, s, va);
    if StandardPrefix(c, Abs(StandardInteger(c, t, bits)), t.flags) == "" {
      StandardReadsBack(c, s, t, bits);
    }
  }

  lemma SamePlace(s: Spec, t: Directive)
    requires Against(s, t)
    ensures s.i == t.i && s.k == t.k
  {}

  lemma IntegerText(c: char, s: Spec, va: Args)
    requires IsStandardInteger(c) || c == 'b'
    ensures FieldText(c, s, va) == IntegerField(c, s, va.at(s.k).bits)
  {
    hide IntegerField;
  }

  lemma StandardReadsBack(c: char, s: Spec, t: Directive, bits: nat)
    requires IsStandardInteger(c) || (c == 'b' && !Has(t.flags, '#'))
    requires Against(s, t) && StandardPrefix(c, Abs(StandardInteger(c, t, bits)), t.flags) == ""
    ensures Read(StandardField(c, t, bits), StandardBase(c))
         == (StandardInteger(c, t, bits) < 0, Abs(StandardInteger(c, t, bits)))
  {
    var v, w, g, h := Arguments(c, s, t, bits);
    hide IntegerValue, StandardInteger, Numeral, Has, Field, StandardSign, StandardPrefix, StandardDigits, Read,
         Body, AltBody, AltPrefix, Sign, IntegerFlags, OmittedFlags, Proper, ProperAlt, IsNegativeChar, Against;
    SignOfFlags(c, s, t, w < 0);
    DigitsOfFlags(c, s, t, Abs(w));
    Empty(Sign(w < 0, h));
    if h.hash {
      var k, f := AltBodyIsABody(Abs(w), StandardBase(c), Precision(t), h);
      FieldReadsBack(Abs(w), w < 0, StandardBase(c), k, t.width, h, f, h.left, h.zeropad && !h.prec);
    } else {
      FieldReadsBack(Abs(w), w < 0, StandardBase(c), Precision(t), t.width, h, h, h.left, h.zeropad && !h.prec);
    }
  }

  /** With '#', an octal number has as many digits as with a larger precision. */
  lemma AltBodyIsABody(v: nat, base: nat, prec: nat, f: Flags) returns (k: nat, g: Flags)
    requires 2 <= base <= 16
    ensures AltBody(v, base, prec, f) == Body(v, base, k, g)
  {
    var n, body := Numeral(v, base, f.upper), Body(v, base, prec, f);
    var zeros := (if f.prec then prec else 1) - |n|;
    if AltBody(v, base, prec, f) == body {
      k, g := prec, f;
    } else {
      g := f.(prec := true);
      if zeros > 0 {
        RepeatFront('0', zeros);
      }
      k := |n| + 1;
      NoRepeat('0', zeros);
      Empty(n);
      OneRepeat('0');
    }
  }

  // ----- Strings, characters and pointers

  /** As much of the string as the precision allows, padded to the width. */
  function StandardString(t: Directive, str: Text): Text {
    var cut := if t.prec.Some? && t.prec.value < |str| then str[..t.prec.value] else str;
    Justified(cut, t.width, Has(t.flags, '-'))
  }

  function Justified(t: Text, width: nat, left: bool): Text {
    if left then t + Repeat(' ', width - |t|) else Repeat(' ', width - |t|) + t
  }

  /** How many characters of the string the code prints. */
  function Kept(s: Spec, str: Text): nat {
    if s.f.prec && s.prec < |str| then s.prec else |str|
  }

  predicate AllBlank(s: Text) {
    forall k :: 0 <= k < |s| ==> s[k] == ' '
  }

  /** When the code prints a string as the standard asks for: it reads the same width, and it
      keeps all of it that the standard does, or what it drops is blank and in the place of
      padding. */
  predicate StringAsStandard(s: Spec, t: Directive, str: Text) {
    && s.width == t.width
    && ((s.f.prec == t.prec.Some? && (t.prec.Some? ==> s.prec == t.prec.value))
        || OnlyBlanksDropped(str, Kept(s, str), s.width, s.f.left))
  }

  predicate OnlyBlanksDropped(str: Text, n: nat, width: nat, left: bool)
    requires n <= |str|
  {
    n == |str| || (|str| <= width && AllBlank(if left then str[n..] else str))
  }

  lemma {:induction false} RepeatAt(c: char, n: int, k: nat)
    requires k < n
    ensures Repeat(c, n)[k] == c
  {
    if k < n - 1 {
      RepeatAt(c, n - 1, k);
    }
  }

  lemma JustifiedAt(t: Text, width: nat, left: bool, k: nat)
    requires k < |Justified(t, width, left)|
    ensures var fill := if width > |t| then width - |t| else 0;
            |Justified(t, width, left)| == fill + |t| &&
            Justified(t, width, left)[k] ==
            if left then (if k < |t| then t[k] else ' ') else if k < fill then ' ' else t[k - fill]
  {
    var fill := if width > |t| then width - |t| else 0;
    if left && k >= |t| {
      RepeatAt(' ', width - |t|, k - |t|);
    } else if !left && k < fill {
      RepeatAt(' ', width - |t|, k);
    }
  }

  lemma JustifiedLength(t: Text, width: nat, left: bool)
    ensures |Justified(t, width, left)| == Max(|t|, width)
  {}

  /** Blanks in front of a shorter beginning make the whole only if all of it is blank. */
  lemma {:induction false} ShiftedIsBlank(str: Text, n: nat, width: nat, j: nat)
    requires n < |str| <= width && Justified(str[..n], width, false) == Justified(str, width, false) && j < |str|
    ensures str[j] == ' '
    decreases j
  {
    var k := width - |str| + j;
    JustifiedLength(str, width, false);
    JustifiedAt(str, width, false, k);
    JustifiedAt(str[..n], width, false, k);
    if k >= width - n {
      ShiftedIsBlank(str, n, width, j - (|str| - n));
    }
  }

  lemma DropsExactlyWhen(str: Text, n: nat, width: nat, left: bool)
    requires n <= |str|
    ensures Justified(str[..n], width, left) == Justified(str, width, left) <==> OnlyBlanksDropped(str, n, width, left)
  {
    var a, b := Justified(str[..n], width, left), Justified(str, width, left);
    JustifiedLength(str[..n], width, left);
    JustifiedLength(str, width, left);
    if n == |str| {
      assert str[..n] == str;
    } else if OnlyBlanksDropped(str, n, width, left) {
      forall k | 0 <= k < width
        ensures a[k] == b[k]
      {
        JustifiedAt(str[..n], width, left, k);
        JustifiedAt(str, width, left, k);
        assert left && n <= k < |str| ==> str[n..][k - n] == ' ';
      }
    } else if a == b {
      if left {
        forall k | n <= k < |str|
          ensures str[k] == ' '
        {
          JustifiedAt(str[..n], width, left, k);
          JustifiedAt(str, width, left, k);
        }
      } else {
        forall j | 0 <= j < |str|
          ensures str[j] == ' '
        {
          ShiftedIsBlank(str, n, width, j);
        }
      }
    }
  }

  /** Strings are shorter than the address space. */
  lemma StringAgreesExactlyWhen(s: Spec, t: Directive, str: Text)
    requires Against(s, t) && |str| < 0x1_0000_0000
    ensures StringField(s, str) == StandardString(t, str) <==> StringAsStandard(s, t, str)
  {
    var n := Kept(s, str);
    assert str[..|str|] == str;
    assert StringField(s, str) == Justified(str[..n], s.width, s.f.left);
    JustifiedLength(str[..n], s.width, s.f.left);
    DropsExactlyWhen(str, n, s.width, s.f.left);
    if s.width != t.width {
      JustifiedLength(if t.prec.Some? && t.prec.value < |str| then str[..t.prec.value] else str, t.width, s.f.left);
    }
  }

  /** The char of a %c argument is an unsigned char, padded to the width. */
  function StandardChar(t: Directive, bits: nat): Text {
    Justified([(bits % 0x100) as char], t.width, Has(t.flags, '-'))
  }

  lemma CharAgreesExactlyWhen(s: Spec, t: Directive, bits: nat)
    requires Against(s, t)
    ensures CharField(s, bits) == StandardChar(t, bits) <==> s.width == t.width
  {
    var c := [(bits % 0x100) as char];
    assert CharField(s, bits) == Justified(c, s.width, s.f.left);
    JustifiedLength(c, s.width, s.f.left);
    JustifiedLength(c, t.width, s.f.left);
  }

  lemma TextConversionsAgreeExactlyWhen(fmt: Text, i: nat, va: Args, k: nat)
    requires i <= |fmt| && SpecEnd(fmt, i) < |fmt|
    ensures var s, t := ReadSpec(fmt, i, va, k), StandardReading(fmt, i, va, k);
            var arg := va.at(t.k);
            && s.i == t.i && s.k == t.k
            && (fmt[t.i] == 's' && |arg.str| < 0x1_0000_0000 ==>
                  (FieldText('s', s, va) == StandardString(t, arg.str) <==> StringAsStandard(s, t, arg.str)))
            && (fmt[t.i] == 'c' ==> (FieldText('c', s, va) == StandardChar(t, arg.bits) <==> s.width == t.width))
            && (fmt[t.i] == '%' ==> FieldText('%', s, va) == "%")
  {
    hide ReadSpec, StandardReading, StringField, CharField, StandardString, StandardChar, StringAsStandard, Wrapped;
    var s, t := SpecAgainst(fmt, i, va, k);
    CharAgreesExactlyWhen(s, t, va.at(t.k).bits);
    if |va.at(t.k).str| < 0x1_0000_0000 {
      StringAgreesExactlyWhen(s, t, va.at(t.k).str);
    }
  }

  /** A pointer is printed as eight upper-case hexadecimal digits, whatever the width, if
      there are no '-', '#', sign flags and precision. */
  lemma PointerIsEightDigits(s: Spec, va: Args)
    requires !s.f.left && !s.f.hash && !s.f.prec && !s.f.plus && !s.f.space && s.prec == 0
    ensures var n := Numeral(va.at(s.k).bits % 0x1_0000_0000, 16, true);
            |n| <= 8 && FieldText('p', s, va) == Repeat('0', 8 - |n|) + n
  {
    hide Ntoa, Numeral, Iso, Repeat, MeetsIso;
    var v := va.at(s.k).bits % 0x1_0000_0000;
    var g := s.f.(zeropad := true, upper := true);
    assert Pow(16, 8) == 0x1_0000_0000;
    NumeralLength(v, 16, true, 8);
    EightDigitsFit(v, g);
    AgreesExactlyWhen(v, false, 16, 0, 8, g);
    PointerField8(v, Numeral(v, 16, true), g);
  }

  lemma EightDigitsFit(v: nat, g: Flags)
    requires |Numeral(v, 16, true)| <= 8 && g.upper && !g.left && g.zeropad
    ensures MeetsIso(v, false, 16, 0, 8, g)
  {
    hide Numeral;
  }

  lemma PointerField8(v: nat, n: Text, g: Flags)
    requires n == Numeral(v, 16, true) && |n| <= 8 && g.zeropad && g.upper
    requires !g.left && !g.prec && !g.plus && !g.space
    ensures Iso(v, false, 16, 0, 8, g) == Repeat('0', 8 - |n|) + n
  {
    hide Numeral;
    var body := Body(v, 16, 0, g);
    Empty(body);
    Empty(Repeat('0', 8 - |body|));
    if n == [] {
      OneRepeat('0');
      Empty(['0']);
    } else {
      NoRepeat('0', 1 - |n|);
      Empty(n);
    }
  }

  // ----- Conversions that are not printed right

  /** "%hhd" of -1 prints 255; the standard asks for -1. */
  lemma HhdOfMinusOne(va: Args)
    requires va.at(0).bits == 0xffff_ffff
    ensures var s, t := ReadSpec("%hhd", 1, va, 0), StandardReading("%hhd", 1, va, 0);
            FieldText('d', s, va) == "255" && StandardField('d', t, va.at(0).bits) == "-1"
  {
    hide ReadSpec, StandardReading, StandardField, Ntoa, FieldText;
    var s, t := ReadHhd(va);
    IntegerText('d', s, va);
    Printed255(s.f);
    Standard1(t);
  }

  lemma ReadHhd(va: Args) returns (s: Spec, t: Directive)
    ensures s == ReadSpec("%hhd", 1, va, 0) && t == StandardReading("%hhd", 1, va, 0)
    ensures s == Spec(NO_FLAGS.(short := true, chr := true), 0, 0, 3, 0)
    ensures t == Directive("", 0, None, "hh", 3, 0)
  {
    s, t := ReadSpec("%hhd", 1, va, 0), StandardReading("%hhd", 1, va, 0);
    assert FlagsEnd("%hhd", 1) == 1 && "%hhd"[1..3] == "hh";
  }

  lemma Printed255(f: Flags)
    requires f == NO_FLAGS.(short := true, chr := true)
    ensures Ntoa(255, false, 10, 0, 0, f) == "255"
  {}

  lemma Standard1(t: Directive)
    requires t == Directive("", 0, None, "hh", 3, 0)
    ensures StandardField('d', t, 0xffff_ffff) == "-1"
  {
    assert Numeral(1, 10, false) == [] + "1" == "1";
  }

  /** "%.*d" of 0 with a precision of -1 prints nothing; the standard asks for 0. */
  lemma ZeroOfMinusOneDigits(va: Args)
    requires va.at(0).bits == 0xffff_ffff
    ensures var s, t := ReadSpec("%.*d", 1, va, 0), StandardReading("%.*d", 1, va, 0);
            && t.prec == None && s.k == t.k == 1
            && IntegerField('d', s, 0) == "" && StandardField('d', t, 0) == "0"
  {
    hide ReadSpec, StandardReading, StandardField, IntegerField;
    var s, t := ReadDot(va, "%.*d");
    ZeroOfNoDigits(s, t);
  }

  /** "%05.*d" of 7 with a precision of -1 prints blanks where the standard asks for zeros. */
  lemma SevenOfMinusOneDigits(va: Args)
    requires va.at(0).bits == 0xffff_ffff
    ensures var s, t := ReadSpec("%05.*d", 1, va, 0), StandardReading("%05.*d", 1, va, 0);
            && t.prec == None && s.k == t.k == 1
            && IntegerField('d', s, 7) == "    7" && StandardField('d', t, 7) == "00007"
  {
    hide ReadSpec, StandardReading, StandardField, IntegerField;
    var s, t := ReadZeroFive(va);
    SevenOfFive(s);
    StandardSevenOfFive(t);
  }

  /** "%.*s" with a precision of -1 prints nothing; the standard asks for the whole string. */
  lemma StringOfMinusOne(va: Args)
    requires va.at(0).bits == 0xffff_ffff
    ensures var s, t := ReadSpec("%.*s", 1, va, 0), StandardReading("%.*s", 1, va, 0);
            && t.prec == None && s.k == t.k == 1 && StringField(s, "ab") == "" && StandardString(t, "ab") == "ab"
  {
    hide ReadSpec, StandardReading;
    var s, t := ReadDot(va, "%.*s");
    assert "ab"[..0] == "";
  }

  lemma ReadDot(va: Args, fmt: Text) returns (s: Spec, t: Directive)
    requires va.at(0).bits == 0xffff_ffff && (fmt == "%.*d" || fmt == "%.*s")
    ensures s == ReadSpec(fmt, 1, va, 0) && t == StandardReading(fmt, 1, va, 0)
    ensures s == Spec(NO_FLAGS.(prec := true), 0, 0, 3, 1) && t == Directive("", 0, None, "", 3, 1)
  {
    s := ReadSpec(fmt, 1, va, 0);
    t := StandardDot(va, fmt, 1, 1, "", 0);
  }

  /** A precision argument of -1. */
  lemma StandardDot(va: Args, fmt: Text, a: nat, b: nat, flags: Text, width: nat) returns (t: Directive)
    requires va.at(0).bits == 0xffff_ffff && 1 <= a <= b && |fmt| == b + 3
    requires a == FlagsEnd(fmt, 1) && b == WidthEnd(fmt, a) && AllDecimal(fmt[a..b])
    requires flags == fmt[1..a] && width == DecimalValue(fmt[a..b])
    requires fmt[b] == '.' && fmt[b + 1] == '*' && fmt[b + 2] in "ds"
    ensures t == StandardReading(fmt, 1, va, 0) == Directive(flags, width, None, "", b + 2, 1)
  {
    hide Stars, DecimalValue, FlagsEnd, DigitsEnd;
    t := StandardReading(fmt, 1, va, 0);
    DigitsHaveNoStars(fmt[a..b]);
    assert fmt[b..b + 2] == ".*" && ".*"[1..] == "*" && fmt[b + 2..b + 2] == "";
    OneStar();
  }

  lemma ReadZeroFive(va: Args) returns (s: Spec, t: Directive)
    requires va.at(0).bits == 0xffff_ffff
    ensures s == ReadSpec("%05.*d", 1, va, 0) && t == StandardReading("%05.*d", 1, va, 0)
    ensures s == Spec(NO_FLAGS.(prec := true, zeropad := true), 5, 0, 5, 1) && t == Directive("0", 5, None, "", 5, 1)
  {
    var f := NO_FLAGS.(zeropad := true);
    s := ZeroFiveRead(va, f);
    assert "%05.*d"[1..2] == "0" && "%05.*d"[2..3] == "5" && DecimalValue("5") == 5;
    t := StandardDot(va, "%05.*d", 2, 3, "0", 5);
  }

  lemma ZeroFiveRead(va: Args, f: Flags) returns (s: Spec)
    requires va.at(0).bits == 0xffff_ffff && f == NO_FLAGS.(zeropad := true)
    ensures s == ReadSpec("%05.*d", 1, va, 0) == Spec(f.(prec := true), 5, 0, 5, 1)
  {
    hide ReadWidth, ReadPrecision, ReadLength;
    s := ReadSpec("%05.*d", 1, va, 0);
    assert ReadFlags("%05.*d", 1, NO_FLAGS) == (f, 2);
    var w := FiveRead(va, f);
    var p := MinusOneRead(va, w);
    DRead(p);
  }

  lemma FiveRead(va: Args, f: Flags) returns (w: Spec)
    ensures w == ReadWidth("%05.*d", Spec(f, 0, 0, 2, 0), va) == Spec(f, 5, 0, 3, 0)
  {
    assert ReadNumber("%05.*d", 2, 0) == (5, 3);
    w := Spec(f, 5, 0, 3, 0);
  }

  lemma MinusOneRead(va: Args, w: Spec) returns (p: Spec)
    requires va.at(0).bits == 0xffff_ffff && w.i == 3 && w.k == 0
    ensures p == ReadPrecision("%05.*d", w, va) == w.(f := w.f.(prec := true), prec := 0, i := 5, k := 1)
  {
    p := ReadPrecision("%05.*d", w, va);
  }

  lemma DRead(p: Spec)
    requires p.i == 5
    ensures ReadLength("%05.*d", p) == p
  {}

  lemma ZeroOfNoDigits(s: Spec, t: Directive)
    requires s == Spec(NO_FLAGS.(prec := true), 0, 0, 3, 1) && t == Directive("", 0, None, "", 3, 1)
    ensures IntegerField('d', s, 0) == "" && StandardField('d', t, 0) == "0"
  {
    hide Ntoa, Repeat;
    OneRepeat('0');
    NoRepeat(' ', -1);
    NothingOfZero(IntegerFlags('d', s.f));
    assert StandardInteger('d', t, 0) == 0 && StandardDigits('d', 0, None, "") == "0";
  }

  lemma NothingOfZero(f: Flags)
    requires f.prec && !f.left && !f.zeropad && !f.plus && !f.space && !f.hash
    ensures Ntoa(0, false, 10, 0, 0, f) == ""
  {}

  lemma SevenOfFive(s: Spec)
    requires s == Spec(NO_FLAGS.(prec := true, zeropad := true), 5, 0, 5, 1)
    ensures IntegerField('d', s, 7) == "    7"
  {
    hide Ntoa;
    SevenBehindBlanks(IntegerFlags('d', s.f));
  }

  lemma SevenBehindBlanks(g: Flags)
    requires !g.left && !g.zeropad && !g.plus && !g.space && !g.hash && !g.upper
    ensures Ntoa(7, false, 10, 0, 5, g) == "    7"
  {
    assert DigitLoop(7, 10, false, 32) == "7";
    assert PadZeros("7", 0) == "7" && Reverse("7") == "7";
    FourOf(' ');
  }

  lemma FourOf(c: char)
    ensures Repeat(c, 4) == [c, c, c, c]
  {
    assert Repeat(c, 1) == [c];
    assert Repeat(c, 2) == [c, c];
    assert Repeat(c, 3) == [c, c, c];
  }

  lemma StandardSevenOfFive(t: Directive)
    requires t == Directive("0", 5, None, "", 5, 1)
    ensures StandardField('d', t, 7) == "00007"
  {
    hide Numeral, StandardValue, LengthSize, Repeat;
    SevenAlone();
    assert StandardInteger('d', t, 7) == 7 by { LowSeven(t); }
    assert StandardDigits('d', 7, None, "0") == [] + "7" == "7";
    FourOf('0');
  }

  lemma SevenAlone()
    ensures Numeral(7, 10, false) == "7" && Repeat('0', 0) == []
  {
    assert Numeral(7, 10, false) == [] + "7" == "7";
  }

  lemma LowSeven(t: Directive)
    requires t.length == ""
    ensures StandardInteger('d', t, 7) == 7
  {}
}
