/** The '#' flag of printf.c against section 7.21.6.1 of ISO/IEC 9899:2011: for x and X a
    number that is not zero has 0x or 0X in front, and for o the first digit is a zero. */
module PrintfAlt {
  import opened Common
  import opened PrintfText
  import opened PrintfIso

  // ----- What the standard asks for

  function AltPrefix(v: nat, base: nat, f: Flags): Text {
    if base != 16 || v == 0 then "" else if f.upper then "0X" else "0x"
  }

  function AltBody(v: nat, base: nat, prec: nat, f: Flags): Text
    requires 2 <= base <= 16
  {
    var body := Body(v, base, prec, f);
    if base == 8 && (body == [] || body[0] != '0') then "0" + body else body
  }

  function AltField(v: nat, base: nat, prec: nat, width: nat, f: Flags): Text
    requires 2 <= base <= 16
  {
    Field(AltPrefix(v, base, f), AltBody(v, base, prec, f), width, f.left, f.zeropad && !f.prec)
  }

  /** What _vsnprintf sees to. */
  predicate ProperAlt(v: nat, base: nat, prec: nat, f: Flags) {
    && (base == 8 || base == 16) && v < 0x1_0000_0000_0000_0000
    && f.hash && !f.plus && !f.space && (f.prec ==> !f.zeropad) && (!f.prec ==> prec == 0)
  }

  /** When the code does what the standard asks for. Without a precision it takes a number
      as long as the width for one that zeros have filled, and puts the prefix over its first
      digits; and with one it puts a zero before an octal number that has one already. */
  predicate MeetsAlt(v: nat, base: nat, prec: nat, width: nat, f: Flags)
    requires 2 <= base <= 16
  {
    if v == 0 then
      MeetsIso(0, false, base, prec, width, f.(hash := false)) && (base == 8 && f.prec ==> prec > 0)
    else FitsPrefix(DigitCount(v, base, f), base, prec, width, f)
  }

  /** The same for a number that is not zero, of `d` digits. */
  predicate FitsPrefix(d: nat, base: nat, prec: nat, width: nat, f: Flags) {
    if base == 16 then
      if f.left then prec <= d && (f.prec || d != width)
      else if f.zeropad then width <= PRINTF_NTOA_BUFFER_SIZE && (width < d || d + 2 <= width)
      else Max(d, prec) + 2 <= PRINTF_NTOA_BUFFER_SIZE && (f.prec || d != width)
    else
      if f.left then prec <= d + 1 && (f.prec || d != width)
      else if f.zeropad then width <= PRINTF_NTOA_BUFFER_SIZE && d != width
      else if f.prec then prec <= d || prec == PRINTF_NTOA_BUFFER_SIZE
      else d != width
  }

  // ----- The shape of what the standard asks for

  lemma {:induction false} NumeralHasNoZeroInFront(v: nat, base: nat, upper: bool)
    requires 2 <= base <= 16 && v > 0
    ensures Numeral(v, base, upper) != [] && Numeral(v, base, upper)[0] != '0'
  {
    hide HexDigit;
    Smaller(v, base);
    if v / base > 0 {
      NumeralHasNoZeroInFront(v / base, base, upper);
    } else {
      assert v % base == v;
      NoZeroDigit(v, upper);
    }
  }

  lemma NoZeroDigit(d: nat, upper: bool)
    requires 0 < d < 16
    ensures HexDigit(d, upper) != '0'
  {}

  /** The zeros before the digits of a number that is not zero. */
  function AltZeros(digits: nat, base: nat, prec: nat, width: nat, f: Flags): nat {
    var k := if base == 8 && prec <= digits then 1 else if prec > digits then prec - digits else 0;
    if f.left || !f.zeropad then k
    else Max(k, width - (if base == 16 then 2 else 0) - digits)
  }

  lemma AltBodyShape(v: nat, base: nat, prec: nat, f: Flags) returns (n: Text, k: nat)
    requires ProperAlt(v, base, prec, f) && v > 0
    ensures n == Numeral(v, base, f.upper) && n != []
    ensures k == if base == 8 && prec <= |n| then 1 else if prec > |n| then prec - |n| else 0
    ensures AltBody(v, base, prec, f) == Repeat('0', k) + n
  {
    n := Numeral(v, base, f.upper);
    k := if base == 8 && prec <= |n| then 1 else if prec > |n| then prec - |n| else 0;
    NumeralHasNoZeroInFront(v, base, f.upper);
    OtherBody(v, base, prec, f);
    if prec > |n| {
      RepeatFront('0', prec - |n|);
    } else {
      NoRepeat('0', prec - |n|);
      Empty(n);
      OneRepeat('0');
    }
  }

  lemma OneRepeat(c: char)
    ensures Repeat(c, 1) == [c] && Repeat(c, 0) == []
  {
    assert [] + [c] == [c];
  }

  lemma {:induction false} RepeatJoin(c: char, m: nat, n: nat)
    ensures Repeat(c, m) + Repeat(c, n) == Repeat(c, m + n)
    decreases n
  {
    if n == 0 {
      Empty(Repeat(c, m));
    } else {
      RepeatJoin(c, m, n - 1);
      Associative(Repeat(c, m), Repeat(c, n - 1), [c]);
    }
  }

  lemma AltFieldShape(v: nat, base: nat, prec: nat, width: nat, f: Flags) returns (core: Text, t: Text)
    requires ProperAlt(v, base, prec, f) && v > 0
    ensures var n := Numeral(v, base, f.upper);
            core == AltPrefix(v, base, f) + (Repeat('0', AltZeros(|n|, base, prec, width, f)) + n)
    ensures t == AltField(v, base, prec, width, f) == Padded(core, width, f)
  {
    var n, k := AltBodyShape(v, base, prec, f);
    var prefix, body := AltPrefix(v, base, f), AltBody(v, base, prec, f);
    core := prefix + (Repeat('0', AltZeros(|n|, base, prec, width, f)) + n);
    t := AltField(v, base, prec, width, f);
    var fill := width - |prefix| - |body|;
    if f.left {
    } else if !f.zeropad {
      Associative(Repeat(' ', fill), prefix, body);
    } else if fill <= 0 {
      NoRepeat('0', fill);
      Empty(prefix);
    } else {
      RepeatJoin('0', fill, k);
      Associative(Repeat('0', fill), Repeat('0', k), n);
      Associative(prefix, Repeat('0', fill), body);
    }
  }

  // ----- The shape of what the code prints

  lemma AltDigits(v: nat, base: nat, f: Flags) returns (d: Text, n: Text)
    requires (base == 8 || base == 16) && 0 < v < 0x1_0000_0000_0000_0000
    ensures d == NtoaDigits(v, base, f) && n == Numeral(v, base, f.upper) == Reverse(d)
    ensures 0 < |n| == |d| == DigitCount(v, base, f) <= 22 && (base == 16 ==> |n| <= 16)
  {
    d, n := NtoaDigits(v, base, f), Numeral(v, base, f.upper);
    AltIsShort(v, base, f);
    DigitsAreTheNumeral(v, base, f);
    NumeralHasNoZeroInFront(v, base, f.upper);
  }

  lemma AltIsShort(v: nat, base: nat, f: Flags)
    requires (base == 8 || base == 16) && v < 0x1_0000_0000_0000_0000
    ensures |Numeral(v, base, f.upper)| <= if base == 16 then 16 else 22
  {
    if base == 8 {
      assert Pow(8, 5) == 0x8000;
      assert Pow(8, 10) == 0x40000000;
      assert Pow(8, 15) == 0x200000000000;
      assert Pow(8, 20) == 0x1000000000000000;
      assert Pow(8, 22) == 0x40000000000000000;
      NumeralLength(v, 8, f.upper, 22);
    } else {
      assert Pow(16, 8) == 0x1_0000_0000 && Pow(16, 16) == 0x1_0000_0000_0000_0000;
      NumeralLength(v, 16, f.upper, 16);
    }
  }

  /** The digits and zeros in the buffer before the prefix, as they are read. */
  function Filled(n: Text, prec: nat, width: nat, f: Flags): Text {
    var to := if f.left then 0 else if f.zeropad then width else prec;
    Repeat('0', Min(to, PRINTF_NTOA_BUFFER_SIZE) - |n|) + n
  }

  /** How many of `n` characters the prefix takes the place of. */
  function Cut(n: nat, base: nat, width: nat, f: Flags): (cut: nat)
    ensures cut <= n
  {
    if f.prec || n == 0 || n != width then 0 else if base == 16 && n > 1 then 2 else 1
  }

  /** The prefix, as far as there is room for it. */
  function RoomFor(n: nat, base: nat, f: Flags): Text {
    if n >= PRINTF_NTOA_BUFFER_SIZE then ""
    else if base == 8 then "0"
    else if n + 1 == PRINTF_NTOA_BUFFER_SIZE then (if f.upper then "X" else "x")
    else if f.upper then "0X" else "0x"
  }

  function AltCore(s: Text, base: nat, width: nat, f: Flags): Text {
    var rest := s[Cut(|s|, base, width, f)..];
    RoomFor(|rest|, base, f) + rest
  }

  lemma ReverseTake(s: Text, k: nat)
    requires k <= |s|
    ensures Reverse(s[..k]) == Reverse(s)[|s| - k..]
  {
    assert s == s[..k] + s[k..];
    ReverseJoin(s[..k], s[k..]);
  }

  lemma PushNothing(s: Text)
    ensures Push(s, []) == s
  {
    Empty(s);
  }

  function Letter(base: nat, f: Flags): Text {
    if base == 16 then (if f.upper then ['X'] else ['x']) else []
  }

  lemma PrefixOnto(t: Text, base: nat, f: Flags)
    requires base == 8 || base == 16
    ensures Reverse(Push(Push(t, Letter(base, f)), ['0'])) == RoomFor(|t|, base, f) + Reverse(t)
  {
    if base == 8 {
      PushNothing(t);
      OnePushed(t, '0');
    } else {
      var x := if f.upper then 'X' else 'x';
      OnePushed(t, x);
      OnePushed(Push(t, [x]), '0');
      hide Reverse, Push;
      Associative(['0'], [x], Reverse(t));
      assert ['0'] + [x] == if f.upper then "0X" else "0x";
    }
  }

  lemma OnePushed(t: Text, c: char)
    ensures |t| < PRINTF_NTOA_BUFFER_SIZE ==>
              |Push(t, [c])| == |t| + 1 && Reverse(Push(t, [c])) == [c] + Reverse(t)
    ensures |t| >= PRINTF_NTOA_BUFFER_SIZE ==> Push(t, [c]) == t && [] + Reverse(t) == Reverse(t)
  {
    hide Reverse;
    PushReversed(t, [c]);
  }

  lemma PrefixPushed(p: Text, base: nat, prec: nat, width: nat, f: Flags)
    requires (base == 8 || base == 16) && (!f.prec ==> prec == 0)
    ensures Reverse(HashPrefix(p, base, prec, width, f)) == AltCore(Reverse(p), base, width, f)
  {
    hide Reverse, Push;
    var n := |p| - Cut(|p|, base, width, f);
    ReverseTake(p, n);
    PrefixOnto(p[..n], base, f);
    assert HashPrefix(p, base, prec, width, f) == Push(Push(p[..n], Letter(base, f)), ['0']);
  }

  lemma FilledInBuffer(d: Text, prec: nat, width: nat, f: Flags) returns (p: Text)
    requires (f.prec ==> !f.zeropad) && (!f.prec ==> prec == 0)
    ensures p == if f.left then d else if f.zeropad then PadZeros(PadZeros(d, prec), width) else PadZeros(d, prec)
    ensures Reverse(p) == Filled(Reverse(d), prec, width, f)
  {
    p := if f.left then d else if f.zeropad then PadZeros(PadZeros(d, prec), width) else PadZeros(d, prec);
    if f.left {
      NoRepeat('0', -|d|);
      Empty(Reverse(d));
    } else if f.zeropad {
      NoZeros(d);
      PadZerosReversed(d, width);
    } else {
      PadZerosReversed(d, prec);
    }
  }

  lemma AltCodeShape(v: nat, base: nat, prec: nat, width: nat, f: Flags) returns (core: Text, t: Text)
    requires ProperAlt(v, base, prec, f) && v > 0
    ensures core == AltCore(Filled(Numeral(v, base, f.upper), prec, width, f), base, width, f)
    ensures t == Ntoa(v, false, base, prec, width, f) == Padded(core, width, f)
  {
    hide NtoaDigits, Numeral, HashPrefix, AltCore, Filled, PadZeros, Padded;
    var d, n := AltDigits(v, base, f);
    var p := FilledInBuffer(d, prec, width, f);
    PrefixPushed(p, base, prec, width, f);
    core := AltCore(Filled(n, prec, width, f), base, width, f);
    var buf := HashPrefix(p, base, prec, width, f);
    PushNothing(buf);
    assert FormatBuffer(d, false, base, prec, width, f) == buf;
    t := OutRevShape(buf, core, width, f);
  }

  // ----- One against the other

  lemma MeetingAltAgrees(n: Text, base: nat, prec: nat, width: nat, f: Flags, prefix: Text)
    requires (base == 8 && prefix == "") || (base == 16 && prefix == if f.upper then "0X" else "0x")
    requires 0 < |n| <= 22 && (base == 16 ==> |n| <= 16) && (f.prec ==> !f.zeropad) && (!f.prec ==> prec == 0)
    requires FitsPrefix(|n|, base, prec, width, f)
    ensures AltCore(Filled(n, prec, width, f), base, width, f)
         == prefix + (Repeat('0', AltZeros(|n|, base, prec, width, f)) + n)
  {
    var s := Filled(n, prec, width, f);
    var z := |s| - |n|;
    var cut := Cut(|s|, base, width, f);
    var k := AltZeros(|n|, base, prec, width, f);
    FilledIs(n, z, s, prec, width, f);
    assert cut <= z;
    RepeatDrop(z, cut, n);
    if base == 16 {
      assert k == z - cut;
    } else if f.prec && !f.left && prec > |n| {
      assert k == z && cut == 0;
      Empty(s);
    } else {
      assert k == z - cut + 1;
      RepeatFront('0', k);
      Associative(['0'], Repeat('0', z - cut), n);
      Empty(Repeat('0', k) + n);
    }
  }

  lemma FilledIs(n: Text, z: int, s: Text, prec: nat, width: nat, f: Flags)
    requires s == Filled(n, prec, width, f) && z == |s| - |n|
    ensures z >= 0 && s == Repeat('0', z) + n
  {
    var to := if f.left then 0 else if f.zeropad then width else prec;
    if Min(to, PRINTF_NTOA_BUFFER_SIZE) < |n| {
      NoRepeat('0', Min(to, PRINTF_NTOA_BUFFER_SIZE) - |n|);
    }
  }

  lemma RepeatDrop(z: nat, cut: nat, n: Text)
    requires cut <= z
    ensures (Repeat('0', z) + n)[cut..] == Repeat('0', z - cut) + n
  {
    RepeatJoin('0', cut, z - cut);
  }

  lemma {:induction false} InkIsAtMostLength(s: Text)
    ensures Ink(s) <= |s|
  {
    if s != [] {
      InkIsAtMostLength(s[1..]);
    }
  }

  lemma InkOfRest(s: Text, k: nat)
    requires k <= |s| && Ink(s) == |s|
    ensures Ink(s[k..]) == |s| - k
  {
    assert s == s[..k] + s[k..];
    InkJoin(s[..k], s[k..]);
    InkIsAtMostLength(s[..k]);
    InkIsAtMostLength(s[k..]);
  }

  lemma InkOfPrefixes()
    ensures Ink("0") == Ink("x") == Ink("X") == 1 && Ink("0x") == Ink("0X") == 2 && Ink("") == 0
  {
    InkFront('0', "x");
    InkFront('0', "X");
    InkOne('0');
    InkOne('x');
    InkOne('X');
    assert ['0'] + "x" == "0x" && ['0'] + "X" == "0X";
  }

  /** Zeros and digits are all ink. */
  lemma InkOfNumber(k: int, v: nat, base: nat, upper: bool)
    requires 2 <= base <= 16
    ensures var s := Repeat('0', k) + Numeral(v, base, upper);
            Ink(s) == |s|
  {
    InkRepeat('0', k);
    InkNumeral(v, base, upper);
    InkJoin(Repeat('0', k), Numeral(v, base, upper));
  }

  /** How much ink either puts out, for a number that is not zero. */
  lemma AltInk(v: nat, base: nat, prec: nat, width: nat, f: Flags) returns (code: Text, iso: Text)
    requires ProperAlt(v, base, prec, f) && v > 0
    ensures var n := Numeral(v, base, f.upper);
            && code == AltCore(Filled(n, prec, width, f), base, width, f)
            && iso == AltPrefix(v, base, f) + (Repeat('0', AltZeros(|n|, base, prec, width, f)) + n)
    ensures Ntoa(v, false, base, prec, width, f) == Padded(code, width, f)
    ensures AltField(v, base, prec, width, f) == Padded(iso, width, f)
    ensures Ink(Padded(code, width, f)) == |code| && Ink(Padded(iso, width, f)) == |iso|
  {
    hide Ntoa, AltField, Numeral, Filled, AltZeros, Padded, Ink, Repeat, Cut, RoomFor;
    var n := Numeral(v, base, f.upper);
    var s, t;
    code, s := AltCodeShape(v, base, prec, width, f);
    iso, t := AltFieldShape(v, base, prec, width, f);
    CodeInk(v, base, prec, width, f);
    IsoInk(v, base, AltZeros(|n|, base, prec, width, f), f);
    PaddedMeasures(code, width, f);
    PaddedMeasures(iso, width, f);
  }

  lemma CodeInk(v: nat, base: nat, prec: nat, width: nat, f: Flags)
    requires base == 8 || base == 16
    ensures var core := AltCore(Filled(Numeral(v, base, f.upper), prec, width, f), base, width, f);
            Ink(core) == |core|
  {
    var s := FilledInk(v, base, prec, width, f);
    var cut := Cut(|s|, base, width, f);
    hide Filled, Numeral, Ink, RoomFor, Cut;
    InkOfRest(s, cut);
    InkOfRoom(|s| - cut, base, f);
    InkJoin(RoomFor(|s| - cut, base, f), s[cut..]);
  }

  lemma FilledInk(v: nat, base: nat, prec: nat, width: nat, f: Flags) returns (s: Text)
    requires 2 <= base <= 16
    ensures s == Filled(Numeral(v, base, f.upper), prec, width, f) && Ink(s) == |s|
  {
    hide Ink, Numeral;
    s := Filled(Numeral(v, base, f.upper), prec, width, f);
    var to := if f.left then 0 else if f.zeropad then width else prec;
    InkOfNumber(Min(to, PRINTF_NTOA_BUFFER_SIZE) - |Numeral(v, base, f.upper)|, v, base, f.upper);
  }

  lemma InkOfRoom(n: nat, base: nat, f: Flags)
    requires base == 8 || base == 16
    ensures Ink(RoomFor(n, base, f)) == |RoomFor(n, base, f)|
  {
    hide Ink;
    InkOfPrefixes();
  }

  lemma IsoInk(v: nat, base: nat, k: nat, f: Flags)
    requires 2 <= base <= 16
    ensures var core := AltPrefix(v, base, f) + (Repeat('0', k) + Numeral(v, base, f.upper));
            Ink(core) == |core|
  {
    InkOfNumber(k, v, base, f.upper);
    InkOfPrefixes();
    InkJoin(AltPrefix(v, base, f), Repeat('0', k) + Numeral(v, base, f.upper));
  }

  /** With '#' too, the code prints what the standard asks for exactly when its condition
      holds. */
  lemma AltAgreesExactlyWhen(v: nat, base: nat, prec: nat, width: nat, f: Flags)
    requires ProperAlt(v, base, prec, f)
    ensures Ntoa(v, false, base, prec, width, f) == AltField(v, base, prec, width, f)
       <==> MeetsAlt(v, base, prec, width, f)
  {
    if v == 0 {
      AltZero(base, prec, width, f);
    } else {
      var d, n := AltDigits(v, base, f);
      var code, iso := AltInk(v, base, prec, width, f);
      hide Numeral, Ntoa, AltField, Padded, NtoaDigits, DigitCount, Filled, AltCore, AltZeros, FitsPrefix;
      if MeetsAlt(v, base, prec, width, f) {
        MeetingAltAgrees(n, base, prec, width, f, AltPrefix(v, base, f));
      } else {
        AltLengthsDiffer(n, base, prec, width, f);
      }
    }
  }

  lemma AltLengthsDiffer(n: Text, base: nat, prec: nat, width: nat, f: Flags)
    requires base == 8 || base == 16
    requires 0 < |n| <= 22 && (base == 16 ==> |n| <= 16) && (f.prec ==> !f.zeropad) && (!f.prec ==> prec == 0)
    requires !FitsPrefix(|n|, base, prec, width, f)
    ensures |AltCore(Filled(n, prec, width, f), base, width, f)|
         != (if base == 16 then 2 else 0) + AltZeros(|n|, base, prec, width, f) + |n|
  {
    var s := Filled(n, prec, width, f);
    FilledIs(n, |s| - |n|, s, prec, width, f);
    var m := |s| - Cut(|s|, base, width, f);
    assert |AltCore(s, base, width, f)| == |RoomFor(m, base, f)| + m;
  }

  /** A zero has no prefix; an octal one is printed even with a precision of zero. */
  lemma AltZero(base: nat, prec: nat, width: nat, f: Flags)
    requires ProperAlt(0, base, prec, f)
    ensures Ntoa(0, false, base, prec, width, f) == AltField(0, base, prec, width, f)
       <==> MeetsAlt(0, base, prec, width, f)
  {
    hide Ntoa, MeetsIso, Field, Body;
    var g := f.(hash := false);
    AgreesExactlyWhen(0, false, base, prec, width, g);
    ZeroPrintsAlike(base, prec, width, f);
    if base == 8 && f.prec && prec == 0 {
      NoInkForZero(width, g);
      ZeroBody(base, prec, f);
      Empty("0");
      assert AltBody(0, base, prec, f) == "0";
      InkOfPrefixes();
      FieldMeasures("", "0", width, f.left, false);
    } else if base == 8 {
      ZeroInFront(base, prec, f);
    }
  }

  lemma ZeroPrintsAlike(base: nat, prec: nat, width: nat, f: Flags)
    requires 2 <= base <= 16 && !f.plus && !f.space
    ensures var g := f.(hash := false);
            && Ntoa(0, false, base, prec, width, f) == Ntoa(0, false, base, prec, width, g)
            && Iso(0, false, base, prec, width, g)
            == Field([], Body(0, base, prec, f), width, f.left, f.zeropad && !f.prec)
  {
    hide Format, DigitLoop, Field;
    var g := f.(hash := false);
    assert NtoaDigits(0, base, f) == NtoaDigits(0, base, g) && Body(0, base, prec, f) == Body(0, base, prec, g);
  }

  lemma ZeroInFront(base: nat, prec: nat, f: Flags)
    requires 2 <= base <= 16 && (!f.prec ==> prec == 0) && (f.prec ==> prec > 0)
    ensures Body(0, base, prec, f) != [] && Body(0, base, prec, f)[0] == '0'
  {
    ZeroBody(base, prec, f);
    if f.prec {
      RepeatFront('0', prec);
    } else {
      NoRepeat('0', -1);
    }
  }

  lemma NoInkForZero(width: nat, g: Flags)
    requires Proper(0, false, 8, 0, g) && g.prec && !g.plus && !g.space
    ensures Ink(Ntoa(0, false, 8, 0, width, g)) == 0
  {
    var n := CodeMeasures(0, false, 8, 0, width, g);
    InkOfPrefixes();
  }

  /** "%#4x" of 0x1234 prints "0x34"; the standard asks for "0x1234". */
  lemma DigitsAreOverwritten(f: Flags)
    requires f == NO_FLAGS.(hash := true)
    ensures Ntoa(0x1234, false, 16, 0, 4, f) == "0x34"
    ensures AltField(0x1234, 16, 0, 4, f) == "0x1234"
  {
    hide Numeral, Ntoa, AltField;
    FourDigits();
    var core, t := AltCodeShape(0x1234, 16, 0, 4, f);
    var core', t' := AltFieldShape(0x1234, 16, 0, 4, f);
    assert Filled("1234", 0, 4, f) == "1234" && core == "0x34" && core' == "0x1234";
  }

  lemma FourDigits()
    ensures Numeral(0x1234, 16, false) == "1234"
  {
    assert Numeral(0x1, 16, false) == [] + "1" == "1";
    assert Numeral(0x12, 16, false) == "12";
    assert Numeral(0x123, 16, false) == "123";
  }
}
