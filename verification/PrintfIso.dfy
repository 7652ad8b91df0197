/** The integer conversions of printf.c against the C standard: exactly when they agree,
    and that the value can be read back. */
module PrintfIso {
  import opened Common
  import opened PrintfText

  /** What _vsnprintf sees to: no sign but for decimals, no zero padding with a precision,
      a value of 64 bits; and here, no '#'. */
  predicate Proper(v: nat, neg: bool, base: nat, prec: nat, f: Flags) {
    && (base == 2 || base == 8 || base == 10 || base == 16) && v < 0x1_0000_0000_0000_0000
    && !f.hash && (f.prec ==> !f.zeropad) && (!f.prec ==> prec == 0)
    && (neg || f.plus || f.space ==> base == 10)
  }

  /** The number of digits without any padding. */
  function DigitCount(v: nat, base: nat, f: Flags): nat
    requires 2 <= base <= 16
  {
    if v == 0 then (if f.prec then 0 else 1) else |Numeral(v, base, f.upper)|
  }

  /** When the code does what the standard asks for: '-' does not go with a precision that
      adds zeros, and digits, zeros and sign fit the conversion buffer. (Where a blank for
      a sign does not fit, the padding may make up for it.) */
  predicate MeetsIso(v: nat, neg: bool, base: nat, prec: nat, width: nat, f: Flags)
    requires 2 <= base <= 16
  {
    var d, s := DigitCount(v, base, f), |Sign(neg, f)|;
    if f.left then d <= PRINTF_NTOA_BUFFER_SIZE && prec <= d
    else if f.zeropad then d <= PRINTF_NTOA_BUFFER_SIZE && width <= PRINTF_NTOA_BUFFER_SIZE
    else
      || Max(d, prec) + s <= PRINTF_NTOA_BUFFER_SIZE
      || (Max(d, prec) == PRINTF_NTOA_BUFFER_SIZE && Sign(neg, f) == [' '] && width > PRINTF_NTOA_BUFFER_SIZE)
  }

  // ----- The shape of what the code prints

  lemma PadZerosReversed(s: Text, n: nat)
    ensures Reverse(PadZeros(s, n)) == Repeat('0', Min(n, PRINTF_NTOA_BUFFER_SIZE) - |s|) + Reverse(s)
  {
    var z := ZeroPadding(s, n);
    ReverseSame(s, z);
  }

  lemma ZeroPadding(s: Text, n: nat) returns (z: Text)
    ensures z == Repeat('0', Min(n, PRINTF_NTOA_BUFFER_SIZE) - |s|) && PadZeros(s, n) == s + z && Reverse(z) == z
  {
    z := Repeat('0', Min(n, PRINTF_NTOA_BUFFER_SIZE) - |s|);
    ReverseRepeat('0', Min(n, PRINTF_NTOA_BUFFER_SIZE) - |s|);
  }

  lemma ReverseSame(s: Text, z: Text)
    requires Reverse(z) == z
    ensures Reverse(s + z) == z + Reverse(s)
  {
    ReverseJoin(s, z);
  }

  lemma NoZeros(s: Text)
    ensures PadZeros(s, 0) == s
  {
    Empty(s);
  }

  lemma PushReversed(s: Text, t: Text)
    requires |t| <= 1
    ensures Reverse(Push(s, t)) == (if |s| < PRINTF_NTOA_BUFFER_SIZE then t else []) + Reverse(s)
  {
    ReverseJoin(s, t);
    if t != [] {
      assert t[1..] == [] && Reverse(t) == [] + [t[0]] == t;
    }
    Empty(Reverse(s));
  }

  /** The sign, as far as there is room for it, and the padded digits. */
  function Core(p: Text, sign: Text): Text {
    (if |p| < PRINTF_NTOA_BUFFER_SIZE then sign else []) + Reverse(p)
  }

  /** How many digits the code pads to. */
  function Zeros(neg: bool, prec: nat, width: nat, f: Flags): nat {
    if f.left then 0 else if f.zeropad then Width(neg, width, f) else prec
  }

  lemma BufferIsPushed(d: Text, neg: bool, prec: nat, width: nat, base: nat, f: Flags) returns (p: Text, buf: Text)
    requires !f.hash && (f.prec ==> !f.zeropad) && (!f.prec ==> prec == 0)
    ensures p == PadZeros(d, Zeros(neg, prec, width, f))
    ensures buf == FormatBuffer(d, neg, base, prec, width, f) == Push(p, Sign(neg, f))
  {
    p := PadZeros(d, Zeros(neg, prec, width, f));
    buf := FormatBuffer(d, neg, base, prec, width, f);
    NoZeros(d);
  }

  lemma OutRevShape(buf: Text, core: Text, width: nat, f: Flags) returns (t: Text)
    requires Reverse(buf) == core
    ensures t == OutRev(buf, width, f) == Padded(core, width, f)
  {
    t := OutRev(buf, width, f);
    Empty(core);
    Empty(core + Repeat(' ', width - |core|));
    Empty(Repeat(' ', width - |core|) + core);
  }

  /** With blanks behind or before, or none. */
  function Padded(core: Text, width: nat, f: Flags): Text {
    if f.left then core + Repeat(' ', width - |core|)
    else if f.zeropad then core
    else Repeat(' ', width - |core|) + core
  }

  lemma CodeShape(v: nat, neg: bool, base: nat, prec: nat, width: nat, f: Flags)
    returns (p: Text, core: Text, t: Text)
    requires Proper(v, neg, base, prec, f)
    ensures p == PadZeros(NtoaDigits(v, base, f), Zeros(neg, prec, width, f)) && core == Core(p, Sign(neg, f))
    ensures t == Ntoa(v, neg, base, prec, width, f) == Padded(core, width, f)
  {
    var buf;
    assert f.(hash := false) == f;
    p, buf := BufferIsPushed(NtoaDigits(v, base, f), neg, prec, width, base, f);
    core := Core(p, Sign(neg, f));
    PushReversed(p, Sign(neg, f));
    t := OutRevShape(buf, core, Width(neg, width, f), f);
    SameWidth(core, neg, width, f);
  }

  lemma SameWidth(core: Text, neg: bool, width: nat, f: Flags)
    ensures Padded(core, Width(neg, width, f), f) == Padded(core, width, f)
  {}

  // ----- The shape of what the standard asks for

  lemma {:induction false} DigitsAreTheNumeral(v: nat, base: nat, f: Flags)
    requires 2 <= base <= 16
    ensures var d := NtoaDigits(v, base, f);
            && |d| == Min(DigitCount(v, base, f), PRINTF_NTOA_BUFFER_SIZE)
            && (v > 0 && DigitCount(v, base, f) <= PRINTF_NTOA_BUFFER_SIZE ==> Reverse(d) == Numeral(v, base, f.upper))
            && (v == 0 ==> Reverse(d) == if f.prec then [] else ['0'])
  {
    if v > 0 {
      DigitLoopIsNumeral(v, base, f.upper, PRINTF_NTOA_BUFFER_SIZE);
    } else if !f.prec {
      Empty(['0']);
      assert DigitChar(0, f.upper) == '0' && DigitLoop(0, base, f.upper, PRINTF_NTOA_BUFFER_SIZE) == ['0'];
      assert (['0'])[1..] == [] && Reverse(['0']) == [] + ['0'];
    }
  }

  /** The body is the digits of the code with the zeros of the precision. */
  lemma BodyShape(v: nat, neg: bool, base: nat, prec: nat, f: Flags)
    requires Proper(v, neg, base, prec, f)
    ensures |Body(v, base, prec, f)| == Max(DigitCount(v, base, f), prec)
    ensures DigitCount(v, base, f) <= PRINTF_NTOA_BUFFER_SIZE ==>
              Body(v, base, prec, f) == Repeat('0', prec - DigitCount(v, base, f)) + Reverse(NtoaDigits(v, base, f))
  {
    DigitsAreTheNumeral(v, base, f);
    if v == 0 {
      ZeroBody(base, prec, f);
    } else {
      OtherBody(v, base, prec, f);
    }
  }

  lemma ZeroBody(base: nat, prec: nat, f: Flags)
    requires 2 <= base <= 16 && (!f.prec ==> prec == 0)
    ensures Body(0, base, prec, f) == if f.prec then Repeat('0', prec) + [] else Repeat('0', -1) + ['0']
    ensures |Body(0, base, prec, f)| == if f.prec then prec else 1
  {
    Empty(Repeat('0', if f.prec then prec else 1));
    assert Repeat('0', 1) == Repeat('0', 0) + ['0'] && Repeat('0', 0) == Repeat('0', -1) == [];
  }

  lemma OtherBody(v: nat, base: nat, prec: nat, f: Flags)
    requires 2 <= base <= 16 && v > 0 && (!f.prec ==> prec == 0)
    ensures Body(v, base, prec, f) == Repeat('0', prec - |Numeral(v, base, f.upper)|) + Numeral(v, base, f.upper)
    ensures |Body(v, base, prec, f)| == Max(|Numeral(v, base, f.upper)|, prec)
  {
    assert |Numeral(v, base, f.upper)| >= 1;
  }

  // ----- Decimals are short

  function Pow(b: nat, k: nat): nat {
    if k == 0 then 1 else b * Pow(b, k - 1)
  }

  lemma {:induction false} NumeralLength(v: nat, base: nat, upper: bool, k: nat)
    requires 2 <= base <= 16 && v < Pow(base, k)
    ensures |Numeral(v, base, upper)| <= k
    decreases k
  {
    if v > 0 {
      Smaller(v, base);
      if k > 0 {
        Shorter(v, base, Pow(base, k - 1));
        NumeralLength(v / base, base, upper, k - 1);
      }
    }
  }

  lemma Shorter(v: nat, base: nat, p: nat)
    requires base >= 2 && v < base * p
    ensures v / base < p
  {}

  lemma DecimalsAreShort(v: nat, f: Flags)
    requires v < 0x1_0000_0000_0000_0000
    ensures DigitCount(v, 10, f) <= 20
  {
    assert Pow(10, 5) == 100000;
    assert Pow(10, 10) == 10000000000;
    assert Pow(10, 15) == 1000000000000000;
    assert Pow(10, 20) == 100000000000000000000;
    NumeralLength(v, 10, f.upper, 20);
  }

  // ----- Agreement, one way

  /** The body as the code's digits make it, when they fit. */
  lemma BodyOfDigits(v: nat, neg: bool, base: nat, prec: nat, f: Flags) returns (d: Text, body: Text)
    requires Proper(v, neg, base, prec, f) && DigitCount(v, base, f) <= PRINTF_NTOA_BUFFER_SIZE
    ensures d == NtoaDigits(v, base, f) && body == Body(v, base, prec, f)
    ensures |d| == DigitCount(v, base, f) && (Sign(neg, f) != [] ==> |d| <= 20)
    ensures body == Repeat('0', prec - |d|) + Reverse(d)
  {
    d, body := NtoaDigits(v, base, f), Body(v, base, prec, f);
    DecimalsAreShort(v, f);
    DigitsAreTheNumeral(v, base, f);
    BodyShape(v, neg, base, prec, f);
  }

  lemma LeftForm(d: Text, sign: Text, prec: nat, width: nat, f: Flags)
    requires f.left && prec <= |d| && (sign != [] ==> |d| < PRINTF_NTOA_BUFFER_SIZE)
    ensures Padded(Core(d, sign), width, f) == Field(sign, Repeat('0', prec - |d|) + Reverse(d), width, true, false)
  {
    Empty(Reverse(d));
  }

  lemma ZeropadForm(d: Text, sign: Text, w: nat, width: nat)
    requires width <= PRINTF_NTOA_BUFFER_SIZE && (sign != [] ==> |d| < PRINTF_NTOA_BUFFER_SIZE)
    requires |sign| <= 1 && w == (if width == 0 then 0 else width - |sign|)
    ensures Core(PadZeros(d, w), sign) == Field(sign, Repeat('0', -|d|) + Reverse(d), width, false, true)
  {
    var p, z, r := PadParts(d, w);
    CoreFits(p, sign);
    NoRepeat('0', -|d|);
    Empty(r);
    if width == 0 {
      NoRepeat('0', -|d|);
      NoZerosBehindSign(sign, r);
    } else {
      ZerosBehindSign(sign, r, z, width);
    }
  }

  lemma PadParts(d: Text, w: nat) returns (p: Text, z: Text, r: Text)
    ensures p == PadZeros(d, w) && z == Repeat('0', Min(w, PRINTF_NTOA_BUFFER_SIZE) - |d|) && r == Reverse(d)
    ensures Reverse(p) == z + r
  {
    p, z, r := PadZeros(d, w), Repeat('0', Min(w, PRINTF_NTOA_BUFFER_SIZE) - |d|), Reverse(d);
    PadZerosReversed(d, w);
  }

  lemma NoZerosBehindSign(sign: Text, body: Text)
    ensures sign + ([] + body) == Field(sign, body, 0, false, true)
  {
    NoRepeat('0', 0 - |sign| - |body|);
    Associative(sign, [], body);
  }

  lemma NoRepeat(c: char, n: int)
    requires n <= 0
    ensures Repeat(c, n) == []
  {}

  lemma CoreFits(p: Text, sign: Text)
    requires |p| < PRINTF_NTOA_BUFFER_SIZE || sign == []
    ensures Core(p, sign) == sign + Reverse(p)
  {}

  lemma ZerosBehindSign(sign: Text, body: Text, zeros: Text, width: nat)
    requires zeros == Repeat('0', width - |sign| - |body|)
    ensures sign + (zeros + body) == Field(sign, body, width, false, true)
  {
    Associative(sign, zeros, body);
  }

  lemma BlanksBefore(sign: Text, body: Text, width: nat, f: Flags)
    requires !f.left && !f.zeropad
    ensures Padded(sign + body, width, f) == Field(sign, body, width, false, false)
  {
    Associative(Repeat(' ', width - |sign| - |body|), sign, body);
  }

  lemma BlanksForm(d: Text, sign: Text, prec: nat, width: nat, f: Flags)
    requires !f.left && !f.zeropad && |d| <= PRINTF_NTOA_BUFFER_SIZE
    requires |sign| <= 1 && Max(|d|, prec) + |sign| <= PRINTF_NTOA_BUFFER_SIZE
    ensures Padded(Core(PadZeros(d, prec), sign), width, f)
         == Field(sign, Repeat('0', prec - |d|) + Reverse(d), width, false, false)
  {
    PadZerosReversed(d, prec);
    CoreFits(PadZeros(d, prec), sign);
    BlanksBefore(sign, Repeat('0', prec - |d|) + Reverse(d), width, f);
  }

  /** A blank for a sign that does not fit is one blank of the padding. */
  lemma BlankForm(d: Text, prec: nat, width: nat, f: Flags)
    requires !f.left && !f.zeropad && Max(|d|, prec) == PRINTF_NTOA_BUFFER_SIZE < width
    ensures Padded(Core(PadZeros(d, prec), [' ']), width, f)
         == Field([' '], Repeat('0', prec - |d|) + Reverse(d), width, false, false)
  {
    PadZerosReversed(d, prec);
    BlankForSign(Repeat('0', prec - |d|) + Reverse(d), width, f);
    Empty(Reverse(PadZeros(d, prec)));
  }

  lemma BlankForSign(body: Text, width: nat, f: Flags)
    requires !f.left && !f.zeropad && |body| < width
    ensures Padded(body, width, f) == Field([' '], body, width, false, false)
  {
    assert Repeat(' ', width - |body|) == Repeat(' ', width - 1 - |body|) + [' '];
  }

  lemma MeetingAgrees(v: nat, neg: bool, base: nat, prec: nat, width: nat, f: Flags)
    requires Proper(v, neg, base, prec, f) && MeetsIso(v, neg, base, prec, width, f)
    ensures Ntoa(v, neg, base, prec, width, f) == Iso(v, neg, base, prec, width, f)
  {
    var p, core, t := CodeShape(v, neg, base, prec, width, f);
    var d, body := BodyOfDigits(v, neg, base, prec, f);
    var sign := Sign(neg, f);
    if f.left {
      NoZeros(d);
      LeftForm(d, sign, prec, width, f);
    } else if f.zeropad {
      ZeropadForm(d, sign, Width(neg, width, f), width);
    } else if Max(|d|, prec) + |sign| <= PRINTF_NTOA_BUFFER_SIZE {
      BlanksForm(d, sign, prec, width, f);
    } else {
      BlankForm(d, prec, width, f);
    }
  }

  // ----- And the other

  /** The characters that are not blank. */
  function Ink(s: Text): nat {
    if s == [] then 0 else InkOf(s[0]) + Ink(s[1..])
  }

  function InkOf(c: char): nat {
    if c == ' ' then 0 else 1
  }

  lemma {:induction false} InkJoin(a: Text, b: Text)
    ensures Ink(a + b) == Ink(a) + Ink(b)
  {
    if a == [] {
      Empty(b);
    } else {
      InkJoin(a[1..], b);
      assert (a + b)[1..] == a[1..] + b;
    }
  }

  lemma {:induction false} InkRepeat(c: char, n: int)
    ensures Ink(Repeat(c, n)) == if c == ' ' || n < 0 then 0 else n
  {
    if n > 0 {
      InkRepeat(c, n - 1);
      InkJoin(Repeat(c, n - 1), [c]);
      InkOne(c);
    }
  }

  lemma {:induction false} InkReverse(s: Text)
    ensures Ink(Reverse(s)) == Ink(s)
  {
    if s != [] {
      InkReverse(s[1..]);
      InkJoin(Reverse(s[1..]), [s[0]]);
      InkOne(s[0]);
    }
  }

  lemma InkFront(c: char, s: Text)
    ensures Ink([c] + s) == InkOf(c) + Ink(s)
  {
    assert ([c] + s)[1..] == s;
  }

  lemma DigitIsInk(d: nat, upper: bool)
    requires d < 16
    ensures DigitChar(d, upper) != ' ' && DigitChar(d, upper) != '-'
  {}

  lemma {:induction false} InkDigits(v: nat, base: nat, upper: bool, room: nat)
    requires 2 <= base <= 16
    ensures Ink(DigitLoop(v, base, upper, room)) == |DigitLoop(v, base, upper, room)|
    decreases room
  {
    if room > 0 {
      var c, q := FirstDigit(v, base, upper, room);
      InkFront(c, if q == 0 then [] else DigitLoop(q, base, upper, room - 1));
      if q != 0 {
        InkDigits(q, base, upper, room - 1);
      }
    }
  }

  lemma FirstDigit(v: nat, base: nat, upper: bool, room: nat) returns (c: char, q: nat)
    requires 2 <= base <= 16 && room > 0
    ensures c != ' ' && c != '-'
    ensures DigitLoop(v, base, upper, room) == [c] + (if q == 0 then [] else DigitLoop(q, base, upper, room - 1))
  {
    c, q := DigitChar(v % base, upper), v / base;
    DigitIsInk(v % base, upper);
  }

  lemma InkOne(c: char)
    ensures Ink([c]) == InkOf(c)
  {
    assert ([c])[1..] == [];
  }

  lemma {:induction false} InkNumeral(v: nat, base: nat, upper: bool)
    requires 2 <= base <= 16
    ensures Ink(Numeral(v, base, upper)) == |Numeral(v, base, upper)|
  {
    if v > 0 {
      Smaller(v, base);
      InkNumeral(v / base, base, upper);
      SameDigit(v % base, upper);
      DigitIsInk(v % base, upper);
      InkJoin(Numeral(v / base, base, upper), [HexDigit(v % base, upper)]);
      InkOne(HexDigit(v % base, upper));
    }
  }

  lemma InkSign(neg: bool, f: Flags)
    ensures Ink(Sign(neg, f)) == if Sign(neg, f) == [] || Sign(neg, f) == [' '] then 0 else 1
  {
    InkOne('-');
    InkOne('+');
    InkOne(' ');
  }

  /** The length and the ink of what the code prints. */
  lemma CodeMeasures(v: nat, neg: bool, base: nat, prec: nat, width: nat, f: Flags) returns (n: nat)
    requires Proper(v, neg, base, prec, f)
    ensures n == Max(Min(DigitCount(v, base, f), 32), Min(Zeros(neg, prec, width, f), 32))
    ensures var t, room := Ntoa(v, neg, base, prec, width, f), n < 32;
            && Ink(t) == n + (if room then Ink(Sign(neg, f)) else 0)
            && |t| == Max(n + (if room then |Sign(neg, f)| else 0), if f.zeropad && !f.left then 0 else width)
  {
    hide Ntoa, NtoaDigits, PadZeros, Padded, Core, DigitCount, Zeros;
    var p, core, t := CodeShape(v, neg, base, prec, width, f);
    n := |p|;
    PaddedDigits(v, base, Zeros(neg, prec, width, f), f);
    CoreMeasures(p, Sign(neg, f));
    PaddedMeasures(core, width, f);
  }

  lemma PaddedDigits(v: nat, base: nat, n: nat, f: Flags)
    requires 2 <= base <= 16
    ensures var p := PadZeros(NtoaDigits(v, base, f), n);
            Ink(p) == |p| == Max(Min(DigitCount(v, base, f), 32), Min(n, 32))
  {
    DigitsAreTheNumeral(v, base, f);
    InkPadded(v, base, n, f);
  }

  lemma CoreMeasures(p: Text, sign: Text)
    ensures var s := if |p| < PRINTF_NTOA_BUFFER_SIZE then sign else [];
            |Core(p, sign)| == |s| + |p| && Ink(Core(p, sign)) == Ink(s) + Ink(p)
  {
    InkReverse(p);
    InkJoin(if |p| < PRINTF_NTOA_BUFFER_SIZE then sign else [], Reverse(p));
  }

  lemma PaddedMeasures(core: Text, width: nat, f: Flags)
    ensures Ink(Padded(core, width, f)) == Ink(core)
    ensures |Padded(core, width, f)| == Max(|core|, if f.zeropad && !f.left then 0 else width)
  {
    InkRepeat(' ', width - |core|);
    InkJoin(core, Repeat(' ', width - |core|));
    InkJoin(Repeat(' ', width - |core|), core);
  }

  lemma InkPadded(v: nat, base: nat, n: nat, f: Flags)
    requires 2 <= base <= 16
    ensures Ink(PadZeros(NtoaDigits(v, base, f), n)) == |PadZeros(NtoaDigits(v, base, f), n)|
  {
    var d := NtoaDigits(v, base, f);
    InkDigits(v, base, f.upper, PRINTF_NTOA_BUFFER_SIZE);
    var z := ZeroPadding(d, n);
    InkRepeat('0', Min(n, PRINTF_NTOA_BUFFER_SIZE) - |d|);
    InkJoin(d, z);
  }

  /** And of what the standard asks for. */
  lemma IsoMeasures(v: nat, neg: bool, base: nat, prec: nat, width: nat, f: Flags)
    requires Proper(v, neg, base, prec, f)
    ensures var t, b := Iso(v, neg, base, prec, width, f), Max(DigitCount(v, base, f), prec);
            && |t| == Max(|Sign(neg, f)| + b, width)
            && Ink(t) == Ink(Sign(neg, f)) + (if f.zeropad && !f.left then Max(b, width - |Sign(neg, f)|) else b)
  {
    BodyShape(v, neg, base, prec, f);
    InkBody(v, base, prec, f);
    FieldMeasures(Sign(neg, f), Body(v, base, prec, f), width, f.left, f.zeropad && !f.prec);
  }

  lemma FieldMeasures(sign: Text, body: Text, width: nat, left: bool, zeros: bool)
    ensures var t := Field(sign, body, width, left, zeros);
            && |t| == Max(|sign| + |body|, width)
            && Ink(t) == Ink(sign) + Ink(body) + (if zeros && !left then Max(0, width - |sign| - |body|) else 0)
  {
    var fill := width - |sign| - |body|;
    InkRepeat(' ', fill);
    InkRepeat('0', fill);
    if left {
      InkJoin(sign, body);
      InkJoin(sign + body, Repeat(' ', fill));
    } else if zeros {
      InkJoin(sign, Repeat('0', fill));
      InkJoin(sign + Repeat('0', fill), body);
    } else {
      InkJoin(Repeat(' ', fill), sign);
      InkJoin(Repeat(' ', fill) + sign, body);
    }
  }

  lemma InkBody(v: nat, base: nat, prec: nat, f: Flags)
    requires 2 <= base <= 16
    ensures Ink(Body(v, base, prec, f)) == |Body(v, base, prec, f)|
  {
    var n := Numeral(v, base, f.upper);
    var zeros := (if f.prec then prec else 1) - |n|;
    InkNumeral(v, base, f.upper);
    InkRepeat('0', zeros);
    InkJoin(Repeat('0', zeros), n);
  }

  /** The code prints what the standard asks for exactly when the condition holds. */
  lemma AgreesExactlyWhen(v: nat, neg: bool, base: nat, prec: nat, width: nat, f: Flags)
    requires Proper(v, neg, base, prec, f)
    ensures Ntoa(v, neg, base, prec, width, f) == Iso(v, neg, base, prec, width, f)
       <==> MeetsIso(v, neg, base, prec, width, f)
  {
    var n := CodeMeasures(v, neg, base, prec, width, f);
    IsoMeasures(v, neg, base, prec, width, f);
    InkSign(neg, f);
    DecimalsAreShort(v, f);
    if MeetsIso(v, neg, base, prec, width, f) {
      MeetingAgrees(v, neg, base, prec, width, f);
    }
  }
}
