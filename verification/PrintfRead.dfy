/** Reading back what an integer conversion of printf.c printed. */
module PrintfRead {
  import opened Common
  import opened PrintfText
  import opened PrintfIso

  predicate IsDigit(c: char) {
    '0' <= c <= '9' || 'a' <= c <= 'f' || 'A' <= c <= 'F'
  }

  function DigitOf(c: char): nat
    requires IsDigit(c)
  {
    if '0' <= c <= '9' then (c - '0') as nat
    else if 'a' <= c <= 'f' then (c - 'a') as nat + 10 else (c - 'A') as nat + 10
  }

  function SkipBlanks(s: Text): Text {
    if s != [] && s[0] == ' ' then SkipBlanks(s[1..]) else s
  }

  /** The number in front, on top of what is already read. */
  function Number(s: Text, base: nat, sofar: nat): nat
    decreases |s|
  {
    if s == [] || !IsDigit(s[0]) then sofar else Number(s[1..], base, sofar * base + DigitOf(s[0]))
  }

  /** Blanks, a sign, and a number. */
  function Read(s: Text, base: nat): (bool, nat) {
    var t := SkipBlanks(s);
    var signed := t != [] && (t[0] == '-' || t[0] == '+');
    (signed && t[0] == '-', Number(if signed then t[1..] else t, base, 0))
  }

  lemma DigitsReadBack(d: nat, upper: bool)
    requires d < 16
    ensures IsDigit(DigitChar(d, upper)) && DigitOf(DigitChar(d, upper)) == d
  {}

  lemma {:induction false} BlanksAreSkipped(n: int, s: Text)
    ensures SkipBlanks(Repeat(' ', n) + s) == SkipBlanks(s)
  {
    if n <= 0 {
      Empty(s);
    } else {
      RepeatFront(' ', n);
      Associative([' '], Repeat(' ', n - 1), s);
      assert ([' '] + (Repeat(' ', n - 1) + s))[1..] == Repeat(' ', n - 1) + s;
      BlanksAreSkipped(n - 1, s);
    }
  }

  predicate AllDigits(s: Text) {
    s == [] || (IsDigit(s[0]) && AllDigits(s[1..]))
  }

  lemma {:induction false} DigitsJoin(a: Text, b: Text)
    requires AllDigits(a) && AllDigits(b)
    ensures AllDigits(a + b)
  {
    if a == [] {
      Empty(b);
    } else {
      DigitsJoin(a[1..], b);
      assert (a + b)[1..] == a[1..] + b;
    }
  }

  /** Digits are read before what follows them. */
  lemma {:induction false} NumberJoin(a: Text, b: Text, base: nat, sofar: nat)
    requires AllDigits(a)
    ensures Number(a + b, base, sofar) == Number(b, base, Number(a, base, sofar))
    decreases |a|
  {
    if a == [] {
      Empty(b);
    } else {
      NumberJoin(a[1..], b, base, sofar * base + DigitOf(a[0]));
      assert (a + b)[1..] == a[1..] + b;
    }
  }

  lemma NumberOne(c: char, base: nat, sofar: nat)
    requires IsDigit(c)
    ensures AllDigits([c]) && Number([c], base, sofar) == sofar * base + DigitOf(c)
  {
    assert ([c])[1..] == [];
  }

  lemma {:induction false} ZerosAreNothing(n: int, base: nat)
    ensures AllDigits(Repeat('0', n)) && Number(Repeat('0', n), base, 0) == 0
  {
    if n > 0 {
      ZerosAreNothing(n - 1, base);
      NumberOne('0', base, 0);
      DigitsJoin(Repeat('0', n - 1), ['0']);
      NumberJoin(Repeat('0', n - 1), ['0'], base, 0);
    }
  }

  lemma {:induction false} NumeralReadsBack(v: nat, base: nat, upper: bool)
    requires 2 <= base <= 16
    ensures AllDigits(Numeral(v, base, upper)) && Number(Numeral(v, base, upper), base, 0) == v
    decreases v
  {
    if v > 0 {
      var c, q, d := OneDigitOff(v, base, upper);
      NumeralReadsBack(q, base, upper);
      NumberOne(c, base, q);
      DigitsJoin(Numeral(q, base, upper), [c]);
      NumberJoin(Numeral(q, base, upper), [c], base, 0);
    }
  }

  lemma OneDigitOff(v: nat, base: nat, upper: bool) returns (c: char, q: nat, d: nat)
    requires 2 <= base <= 16 && v > 0
    ensures q < v && IsDigit(c) && DigitOf(c) == d && v == q * base + d
    ensures Numeral(v, base, upper) == Numeral(q, base, upper) + [c]
  {
    c, q, d := HexDigit(v % base, upper), v / base, v % base;
    SameDigit(d, upper);
    Smaller(v, base);
    DigitsReadBack(d, upper);
  }

  /** The body, with zeros before it and blanks behind, gives the value. */
  lemma BodyReadsBack(v: nat, base: nat, prec: nat, f: Flags, zeros: int, blanks: int) returns (digits: Text)
    requires 2 <= base <= 16
    ensures digits == Repeat('0', zeros) + Body(v, base, prec, f) && AllDigits(digits)
    ensures Number(digits + Repeat(' ', blanks), base, 0) == v
  {
    var n := Numeral(v, base, f.upper);
    var pad := (if f.prec then prec else 1) - |n|;
    var body := Body(v, base, prec, f);
    ZerosAreNothing(pad, base);
    NumeralReadsBack(v, base, f.upper);
    DigitsJoin(Repeat('0', pad), n);
    NumberJoin(Repeat('0', pad), n, base, 0);
    digits := PaddedNumber(body, zeros, blanks, base, v);
  }

  lemma PaddedNumber(body: Text, zeros: int, blanks: int, base: nat, v: nat) returns (digits: Text)
    requires AllDigits(body) && Number(body, base, 0) == v
    ensures digits == Repeat('0', zeros) + body && AllDigits(digits)
    ensures Number(digits + Repeat(' ', blanks), base, 0) == v
  {
    digits := Repeat('0', zeros) + body;
    ZerosAreNothing(zeros, base);
    DigitsJoin(Repeat('0', zeros), body);
    NumberJoin(Repeat('0', zeros), body, base, 0);
    NumberJoin(digits, Repeat(' ', blanks), base, 0);
    if blanks > 0 {
      RepeatFront(' ', blanks);
    }
  }

  /** A sign in front of digits is read, and a blank for it skipped. */
  lemma SignReadsBack(neg: bool, f: Flags, digits: Text, blanks: int, base: nat)
    requires AllDigits(digits)
    ensures Read(Sign(neg, f) + (digits + Repeat(' ', blanks)), base)
         == (neg, Number(digits + Repeat(' ', blanks), base, 0))
  {
    var sign, rest := Sign(neg, f), digits + Repeat(' ', blanks);
    RestReads(digits, blanks, base);
    if sign == [] {
      Empty(rest);
    } else {
      assert (sign + rest)[0] == sign[0] && (sign + rest)[1..] == rest;
    }
  }

  /** Without a sign, there is none to be read. */
  lemma RestReads(digits: Text, blanks: int, base: nat)
    requires AllDigits(digits)
    ensures var rest := digits + Repeat(' ', blanks);
            Read(rest, base) == (false, Number(rest, base, 0))
  {
    if digits == [] {
      Empty(Repeat(' ', blanks));
      BlanksAreSkipped(blanks, []);
      Empty(Repeat(' ', blanks));
      if blanks > 0 {
        RepeatFront(' ', blanks);
      }
    } else {
      assert (digits + Repeat(' ', blanks))[0] == digits[0];
    }
  }

  lemma BlanksRead(n: int, s: Text, base: nat)
    ensures Read(Repeat(' ', n) + s, base) == Read(s, base)
  {
    BlanksAreSkipped(n, s);
  }

  /** A field with a sign and digits reads back as the value, however it is padded. */
  lemma FieldReadsBack(v: nat, neg: bool, base: nat, prec: nat, width: nat, f: Flags, g: Flags, left: bool, zeros: bool)
    requires 2 <= base <= 16
    ensures Read(Field(Sign(neg, f), Body(v, base, prec, g), width, left, zeros), base) == (neg, v)
  {
    var sign, body := Sign(neg, f), Body(v, base, prec, g);
    var fill := width - |sign| - |body|;
    if left {
      var digits := BodyReadsBack(v, base, prec, g, 0, fill);
      Empty(body);
      SignReadsBack(neg, f, digits, fill, base);
      Associative(sign, body, Repeat(' ', fill));
    } else if zeros {
      var digits := BodyReadsBack(v, base, prec, g, fill, 0);
      SignReadsBack(neg, f, digits, 0, base);
      Empty(digits);
      Associative(sign, Repeat('0', fill), body);
    } else {
      var digits := BodyReadsBack(v, base, prec, g, 0, 0);
      Empty(body);
      SignReadsBack(neg, f, digits, 0, base);
      BlanksRead(fill, sign + body, base);
      Associative(Repeat(' ', fill), sign, body);
    }
  }

  /** What the standard asks for reads back as the value. */
  lemma IsoReadsBack(v: nat, neg: bool, base: nat, prec: nat, width: nat, f: Flags)
    requires 2 <= base <= 16
    ensures Read(Iso(v, neg, base, prec, width, f), base) == (neg, v)
  {
    FieldReadsBack(v, neg, base, prec, width, f, f, f.left, f.zeropad && !f.prec);
  }

  /** And so does what the code prints, where it does what the standard asks for. */
  lemma CodeReadsBack(v: nat, neg: bool, base: nat, prec: nat, width: nat, f: Flags)
    requires Proper(v, neg, base, prec, f) && MeetsIso(v, neg, base, prec, width, f)
    ensures Read(Ntoa(v, neg, base, prec, width, f), base) == (neg, v)
  {
    MeetingAgrees(v, neg, base, prec, width, f);
    IsoReadsBack(v, neg, base, prec, width, f);
  }

  /** In particular, with widths and precisions below the size of the conversion buffer, no
      precision together with '-', and base 2 on 32-bit values only. */
  lemma SmallFieldsReadBack(v: nat, neg: bool, base: nat, prec: nat, width: nat, f: Flags)
    requires Proper(v, neg, base, prec, f) && prec <= 31 && width <= 31
    requires (f.left ==> !f.prec) && (base == 2 ==> v < 0x1_0000_0000)
    ensures Ntoa(v, neg, base, prec, width, f) == Iso(v, neg, base, prec, width, f)
    ensures Read(Ntoa(v, neg, base, prec, width, f), base) == (neg, v)
  {
    NumbersAreShort(v, base, f);
    CodeReadsBack(v, neg, base, prec, width, f);
    MeetingAgrees(v, neg, base, prec, width, f);
  }

  lemma NumbersAreShort(v: nat, base: nat, f: Flags)
    requires base == 2 || base == 8 || base == 10 || base == 16
    requires v < 0x1_0000_0000_0000_0000 && (base == 2 ==> v < 0x1_0000_0000)
    ensures DigitCount(v, base, f) <= PRINTF_NTOA_BUFFER_SIZE
    ensures base == 10 ==> DigitCount(v, base, f) <= 20
  {
    if base == 10 {
      DecimalsAreShort(v, f);
    } else if base == 2 {
      assert Pow(2, 4) == 0x10;
      assert Pow(2, 8) == 0x100;
      assert Pow(2, 12) == 0x1000;
      assert Pow(2, 16) == 0x10000;
      assert Pow(2, 20) == 0x100000;
      assert Pow(2, 24) == 0x1000000;
      assert Pow(2, 28) == 0x10000000;
      assert Pow(2, 32) == 0x100000000;
      NumeralLength(v, 2, f.upper, 32);
    } else if base == 8 {
      assert Pow(8, 5) == 0x8000;
      assert Pow(8, 10) == 0x40000000;
      assert Pow(8, 15) == 0x200000000000;
      assert Pow(8, 20) == 0x1000000000000000;
      assert Pow(8, 22) == 0x40000000000000000;
      NumeralLength(v, 8, f.upper, 22);
    } else {
      assert Pow(16, 8) == 0x1_0000_0000 && Pow(16, 16) == 0x1_0000_0000_0000_0000;
      NumeralLength(v, 16, f.upper, 16);
    }
  }
}
