/** What the integer conversions of printf.c print, and what the C standard asks for. */
module PrintfText {
  import opened Common

  type Text = seq<char>

  /** The flags of a conversion; `prec` says that a precision was given. */
  datatype Flags = Flags(
    zeropad: bool, left: bool, plus: bool, space: bool, hash: bool, upper: bool,
    chr: bool, short: bool, long: bool, longLong: bool, prec: bool)

  const NO_FLAGS := Flags(false, false, false, false, false, false, false, false, false, false, false)

  const PRINTF_NTOA_BUFFER_SIZE: nat := 32

  function DigitChar(d: nat, upper: bool): char
    requires d < 16
  {
    if d < 10 then '0' + d as char else (if upper then 'A' else 'a') + (d - 10) as char
  }

  function Repeat(c: char, n: int): (r: Text)
    ensures |r| == if n < 0 then 0 else n
  {
    if n <= 0 then [] else Repeat(c, n - 1) + [c]
  }

  function Reverse(s: Text): (r: Text)
    ensures |r| == |s|
  {
    if s == [] then [] else Reverse(s[1..]) + [s[0]]
  }

  // ----- What the code prints

  /** The digit loop: least significant first, at least one, and no more than there is
      room for. */
  function DigitLoop(v: nat, base: nat, upper: bool, room: nat): (r: Text)
    requires 2 <= base <= 16
    ensures |r| <= room
    decreases room
  {
    if room == 0 then [] else
    [DigitChar(v % base, upper)] + (if v / base == 0 then [] else DigitLoop(v / base, base, upper, room - 1))
  }

  function NtoaDigits(v: nat, base: nat, f: Flags): Text
    requires 2 <= base <= 16
  {
    if !f.prec || v != 0 then DigitLoop(v, base, f.upper, PRINTF_NTOA_BUFFER_SIZE) else []
  }

  /** Zeros up to `n` characters, or the size of the buffer. */
  function PadZeros(s: Text, n: nat): (r: Text)
    ensures |s| <= |r| && (|s| <= PRINTF_NTOA_BUFFER_SIZE ==> |r| <= PRINTF_NTOA_BUFFER_SIZE)
  {
    s + Repeat('0', (if n < PRINTF_NTOA_BUFFER_SIZE then n else PRINTF_NTOA_BUFFER_SIZE) - |s|)
  }

  function Sign(neg: bool, f: Flags): Text {
    if neg then ['-'] else if f.plus then ['+'] else if f.space then [' '] else []
  }

  /** A character more, if there is room. */
  function Push(s: Text, t: Text): Text {
    if |s| < PRINTF_NTOA_BUFFER_SIZE then s + t else s
  }

  /** The '#' prefix, which takes the place of digits when they fill the field. */
  function HashPrefix(s: Text, base: nat, prec: nat, width: nat, f: Flags): Text {
    var n := |s|;
    var cut := !f.prec && n > 0 && (n == prec || n == width);
    var t := s[..if !cut then n else if base == 16 && n > 1 then n - 2 else n - 1];
    var x := if base == 16 then (if f.upper then ['X'] else ['x']) else if base == 2 then ['b'] else [];
    Push(Push(t, x), ['0'])
  }

  /** The width that _ntoa_format goes on with: zeros leave room for the sign. */
  function Width(neg: bool, width: nat, f: Flags): nat {
    if !f.left && width != 0 && f.zeropad && (neg || f.plus || f.space) then width - 1 else width
  }

  /** The buffer of _ntoa_format before it is put out, last character first. */
  function FormatBuffer(d: Text, neg: bool, base: nat, prec: nat, width: nat, f: Flags): Text {
    var w := Width(neg, width, f);
    var p := if f.left then d else if f.zeropad then PadZeros(PadZeros(d, prec), w) else PadZeros(d, prec);
    Push(if f.hash then HashPrefix(p, base, prec, w, f) else p, Sign(neg, f))
  }

  /** _out_rev. */
  function OutRev(buf: Text, width: nat, f: Flags): Text {
    (if !f.left && !f.zeropad then Repeat(' ', width - |buf|) else [])
    + Reverse(buf)
    + (if f.left then Repeat(' ', width - |buf|) else [])
  }

  /** _ntoa_format. */
  function Format(d: Text, neg: bool, base: nat, prec: nat, width: nat, f: Flags): Text {
    OutRev(FormatBuffer(d, neg, base, prec, width, f), Width(neg, width, f), f)
  }

  /** _ntoa_long and _ntoa_long_long; there is no '#' prefix for zero. */
  function Ntoa(v: nat, neg: bool, base: nat, prec: nat, width: nat, f: Flags): Text
    requires 2 <= base <= 16
  {
    Format(NtoaDigits(v, base, f), neg, base, prec, width, if v == 0 then f.(hash := false) else f)
  }

  // ----- What section 7.21.6.1 of ISO/IEC 9899:2011 asks for

  function HexDigit(d: nat, upper: bool): char
    requires d < 16
  {
    (if upper then "0123456789ABCDEF" else "0123456789abcdef")[d]
  }

  lemma SameDigit(d: nat, upper: bool)
    requires d < 16
    ensures DigitChar(d, upper) == HexDigit(d, upper)
  {}

  /** The digits of a number, most significant first; none for zero. */
  function Numeral(v: nat, base: nat, upper: bool): Text
    requires 2 <= base <= 16
  {
    if v == 0 then [] else Numeral(v / base, base, upper) + [HexDigit(v % base, upper)]
  }

  /** The precision is the least number of digits, 1 if missing. */
  function Body(v: nat, base: nat, prec: nat, f: Flags): Text
    requires 2 <= base <= 16
  {
    var n := Numeral(v, base, f.upper);
    Repeat('0', (if f.prec then prec else 1) - |n|) + n
  }

  /** The width is the least number of characters: blanks before, or behind with '-', or
      zeros behind the sign with '0' unless there is '-' or a precision. */
  function Field(sign: Text, body: Text, width: nat, left: bool, zeros: bool): Text {
    var fill := width - |sign| - |body|;
    if left then sign + body + Repeat(' ', fill)
    else if zeros then sign + Repeat('0', fill) + body
    else Repeat(' ', fill) + sign + body
  }

  function Iso(v: nat, neg: bool, base: nat, prec: nat, width: nat, f: Flags): Text
    requires 2 <= base <= 16
  {
    Field(Sign(neg, f), Body(v, base, prec, f), width, f.left, f.zeropad && !f.prec)
  }

  // ----- One against the other

  lemma {:induction false} ReverseJoin(a: Text, b: Text)
    ensures Reverse(a + b) == Reverse(b) + Reverse(a)
  {
    if a == [] {
      assert a + b == b && Reverse(b) + [] == Reverse(b);
    } else {
      ReverseJoin(a[1..], b);
      assert (a + b)[1..] == a[1..] + b;
      Associative(Reverse(b), Reverse(a[1..]), [a[0]]);
    }
  }

  lemma {:induction false} ReverseRepeat(c: char, n: int)
    ensures Reverse(Repeat(c, n)) == Repeat(c, n)
  {
    if n > 0 {
      ReverseJoin(Repeat(c, n - 1), [c]);
      ReverseRepeat(c, n - 1);
      RepeatFront(c, n);
      assert ([c])[1..] == [] && Reverse([c]) == [c];
    }
  }

  lemma {:induction false} RepeatFront(c: char, n: int)
    requires n > 0
    ensures Repeat(c, n) == [c] + Repeat(c, n - 1)
  {
    if n > 1 {
      RepeatFront(c, n - 1);
      assert [c] + Repeat(c, n - 2) + [c] == [c] + (Repeat(c, n - 2) + [c]);
    } else {
      assert [] + [c] == [c] + [];
    }
  }

  lemma ReverseFront(c: char, s: Text)
    ensures Reverse([c] + s) == Reverse(s) + [c]
  {
    assert ([c] + s)[1..] == s;
  }

  /** With room for it, the digit loop makes the numeral, backwards. */
  lemma {:induction false} DigitLoopIsNumeral(v: nat, base: nat, upper: bool, room: nat)
    requires 2 <= base <= 16 && v > 0
    ensures |Numeral(v, base, upper)| <= room ==> Reverse(DigitLoop(v, base, upper, room)) == Numeral(v, base, upper)
    ensures |Numeral(v, base, upper)| > room ==> |DigitLoop(v, base, upper, room)| == room
    decreases room
  {
    hide HexDigit, DigitChar;
    if room > 0 {
      var c, q := LastDigit(v, base, upper, room);
      if q > 0 {
        DigitLoopIsNumeral(q, base, upper, room - 1);
        ReverseFront(c, DigitLoop(q, base, upper, room - 1));
      } else {
        ReverseFront(c, []);
      }
    }
  }

  lemma LastDigit(v: nat, base: nat, upper: bool, room: nat) returns (c: char, q: nat)
    requires 2 <= base <= 16 && v > 0 && room > 0
    ensures q < v
    ensures Numeral(v, base, upper) == Numeral(q, base, upper) + [c]
    ensures DigitLoop(v, base, upper, room) == [c] + (if q == 0 then [] else DigitLoop(q, base, upper, room - 1))
  {
    c, q := DigitChar(v % base, upper), v / base;
    SameDigit(v % base, upper);
    Smaller(v, base);
  }

  lemma Smaller(v: nat, base: nat)
    requires base >= 2 && v > 0
    ensures v / base < v
  {}
}
