/** Which argument each conversion of a format takes, and the whole text of a format
    (_vsnprintf in printf.c) against the standard. */
module PrintfArgs {
  import opened Common
  import opened PrintfText
  import opened PrintfIso
  import opened PrintfFormat
  import opened PrintfSpec
  import opened PrintfStandard

  // ----- Counting arguments

  /** The conversions that take an argument: those of the standard but %, and b. */
  predicate TakesOne(c: char) {
    c in "diouxXcspfFeEgG" || c == 'b'
  }

  /** How many arguments the format takes from `i` on: one for each of its conversions, and
      one for each star in a specification. */
  function Consumed(fmt: Text, i: nat): nat
    requires i <= |fmt| && !EndsInside(fmt, i)
    decreases |fmt| - i
  {
    if i == |fmt| then 0
    else if fmt[i] != '%' then Consumed(fmt, i + 1)
    else
      var e := SpecEnd(fmt, i + 1);
      Stars(fmt[i + 1..e]) + (if TakesOne(fmt[e]) then 1 else 0) + Consumed(fmt, e + 1)
  }

  lemma TakesTheSame(c: char)
    ensures Takes(c) <==> TakesOne(c)
  {}

  lemma {:induction false} StarsJoin(a: Text, b: Text)
    ensures Stars(a + b) == Stars(a) + Stars(b)
  {
    if a == [] {
      Empty(b);
    } else {
      StarsJoin(a[1..], b);
      assert (a + b)[1..] == a[1..] + b;
    }
  }

  lemma {:induction false} FlagsHaveNoStars(run: Text)
    requires AllFlags(run)
    ensures Stars(run) == 0
  {
    if run != [] {
      assert IsFlag(run[0]);
      assert AllFlags(run[1..]) by {
        assert forall k :: 0 <= k < |run| - 1 ==> run[1..][k] == run[k + 1];
      }
      FlagsHaveNoStars(run[1..]);
    }
  }

  lemma LengthHasNoStars(fmt: Text, i: nat)
    requires i <= |fmt|
    ensures Stars(fmt[i..LengthEnd(fmt, i)]) == 0
  {
    var m := LengthText(fmt, i);
    assert Stars("l") == Stars("h") == Stars("t") == Stars("j") == Stars("z") == 0;
    assert "ll"[1..] == "l" && "hh"[1..] == "h";
  }

  lemma StarsBetween(fmt: Text, i: nat, j: nat, k: nat)
    requires i <= j <= k <= |fmt|
    ensures Stars(fmt[i..k]) == Stars(fmt[i..j]) + Stars(fmt[j..k])
  {
    assert fmt[i..k] == fmt[i..j] + fmt[j..k];
    StarsJoin(fmt[i..j], fmt[j..k]);
  }

  /** A specification takes an argument for each of its stars. */
  lemma StarsAreTaken(fmt: Text, i: nat, va: Args, k: nat)
    requires i <= |fmt|
    ensures ReadSpec(fmt, i, va, k).k == StandardReading(fmt, i, va, k).k == k + Stars(fmt[i..SpecEnd(fmt, i)])
  {
    hide ReadSpec, Stars, FlagsEnd, WidthEnd, PrecisionEnd, LengthEnd, StandardNumber, StandardPrecision;
    var s, t := SpecAgainst(fmt, i, va, k);
    SamePlace(s, t);
    var a := FlagsEnd(fmt, i);
    var b := WidthEnd(fmt, a);
    var c := PrecisionEnd(fmt, b);
    FlagsHaveNoStars(fmt[i..a]);
    LengthHasNoStars(fmt, c);
    StarsBetween(fmt, i, a, t.i);
    StarsBetween(fmt, a, b, t.i);
    StarsBetween(fmt, b, c, t.i);
  }

  // ----- The same characters, the same reading

  /** From `d` on, `x` has the characters of `y` up to place `n`. */
  predicate Same(x: Text, d: nat, y: Text, n: nat) {
    n <= |y| && d + n <= |x| && forall j :: 0 <= j <= n ==> At(y, j) == At(x, d + j)
  }

  lemma SameAt(x: Text, d: nat, y: Text, n: nat, j: nat)
    requires Same(x, d, y, n) && j <= n
    ensures At(y, j) == At(x, d + j) && n <= |y| && d + n <= |x|
  {}

  lemma {:induction false} SameFlagsRead(x: Text, d: nat, y: Text, n: nat, i: nat, f: Flags)
    requires Same(x, d, y, n) && i <= |y| && ReadFlags(y, i, f).1 <= n
    ensures ReadFlags(x, d + i, f) == (ReadFlags(y, i, f).0, d + ReadFlags(y, i, f).1)
    decreases |y| - i
  {
    hide WithFlag;
    assert At(y, i) == At(x, d + i);
    var g := WithFlag(At(y, i), f);
    if g.Some? {
      SameFlagsRead(x, d, y, n, i + 1, g.value);
    }
  }

  lemma {:induction false} SameNumberRead(x: Text, d: nat, y: Text, n: nat, i: nat, v: nat)
    requires Same(x, d, y, n) && i <= |y| && ReadNumber(y, i, v).1 <= n
    ensures ReadNumber(x, d + i, v) == (ReadNumber(y, i, v).0, d + ReadNumber(y, i, v).1)
    decreases |y| - i
  {
    assert At(y, i) == At(x, d + i);
    if IsDecimal(At(y, i)) {
      SameNumberRead(x, d, y, n, i + 1, (v * 10 + (y[i] - '0') as nat) % 0x1_0000_0000);
    }
  }

  lemma SameStarRead(x: Text, y: Text, s: Spec, r: Spec, va: Args)
    requires s.i <= |y| && r.i <= |x| && r == s.(i := r.i) && At(y, s.i) == At(x, r.i) && !IsDecimal(At(y, s.i))
    ensures var t := ReadWidth(y, s, va);
            ReadWidth(x, r, va) == t.(i := r.i + (t.i - s.i))
  {
    hide At, Signed;
  }

  lemma SameDigitsRead(x: Text, d: nat, y: Text, n: nat, s: Spec, va: Args)
    requires Same(x, d, y, n) && s.i <= n && IsDecimal(At(y, s.i)) && ReadNumber(y, s.i, 0).1 <= n
    ensures var t := ReadWidth(y, s, va);
            ReadWidth(x, s.(i := d + s.i), va) == t.(i := d + t.i)
  {
    hide ReadNumber, Same, At;
    SameAt(x, d, y, n, s.i);
    SameNumberRead(x, d, y, n, s.i, 0);
  }

  lemma SameWidthRead(x: Text, d: nat, y: Text, n: nat, s: Spec, va: Args)
    requires Same(x, d, y, n) && s.i <= |y| && ReadWidth(y, s, va).i <= n
    ensures var t := ReadWidth(y, s, va);
            ReadWidth(x, s.(i := d + s.i), va) == t.(i := d + t.i)
  {
    SameAt(x, d, y, n, s.i);
    if IsDecimal(At(y, s.i)) {
      SameDigitsRead(x, d, y, n, s, va);
    } else {
      hide ReadWidth, Same, At;
      SameStarRead(x, y, s, s.(i := d + s.i), va);
    }
  }

  lemma SamePrecisionRead(x: Text, d: nat, y: Text, n: nat, s: Spec, va: Args)
    requires Same(x, d, y, n) && s.i <= |y| && ReadPrecision(y, s, va).i <= n
    ensures var t := ReadPrecision(y, s, va);
            ReadPrecision(x, s.(i := d + s.i), va) == t.(i := d + t.i)
  {
    SameAt(x, d, y, n, s.i);
    if At(y, s.i) == '.' {
      SameAt(x, d, y, n, s.i + 1);
      if IsDecimal(At(y, s.i + 1)) {
        SameNumberRead(x, d, y, n, s.i + 1, 0);
        SameDigitPrecision(x, y, s, s.(i := d + s.i), va);
      } else {
        SameStarPrecision(x, y, s, s.(i := d + s.i), va);
      }
    }
  }

  lemma SameDigitPrecision(x: Text, y: Text, s: Spec, r: Spec, va: Args)
    requires s.i < |y| && r.i < |x| && r == s.(i := r.i) && At(y, s.i) == At(x, r.i) == '.'
    requires IsDecimal(At(y, s.i + 1)) && IsDecimal(At(x, r.i + 1))
    requires ReadNumber(x, r.i + 1, 0) == (ReadNumber(y, s.i + 1, 0).0, r.i + (ReadNumber(y, s.i + 1, 0).1 - s.i))
    ensures var t := ReadPrecision(y, s, va);
            ReadPrecision(x, r, va) == t.(i := r.i + (t.i - s.i))
  {
    hide ReadNumber, At, IsDecimal;
  }

  lemma SameStarPrecision(x: Text, y: Text, s: Spec, r: Spec, va: Args)
    requires s.i < |y| && r.i < |x| && r == s.(i := r.i) && At(y, s.i) == At(x, r.i) == '.'
    requires !IsDecimal(At(y, s.i + 1)) && At(y, s.i + 1) == At(x, r.i + 1)
    ensures var t := ReadPrecision(y, s, va);
            ReadPrecision(x, r, va) == t.(i := r.i + (t.i - s.i))
  {
    hide At, Signed;
  }

  lemma SameLengthRead(x: Text, d: nat, y: Text, n: nat, s: Spec)
    requires Same(x, d, y, n) && s.i <= |y| && ReadLength(y, s).i <= n
    ensures var t := ReadLength(y, s);
            ReadLength(x, s.(i := d + s.i)) == t.(i := d + t.i)
  {
    hide Modified, ModifierLength, Same, At;
    SameAt(x, d, y, n, s.i);
    if s.i < n {
      SameAt(x, d, y, n, s.i + 1);
    } else {
      NoModifier(At(y, s.i), At(y, s.i + 1), At(x, d + s.i + 1), s.f);
    }
  }

  lemma NoModifier(c: char, d: char, e: char, f: Flags)
    requires ModifierLength(c, d) == 0
    ensures Modified(c, d, f) == Modified(c, e, f) == f && ModifierLength(c, e) == 0
  {}

  lemma SameSpecRead(x: Text, d: nat, y: Text, n: nat, i: nat, va: Args, k: nat)
    requires Same(x, d, y, n) && i <= |y| && ReadSpec(y, i, va, k).i <= n
    ensures var t := ReadSpec(y, i, va, k);
            ReadSpec(x, d + i, va, k) == t.(i := d + t.i)
  {
    hide Same, ReadFlags, ReadWidth, ReadPrecision, ReadLength;
    var (f, j) := ReadFlags(y, i, NO_FLAGS);
    var w := ReadWidth(y, Spec(f, 0, 0, j, k), va);
    var p := ReadPrecision(y, w, va);
    SameFlagsRead(x, d, y, n, i, NO_FLAGS);
    SameWidthRead(x, d, y, n, Spec(f, 0, 0, j, k), va);
    SamePrecisionRead(x, d, y, n, w, va);
    SameLengthRead(x, d, y, n, p);
  }

  lemma {:induction false} RenderBehind(a: Text, b: Text, j: nat, va: Args, k: nat)
    requires j <= |b|
    ensures Render(a + b, |a| + j, va, k) == Render(b, j, va, k)
    decreases |b| - j
  {
    hide ReadSpec, FieldText;
    if j < |b| {
      if b[j] != '%' {
        RenderBehind(a, b, j + 1, va, k);
      } else {
        var s := ReadSpec(b, j + 1, va, k);
        SameSpecRead(a + b, |a|, b, |b|, j + 1, va, k);
        SameField(b[..], s, |a| + s.i, va);
        if s.i < |b| {
          RenderBehind(a, b, s.i + 1, va, if Takes(b[s.i]) then s.k + 1 else s.k);
        }
      }
    }
  }

  /** What a conversion prints does not depend on the place of its specification. */
  lemma SameField(fmt: Text, s: Spec, i: nat, va: Args)
    ensures forall c :: FieldText(c, s.(i := i), va) == FieldText(c, s, va)
  {
    forall c
      ensures FieldText(c, s.(i := i), va) == FieldText(c, s, va)
    {
      hide Ntoa, Base, Repeat;
    }
  }

  /** The format `a` and behind it the format `b`, from place `i` of `a` on. */
  lemma {:induction false} RenderOn(a: Text, b: Text, i: nat, va: Args, k: nat)
    requires i <= |a| && !EndsInside(a, i)
    ensures Render(a, i, va, k).Some?
    ensures Render(a + b, i, va, k) == Before(Render(a, i, va, k).value, Render(b, 0, va, k + Consumed(a, i)))
    decreases |a| - i
  {
    hide ReadSpec, FieldText, Takes, TakesOne, Stars, SpecEnd, Before;
    if i == |a| {
      RenderBehind(a, b, 0, va, k);
      BeforeNothing(Render(b, 0, va, k));
    } else if a[i] != '%' {
      RenderOn(a, b, i + 1, va, k);
      BeforeBefore([a[i]], Render(a, i + 1, va, k), Render(b, 0, va, k + Consumed(a, i)));
    } else {
      var text, j, next := OneConversion(a, b, i, va, k);
      RenderOn(a, b, j, va, next);
      BeforeBefore(text, Render(a, j, va, next), Render(b, 0, va, k + Consumed(a, i)));
    }
  }

  /** The conversion at the front of what is left of `a`, with `b` behind it or without. */
  lemma OneConversion(a: Text, b: Text, i: nat, va: Args, k: nat) returns (text: Text, j: nat, next: nat)
    requires i < |a| && a[i] == '%' && !EndsInside(a, i)
    ensures i < j <= |a| && !EndsInside(a, j)
    ensures Render(a, i, va, k) == Before(text, Render(a, j, va, next))
    ensures Render(a + b, i, va, k) == Before(text, Render(a + b, j, va, next))
    ensures next + Consumed(a, j) == k + Consumed(a, i)
  {
    hide ReadSpec, FieldText, Takes, TakesOne, Stars, SpecEnd, Before, Render, Consumed, EndsInside, At;
    var s := ReadSpec(a, i + 1, va, k);
    SpecIsRead(a, i + 1, va, k);
    ConsumedOne(a, i);
    SameFront(a, b, s.i);
    StarsAreTaken(a, i + 1, va, k);
    TakesTheSame(a[s.i]);
    SameSpecRead(a + b, 0, a, s.i, i + 1, va, k);
    text, j, next := FieldText(a[s.i], s, va), s.i + 1, if Takes(a[s.i]) then s.k + 1 else s.k;
    var _, _ := RenderConversion(a, i, va, k);
    var _, _ := RenderConversion(a + b, i, va, k);
  }

  lemma ConsumedOne(fmt: Text, i: nat)
    requires i < |fmt| && fmt[i] == '%' && !EndsInside(fmt, i)
    ensures var e := SpecEnd(fmt, i + 1);
            && e < |fmt| && !EndsInside(fmt, e + 1)
            && Consumed(fmt, i)
            == Stars(fmt[i + 1..e]) + (if TakesOne(fmt[e]) then 1 else 0) + Consumed(fmt, e + 1)
  {
    hide Stars, TakesOne, SpecEnd;
  }

  lemma SameFront(a: Text, b: Text, n: nat)
    requires n < |a|
    ensures Same(a + b, 0, a, n)
  {}

  lemma BeforeNothing(r: Option<Text>)
    ensures Before([], r) == r
  {
    if r.Some? {
      Empty(r.value);
    }
  }

  lemma BeforeBefore(a: Text, b: Option<Text>, r: Option<Text>)
    requires b.Some?
    ensures Before(a, b).Some? && Before(a, Before(b.value, r)) == Before(Before(a, b).value, r)
  {
    if r.Some? {
      Associative(a, b.value, r.value);
    }
  }

  /** A format behind another prints behind it, with the arguments from the one on that is
      left when each conversion and each star before it has taken its own. */
  lemma RenderJoin(a: Text, b: Text, va: Args, k: nat)
    requires !EndsInside(a, 0)
    ensures Render(a, 0, va, k).Some?
    ensures Render(a + b, 0, va, k) == Before(Render(a, 0, va, k).value, Render(b, 0, va, k + Consumed(a, 0)))
    ensures EndsInside(a + b, 0) <==> EndsInside(b, 0)
  {
    hide Render, EndsInside, Consumed;
    RenderOn(a, b, 0, va, k);
    RenderedExactlyWhen(a + b, 0, va, k);
    RenderedExactlyWhen(b, 0, va, k + Consumed(a, 0));
  }

  // ----- The whole text against the standard

  function StandardConversion(c: char, t: Directive, va: Args): Text
    requires IsCompared(c)
  {
    if IsStandardInteger(c) then StandardField(c, t, va.at(t.k).bits)
    else if c == 's' then StandardString(t, va.at(t.k).str)
    else if c == 'c' then StandardChar(t, va.at(t.k).bits)
    else "%"
  }

  predicate IsCompared(c: char) {
    IsStandardInteger(c) || c == 's' || c == 'c' || c == '%'
  }

  /** Every conversion meets its condition. */
  predicate AllAsStandard(fmt: Text, i: nat, va: Args, k: nat)
    requires i <= |fmt| && !EndsInside(fmt, i)
    decreases |fmt| - i
  {
    if i == |fmt| then true
    else if fmt[i] != '%' then AllAsStandard(fmt, i + 1, va, k)
    else
      var s, t := ReadSpec(fmt, i + 1, va, k), StandardReading(fmt, i + 1, va, k);
      && OneAsStandard(fmt[t.i], s, t, va)
      && AllAsStandard(fmt, t.i + 1, va, if TakesOne(fmt[t.i]) then t.k + 1 else t.k)
  }

  predicate OneAsStandard(c: char, s: Spec, t: Directive, va: Args) {
    var arg := va.at(t.k);
    if IsStandardInteger(c) then AsStandard(c, s, t, arg.bits)
    else if c == 's' then |arg.str| < 0x1_0000_0000 && StringAsStandard(s, t, arg.str)
    else if c == 'c' then s.width == t.width
    else c == '%'
  }

  /** What a format prints by the standard: its text, with each specification and its
      arguments replaced. */
  function StandardText(fmt: Text, i: nat, va: Args, k: nat): Text
    requires i <= |fmt| && !EndsInside(fmt, i)
    decreases |fmt| - i
  {
    if i == |fmt| then ""
    else if fmt[i] != '%' then [fmt[i]] + StandardText(fmt, i + 1, va, k)
    else
      var t := StandardReading(fmt, i + 1, va, k);
      (if IsCompared(fmt[t.i]) then StandardConversion(fmt[t.i], t, va) else "")
      + StandardText(fmt, t.i + 1, va, if TakesOne(fmt[t.i]) then t.k + 1 else t.k)
  }

  lemma ConversionAsStandard(fmt: Text, i: nat, va: Args, k: nat)
    requires i <= |fmt| && SpecEnd(fmt, i) < |fmt|
    requires var s, t := ReadSpec(fmt, i, va, k), StandardReading(fmt, i, va, k);
             OneAsStandard(fmt[t.i], s, t, va)
    ensures var s, t := ReadSpec(fmt, i, va, k), StandardReading(fmt, i, va, k);
            && s.i == t.i && s.k == t.k && IsCompared(fmt[t.i])
            && FieldText(fmt[t.i], s, va) == StandardConversion(fmt[t.i], t, va)
  {
    hide ReadSpec, StandardReading, FieldText, StandardField, StandardString, StandardChar, AsStandard,
         StringAsStandard, Against;
    var c := fmt[SpecEnd(fmt, i)];
    TextConversionsAgreeExactlyWhen(fmt, i, va, k);
    if IsStandardInteger(c) {
      ConversionAgreesExactlyWhen(fmt, i, va, k);
    }
  }

  /** A format all of whose conversions meet their conditions prints what the standard asks
      for. */
  lemma {:induction false} FormatAsStandard(fmt: Text, i: nat, va: Args, k: nat)
    requires i <= |fmt| && !EndsInside(fmt, i) && AllAsStandard(fmt, i, va, k)
    ensures Render(fmt, i, va, k) == Some(StandardText(fmt, i, va, k))
    decreases |fmt| - i
  {
    hide ReadSpec, StandardReading, FieldText, OneAsStandard, StandardConversion, IsCompared, Takes, TakesOne, SpecEnd;
    if i < |fmt| && fmt[i] != '%' {
      FormatAsStandard(fmt, i + 1, va, k);
    } else if i < |fmt| {
      var t := StandardReading(fmt, i + 1, va, k);
      ConversionAsStandard(fmt, i + 1, va, k);
      TakesTheSame(fmt[t.i]);
      FormatAsStandard(fmt, t.i + 1, va, if TakesOne(fmt[t.i]) then t.k + 1 else t.k);
    }
  }

  // ----- A string and a number

  /** A number as %d prints it. */
  function Decimal(v: int): Text {
    (if v < 0 then "-" else "") + if v == 0 then "0" else Numeral(Abs(v), 10, false)
  }

  /** "%s%d" prints its first argument and then, in decimal, its second. */
  lemma StringThenDecimal(va: Args)
    ensures Render("%s%d", 0, va, 0) == Some(va.at(0).str + Decimal(StandardValue(true, 0x1_0000_0000, va.at(1).bits)))
  {
    var str, v := va.at(0).str, StandardValue(true, 0x1_0000_0000, va.at(1).bits);
    PlainSpec("%s%d", 0, va, 0);
    PlainSpec("%s%d", 2, va, 1);
    PlainString(str);
    PlainDecimal(va.at(1).bits);
    hide ReadSpec, IntegerField, StringField, StandardValue, Decimal;
    assert Render("%s%d", 4, va, 2) == Some([]);
    Empty(Decimal(v));
  }

  /** A specification of a conversion character alone. */
  lemma PlainSpec(fmt: Text, i: nat, va: Args, k: nat)
    requires i + 1 < |fmt| && (fmt[i + 1] == 's' || fmt[i + 1] == 'd')
    ensures ReadSpec(fmt, i + 1, va, k) == Spec(NO_FLAGS, 0, 0, i + 1, k)
  {
    hide ReadWidth, ReadPrecision, ReadLength, ReadFlags;
    var start := Spec(NO_FLAGS, 0, 0, i + 1, k);
    assert ReadFlags(fmt, i + 1, NO_FLAGS) == (NO_FLAGS, i + 1) by { NoFlagsRead(fmt, i + 1); }
    NothingRead(fmt, start, va);
  }

  lemma NoFlagsRead(fmt: Text, i: nat)
    requires i < |fmt| && (fmt[i] == 's' || fmt[i] == 'd')
    ensures ReadFlags(fmt, i, NO_FLAGS) == (NO_FLAGS, i)
  {
    assert WithFlag(fmt[i], NO_FLAGS) == None;
  }

  lemma NothingRead(fmt: Text, s: Spec, va: Args)
    requires s.i < |fmt| && (fmt[s.i] == 's' || fmt[s.i] == 'd')
    ensures ReadWidth(fmt, s, va) == ReadPrecision(fmt, s, va) == ReadLength(fmt, s) == s
  {}

  lemma PlainString(str: Text)
    ensures forall i: nat, k: nat :: StringField(Spec(NO_FLAGS, 0, 0, i, k), str) == str
  {
    Empty(str);
  }

  lemma PlainDecimal(bits: nat)
    ensures forall i: nat, k: nat :: IntegerField('d', Spec(NO_FLAGS, 0, 0, i, k), bits)
                                  == Decimal(StandardValue(true, 0x1_0000_0000, bits))
  {
    hide Ntoa, Decimal, Signed, StandardValue;
    var v := StandardValue(true, 0x1_0000_0000, bits);
    SameSigned(bits, 0x1_0000_0000);
    DecimalField(v);
  }

  lemma DecimalField(v: int)
    requires Abs(v) < 0x1_0000_0000
    ensures Ntoa(Abs(v), v < 0, 10, 0, 0, NO_FLAGS) == Decimal(v)
  {
    hide Ntoa, Numeral, Field, Body;
    DecimalsAreShort(Abs(v), NO_FLAGS);
    AgreesExactlyWhen(Abs(v), v < 0, 10, 0, 0, NO_FLAGS);
    if v == 0 {
      ZeroBody(10, 0, NO_FLAGS);
      NoRepeat('0', -1);
    } else {
      OtherBody(Abs(v), 10, 0, NO_FLAGS);
      NoRepeat('0', 0 - |Numeral(Abs(v), 10, false)|);
    }
    Unpadded(Sign(v < 0, NO_FLAGS), Body(Abs(v), 10, 0, NO_FLAGS));
    Empty(Numeral(Abs(v), 10, false));
  }

  lemma Unpadded(sign: Text, body: Text)
    ensures Field(sign, body, 0, false, false) == sign + body
  {
    NoRepeat(' ', 0 - |sign| - |body|);
    Empty(sign);
  }
}
