/** What a conversion specification of printf.c looks like, and which formats end inside
    one, so that _vsnprintf reads on behind their end. */
module PrintfSpec {
  import opened Common
  import opened PrintfText
  import opened PrintfFormat

  // ----- The end of a specification

  predicate IsFlag(c: char) {
    c == '0' || c == '-' || c == '+' || c == ' ' || c == '#'
  }

  predicate AllFlags(s: Text) {
    forall k :: 0 <= k < |s| ==> IsFlag(s[k])
  }

  predicate AllDecimal(s: Text) {
    forall k :: 0 <= k < |s| ==> IsDecimal(s[k])
  }

  function FlagsEnd(fmt: Text, i: nat): (j: nat)
    requires i <= |fmt|
    ensures i <= j <= |fmt| && AllFlags(fmt[i..j]) && !IsFlag(At(fmt, j))
    decreases |fmt| - i
  {
    if i < |fmt| && IsFlag(fmt[i]) then FlagsEnd(fmt, i + 1) else i
  }

  function DigitsEnd(fmt: Text, i: nat): (j: nat)
    requires i <= |fmt|
    ensures i <= j <= |fmt| && AllDecimal(fmt[i..j]) && !IsDecimal(At(fmt, j))
    decreases |fmt| - i
  {
    if i < |fmt| && IsDecimal(fmt[i]) then DigitsEnd(fmt, i + 1) else i
  }

  function WidthEnd(fmt: Text, i: nat): (j: nat)
    requires i <= |fmt|
    ensures i <= j <= |fmt|
  {
    if At(fmt, i) == '*' then i + 1 else DigitsEnd(fmt, i)
  }

  function PrecisionEnd(fmt: Text, i: nat): (j: nat)
    requires i <= |fmt|
    ensures i <= j <= |fmt|
  {
    if At(fmt, i) == '.' then WidthEnd(fmt, i + 1) else i
  }

  function LengthEnd(fmt: Text, i: nat): (j: nat)
    requires i <= |fmt|
    ensures i <= j <= |fmt|
  {
    match At(fmt, i)
    case 'l' => if At(fmt, i + 1) == 'l' then i + 2 else i + 1
    case 'h' => if At(fmt, i + 1) == 'h' then i + 2 else i + 1
    case 't' => i + 1
    case 'j' => i + 1
    case 'z' => i + 1
    case _ => i
  }

  /** The place of the conversion character. */
  function SpecEnd(fmt: Text, i: nat): (j: nat)
    requires i <= |fmt|
    ensures i <= j <= |fmt|
  {
    LengthEnd(fmt, PrecisionEnd(fmt, WidthEnd(fmt, FlagsEnd(fmt, i))))
  }

  // ----- The value of a number

  function DecimalValue(s: Text): nat
    requires AllDecimal(s)
  {
    if s == [] then 0 else DecimalValue(s[..|s| - 1]) * 10 + (s[|s| - 1] - '0') as nat
  }

  /** Reading a number takes its decimal value modulo two to the 32. */
  lemma {:induction false} NumberIsRead(fmt: Text, from: nat, i: nat)
    requires from <= i <= |fmt| && AllDecimal(fmt[from..i])
    ensures var j := DigitsEnd(fmt, i);
            && AllDecimal(fmt[from..j])
            && ReadNumber(fmt, i, DecimalValue(fmt[from..i]) % 0x1_0000_0000)
            == (DecimalValue(fmt[from..j]) % 0x1_0000_0000, j)
    decreases |fmt| - i
  {
    if i < |fmt| && IsDecimal(fmt[i]) {
      var v, d := DecimalValue(fmt[from..i]), (fmt[i] - '0') as nat;
      OneMoreDigit(fmt, from, i);
      Wraps(v, d);
      NumberIsRead(fmt, from, i + 1);
    }
  }

  lemma OneMoreDigit(fmt: Text, from: nat, i: nat)
    requires from <= i < |fmt| && AllDecimal(fmt[from..i]) && IsDecimal(fmt[i])
    ensures AllDecimal(fmt[from..i + 1])
    ensures DecimalValue(fmt[from..i + 1]) == DecimalValue(fmt[from..i]) * 10 + (fmt[i] - '0') as nat
  {
    assert fmt[from..i + 1] == fmt[from..i] + [fmt[i]] && fmt[from..i + 1][..i - from] == fmt[from..i];
  }

  lemma Wraps(v: nat, d: nat)
    ensures (v % 0x1_0000_0000 * 10 + d) % 0x1_0000_0000 == (v * 10 + d) % 0x1_0000_0000
  {}

  // ----- Parsing ends there, whatever the arguments

  /** The flags `f` and those that the characters stand for. */
  function Flagged(f: Flags, run: Text): Flags {
    f.(zeropad := f.zeropad || Has(run, '0'), left := f.left || Has(run, '-'), plus := f.plus || Has(run, '+'),
       space := f.space || Has(run, ' '), hash := f.hash || Has(run, '#'))
  }

  predicate Has(run: Text, c: char) {
    c in run
  }

  lemma HasFront(c: char, run: Text, d: char)
    ensures Has([c] + run, d) <==> c == d || Has(run, d)
  {}

  lemma OneMoreFlag(c: char, run: Text, f: Flags)
    requires IsFlag(c)
    ensures WithFlag(c, f).Some? && Flagged(WithFlag(c, f).value, run) == Flagged(f, [c] + run)
  {
    hide Has;
    HasFront(c, run, '0');
    HasFront(c, run, '-');
    HasFront(c, run, '+');
    HasFront(c, run, ' ');
    HasFront(c, run, '#');
    match c
    case '0' =>
    case '-' =>
    case '+' =>
    case ' ' =>
    case '#' =>
  }

  /** The flags read are those among the flag characters. */
  lemma {:induction false} FlagsAreRead(fmt: Text, i: nat, f: Flags)
    requires i <= |fmt|
    ensures ReadFlags(fmt, i, f) == (Flagged(f, fmt[i..FlagsEnd(fmt, i)]), FlagsEnd(fmt, i))
    decreases |fmt| - i
  {
    hide Flagged, WithFlag;
    if i < |fmt| && IsFlag(fmt[i]) {
      var j := FlagsEnd(fmt, i);
      assert fmt[i..j] == [fmt[i]] + fmt[i + 1..j];
      OneMoreFlag(fmt[i], fmt[i + 1..j], f);
      FlagsAreRead(fmt, i + 1, WithFlag(fmt[i], f).value);
    } else {
      NoMoreFlags(At(fmt, i), f);
      assert fmt[i..i] == [];
    }
  }

  lemma NoMoreFlags(c: char, f: Flags)
    requires !IsFlag(c)
    ensures WithFlag(c, f) == None && Flagged(f, []) == f
  {}

  /** A width is the value of its digits, or the magnitude of an argument whose sign is then
      a flag. */
  lemma WidthIsRead(fmt: Text, r: Spec, va: Args)
    requires r.i <= |fmt|
    ensures var s := ReadWidth(fmt, r, va);
            && s.i == WidthEnd(fmt, r.i)
            && (r.i < s.i && At(fmt, r.i) != '*' ==>
                  s.width == DecimalValue(fmt[r.i..s.i]) % 0x1_0000_0000 && s.f == r.f && s.k == r.k)
            && (r.i == s.i ==> s == r)
    ensures At(fmt, r.i) == '*' ==>
              var s, bits := ReadWidth(fmt, r, va), va.at(r.k).bits % 0x1_0000_0000;
              && s.k == r.k + 1 && s.f == r.f.(left := r.f.left || bits >= 0x8000_0000)
              && s.width == if bits < 0x8000_0000 then bits else 0x1_0000_0000 - bits
  {
    if At(fmt, r.i) != '*' {
      NumberIsRead(fmt, r.i, r.i);
    }
  }

  /** A precision is written behind a dot; without digits, or of a negative argument, it is
      zero. */
  lemma PrecisionIsRead(fmt: Text, r: Spec, va: Args)
    requires r.i <= |fmt|
    ensures var s := ReadPrecision(fmt, r, va);
            && s.i == PrecisionEnd(fmt, r.i)
            && (r.i == s.i ==> s == r)
            && (r.i < s.i ==> s.f == r.f.(prec := true) && s.width == r.width)
            && (r.i + 1 == s.i ==> s.prec == r.prec && s.k == r.k)
            && (r.i + 1 < s.i && fmt[r.i + 1] != '*' ==>
                  s.prec == DecimalValue(fmt[r.i + 1..s.i]) % 0x1_0000_0000 && s.k == r.k)
    ensures At(fmt, r.i) == '.' && At(fmt, r.i + 1) == '*' ==>
              var s, bits := ReadPrecision(fmt, r, va), va.at(r.k).bits % 0x1_0000_0000;
              s.k == r.k + 1 && s.prec == if bits < 0x8000_0000 then bits else 0
  {
    if At(fmt, r.i) == '.' && At(fmt, r.i + 1) != '*' {
      NumberIsRead(fmt, r.i + 1, r.i + 1);
    }
  }

  /** Two to the number of bits of an argument, where long has 32: so have ptrdiff_t and
      size_t, and intmax_t has 64. */
  function LengthSize(length: Text): nat {
    if length == "hh" then 0x100
    else if length == "h" then 0x1_0000
    else if length == "ll" || length == "j" then 0x1_0000_0000_0000_0000
    else 0x1_0000_0000
  }

  function ModifierText(c: char, d: char): Text {
    if c == 'l' then (if d == 'l' then "ll" else "l")
    else if c == 'h' then (if d == 'h' then "hh" else "h")
    else if c == 't' || c == 'j' || c == 'z' then [c]
    else ""
  }

  lemma LengthText(fmt: Text, i: nat) returns (m: Text)
    requires i <= |fmt|
    ensures m == fmt[i..LengthEnd(fmt, i)] == ModifierText(At(fmt, i), At(fmt, i + 1))
  {
    m := fmt[i..LengthEnd(fmt, i)];
  }

  predicate NoLength(f: Flags) {
    !f.chr && !f.short && !f.long && !f.longLong
  }

  lemma ModifierFlags(c: char, d: char, f: Flags)
    ensures var g := Modified(c, d, f);
            g == f.(chr := g.chr, short := g.short, long := g.long, longLong := g.longLong)
    ensures ModifierLength(c, d) == |ModifierText(c, d)|
  {}

  lemma ModifierSize(c: char, d: char, f: Flags)
    requires NoLength(f)
    ensures Size(Modified(c, d, f)) == LengthSize(ModifierText(c, d))
  {
    hide LengthSize;
    LengthSizes();
  }

  lemma LengthSizes()
    ensures LengthSize("hh") == 0x100 && LengthSize("h") == 0x1_0000
    ensures LengthSize("ll") == LengthSize("j") == 0x1_0000_0000_0000_0000
    ensures LengthSize("l") == LengthSize("t") == LengthSize("z") == LengthSize("") == 0x1_0000_0000
  {}

  /** The length modifiers say how many bits an argument has, and nothing else. */
  lemma LengthIsRead(fmt: Text, s: Spec)
    requires s.i <= |fmt|
    ensures var t := ReadLength(fmt, s);
            && t == s.(i := LengthEnd(fmt, s.i), f := t.f)
            && t.f == s.f.(chr := t.f.chr, short := t.f.short, long := t.f.long, longLong := t.f.longLong)
            && (NoLength(s.f) ==> Size(t.f) == LengthSize(fmt[s.i..t.i]))
  {
    hide Modified, ModifierLength, ModifierText, Size, LengthSize, NoLength, LengthEnd, At;
    var m := LengthText(fmt, s.i);
    ModifierFlags(At(fmt, s.i), At(fmt, s.i + 1), s.f);
    if NoLength(s.f) {
      ModifierSize(At(fmt, s.i), At(fmt, s.i + 1), s.f);
    }
  }

  lemma SpecIsRead(fmt: Text, i: nat, va: Args, k: nat)
    requires i <= |fmt|
    ensures ReadSpec(fmt, i, va, k).i == SpecEnd(fmt, i)
  {
    var (f, j) := ReadFlags(fmt, i, NO_FLAGS);
    FlagsAreRead(fmt, i, NO_FLAGS);
    var s := ReadWidth(fmt, Spec(f, 0, 0, j, k), va);
    WidthIsRead(fmt, Spec(f, 0, 0, j, k), va);
    PrecisionIsRead(fmt, s, va);
    LengthIsRead(fmt, ReadPrecision(fmt, s, va));
  }

  // ----- Formats that end inside a specification

  /** From `i` on, the format comes to a specification without a conversion character. */
  predicate EndsInside(fmt: Text, i: nat)
    requires i <= |fmt|
    decreases |fmt| - i
  {
    if i == |fmt| then false
    else if fmt[i] != '%' then EndsInside(fmt, i + 1)
    else SpecEnd(fmt, i + 1) == |fmt| || EndsInside(fmt, SpecEnd(fmt, i + 1) + 1)
  }

  /** Whether a format has a text depends on the format alone. */
  lemma {:induction false} RenderedExactlyWhen(fmt: Text, i: nat, va: Args, k: nat)
    requires i <= |fmt|
    ensures Render(fmt, i, va, k).Some? <==> !EndsInside(fmt, i)
    decreases |fmt| - i
  {
    hide FieldText, ReadSpec, SpecEnd;
    if i < |fmt| && fmt[i] == '%' {
      var s := ReadSpec(fmt, i + 1, va, k);
      SpecIsRead(fmt, i + 1, va, k);
      if s.i < |fmt| {
        RenderedExactlyWhen(fmt, s.i + 1, va, if Takes(fmt[s.i]) then s.k + 1 else s.k);
      }
    } else if i < |fmt| {
      RenderedExactlyWhen(fmt, i + 1, va, k);
    }
  }

  /** The text of a format. */
  function Rendered(fmt: Text, va: Args): Text
    requires !EndsInside(fmt, 0)
  {
    RenderedExactlyWhen(fmt, 0, va, 0);
    Render(fmt, 0, va, 0).value
  }

  // ----- What is left after the '%' then

  predicate IsWidth(s: Text) {
    s == "*" || AllDecimal(s)
  }

  predicate IsPrecision(s: Text) {
    s == [] || (s[0] == '.' && IsWidth(s[1..]))
  }

  predicate IsLength(s: Text) {
    s == [] || s == "l" || s == "ll" || s == "h" || s == "hh" || s == "t" || s == "j" || s == "z"
  }

  /** Flags, a width, a precision and a length, any of them possibly empty. */
  predicate Parts(fmt: Text, i: nat, a: nat, b: nat, c: nat) {
    && i <= a <= b <= c <= |fmt|
    && AllFlags(fmt[i..a]) && IsWidth(fmt[a..b]) && IsPrecision(fmt[b..c]) && IsLength(fmt[c..])
  }

  /** No conversion character is found exactly when the rest of the format is made of
      these parts. */
  lemma UnfinishedExactlyWhen(fmt: Text, i: nat)
    requires i <= |fmt|
    ensures SpecEnd(fmt, i) == |fmt| <==> exists a, b, c :: Parts(fmt, i, a, b, c)
  {
    if SpecEnd(fmt, i) == |fmt| {
      var a := FlagsEnd(fmt, i);
      var b := WidthEnd(fmt, a);
      var c := PrecisionEnd(fmt, b);
      WidthFound(fmt, a);
      PrecisionFound(fmt, b);
      LengthFound(fmt, c);
      assert Parts(fmt, i, a, b, c);
    }
    if a, b, c :| Parts(fmt, i, a, b, c) {
      PartsAreRead(fmt, i, a, b, c);
    }
  }

  lemma WidthFound(fmt: Text, a: nat)
    requires a <= |fmt|
    ensures IsWidth(fmt[a..WidthEnd(fmt, a)])
  {
    if At(fmt, a) == '*' {
      assert fmt[a..a + 1] == "*";
    }
  }

  lemma PrecisionFound(fmt: Text, b: nat)
    requires b <= |fmt|
    ensures IsPrecision(fmt[b..PrecisionEnd(fmt, b)])
  {
    if At(fmt, b) == '.' {
      var c := PrecisionEnd(fmt, b);
      WidthFound(fmt, b + 1);
      assert fmt[b..c][1..] == fmt[b + 1..c];
    }
  }

  lemma LengthFound(fmt: Text, c: nat)
    requires c <= |fmt|
    ensures LengthEnd(fmt, c) == |fmt| <==> IsLength(fmt[c..])
  {
    if |fmt| == c + 1 {
      assert fmt[c..] == [fmt[c]];
    } else if |fmt| == c + 2 {
      assert fmt[c..] == [fmt[c], fmt[c + 1]];
    }
  }

  lemma PartsAreRead(fmt: Text, i: nat, a: nat, b: nat, c: nat)
    requires Parts(fmt, i, a, b, c)
    ensures SpecEnd(fmt, i) == |fmt|
  {
    assert IsLength(fmt[c..]) ==> At(fmt, c) in "lhtjz" || c == |fmt| by {
      assert c < |fmt| ==> fmt[c..][0] == fmt[c];
    }
    assert b < c ==> fmt[b] == '.' by {
      assert b < c ==> fmt[b..c][0] == fmt[b];
    }
    var f := FlagsEnd(fmt, i);
    WidthPart(fmt, i, a, b);
    PrecisionPart(fmt, b, c);
    LengthFound(fmt, c);
  }

  lemma FlagAt(fmt: Text, i: nat, j: nat, k: nat)
    requires i <= k < j <= |fmt| && AllFlags(fmt[i..j])
    ensures IsFlag(fmt[k])
  {
    assert fmt[i..j][k - i] == fmt[k];
  }

  lemma DigitAt(fmt: Text, i: nat, j: nat, k: nat)
    requires i <= k < j <= |fmt| && AllDecimal(fmt[i..j])
    ensures IsDecimal(fmt[k])
  {
    assert fmt[i..j][k - i] == fmt[k];
  }

  /** Leading zeros of a width are read as flags. */
  lemma WidthPart(fmt: Text, i: nat, a: nat, b: nat)
    requires i <= a <= b <= |fmt| && AllFlags(fmt[i..a]) && IsWidth(fmt[a..b])
    requires b == |fmt| || fmt[b] in ".lhtjz"
    ensures WidthEnd(fmt, FlagsEnd(fmt, i)) == b
  {
    var f := FlagsEnd(fmt, i);
    if f < a {
      FlagAt(fmt, i, a, f);
    }
    if fmt[a..b] == "*" {
      assert fmt[a] == fmt[a..b][0] == '*';
      if f > a {
        FlagAt(fmt, i, f, a);
      }
    } else {
      if f > b {
        FlagAt(fmt, i, f, b);
      }
      assert fmt[f..b] == fmt[a..b][f - a..];
      DigitsPart(fmt, f, b);
    }
  }

  lemma DigitsPart(fmt: Text, i: nat, b: nat)
    requires i <= b <= |fmt| && AllDecimal(fmt[i..b])
    requires b == |fmt| || fmt[b] in ".lhtjz"
    ensures WidthEnd(fmt, i) == DigitsEnd(fmt, i) == b
  {
    var e := DigitsEnd(fmt, i);
    if e < b {
      DigitAt(fmt, i, b, e);
    } else if b < e {
      DigitAt(fmt, i, e, b);
    }
    if i < b {
      DigitAt(fmt, i, b, i);
    }
  }

  lemma PrecisionPart(fmt: Text, b: nat, c: nat)
    requires b <= c <= |fmt| && IsPrecision(fmt[b..c])
    requires c == |fmt| || fmt[c] in "lhtjz"
    ensures PrecisionEnd(fmt, b) == c
  {
    if b < c {
      assert fmt[b] == fmt[b..c][0] && fmt[b + 1..c] == fmt[b..c][1..];
      if fmt[b + 1..c] == "*" {
        assert fmt[b + 1] == fmt[b + 1..c][0];
      } else {
        DigitsPart(fmt, b + 1, c);
      }
    }
  }

  /** A lone percent sign has no text; doubled, it has. */
  lemma LonePercent(va: Args)
    ensures Render("%", 0, va, 0).None? && Render("100%", 0, va, 0).None? && Render("%%", 0, va, 0) == Some("%")
  {
    hide ReadSpec, FieldText;
    assert FlagsEnd("%", 1) == 1 && EndsInside("%", 0);
    assert FlagsEnd("100%", 4) == 4 && EndsInside("100%", 3) && EndsInside("100%", 0);
    RenderedExactlyWhen("%", 0, va, 0);
    RenderedExactlyWhen("100%", 0, va, 0);
    SpecIsRead("%%", 1, va, 0);
    assert FlagsEnd("%%", 1) == 1 && SpecEnd("%%", 1) == 1;
    PercentField(ReadSpec("%%", 1, va, 0), va);
    Empty("%");
  }

  lemma PercentField(s: Spec, va: Args)
    ensures FieldText('%', s, va) == "%"
  {}
}
