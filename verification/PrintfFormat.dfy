/** What a format string prints (_vsnprintf in printf.c), on a machine with 32-bit int, long
    and pointers, 64-bit long long and unsigned char. */
module PrintfFormat {
  import opened Common
  import opened PrintfText

  /** An argument: the bits of a number, or the string it points to. */
  datatype Arg = Arg(bits: nat, str: Text)

  /** The arguments, and the text of a floating-point conversion of one of them. */
  datatype Args = Args(at: nat -> Arg, float: (Arg, char, nat, nat, Flags) -> Text)

  function Unsigned(bits: nat, size: nat): nat
    requires size > 0
  {
    bits % size
  }

  /** Two's complement. */
  function Signed(bits: nat, size: nat): int
    requires size > 0
  {
    if bits % size < size / 2 then bits % size else bits % size - size
  }

  // ----- Reading a conversion specification

  /** A specification read so far: up to `i`, with the arguments up to `k`. */
  datatype Spec = Spec(f: Flags, width: nat, prec: nat, i: nat, k: nat)

  function At(fmt: Text, i: nat): char {
    if i < |fmt| then fmt[i] else '\0'
  }

  predicate IsDecimal(c: char) {
    '0' <= c <= '9'
  }

  function WithFlag(c: char, f: Flags): (r: Option<Flags>)
    ensures r.Some? ==> c != '\0' && r.value.prec == f.prec
  {
    match c
    case '0' => Some(f.(zeropad := true))
    case '-' => Some(f.(left := true))
    case '+' => Some(f.(plus := true))
    case ' ' => Some(f.(space := true))
    case '#' => Some(f.(hash := true))
    case _ => None
  }

  function ReadFlags(fmt: Text, i: nat, f: Flags): (r: (Flags, nat))
    requires i <= |fmt|
    ensures i <= r.1 <= |fmt| && r.0.prec == f.prec
    decreases |fmt| - i
  {
    match WithFlag(At(fmt, i), f)
    case Some(g) => ReadFlags(fmt, i + 1, g)
    case None => (f, i)
  }

  /** _atoi, which wraps. */
  function ReadNumber(fmt: Text, i: nat, sofar: nat): (r: (nat, nat))
    requires i <= |fmt|
    ensures i <= r.1 <= |fmt|
    decreases |fmt| - i
  {
    if IsDecimal(At(fmt, i)) then ReadNumber(fmt, i + 1, (sofar * 10 + (fmt[i] - '0') as nat) % 0x1_0000_0000)
    else (sofar, i)
  }

  function ReadWidth(fmt: Text, s: Spec, va: Args): (r: Spec)
    requires s.i <= |fmt|
    ensures s.i <= r.i <= |fmt| && r.f.prec == s.f.prec && r.prec == s.prec
  {
    if IsDecimal(At(fmt, s.i)) then
      var (n, j) := ReadNumber(fmt, s.i, 0);
      s.(width := n, i := j)
    else if At(fmt, s.i) == '*' then
      var w := Signed(va.at(s.k).bits, 0x1_0000_0000);
      s.(width := Abs(w), f := if w < 0 then s.f.(left := true) else s.f, i := s.i + 1, k := s.k + 1)
    else s
  }

  function ReadPrecision(fmt: Text, s: Spec, va: Args): (r: Spec)
    requires s.i <= |fmt|
    ensures s.i <= r.i <= |fmt| && (r.f.prec || r.prec == s.prec)
  {
    if At(fmt, s.i) != '.' then s
    else
      var t := s.(f := s.f.(prec := true), i := s.i + 1);
      if IsDecimal(At(fmt, t.i)) then
        var (n, j) := ReadNumber(fmt, t.i, 0);
        t.(prec := n, i := j)
      else if At(fmt, t.i) == '*' then
        var p := Signed(va.at(t.k).bits, 0x1_0000_0000);
        t.(prec := if p > 0 then p else 0, i := t.i + 1, k := t.k + 1)
      else t
  }

  /** The flags behind a length modifier that begins with `c`, where `d` follows. */
  function Modified(c: char, d: char, f: Flags): (g: Flags)
    ensures g.prec == f.prec
  {
    Flags(f.zeropad, f.left, f.plus, f.space, f.hash, f.upper, f.chr || Twice('h', c, d), f.short || c == 'h',
          f.long || MakesLong(c), f.longLong || MakesLongLong(c, d), f.prec)
  }

  predicate Twice(e: char, c: char, d: char) {
    c == e && d == e
  }

  predicate MakesLong(c: char) {
    c == 'l' || c == 't' || c == 'z'
  }

  predicate MakesLongLong(c: char, d: char) {
    c == 'j' || Twice('l', c, d)
  }

  /** How many characters it has. */
  function ModifierLength(c: char, d: char): (n: nat)
    ensures n <= 2 && (n > 0 ==> c != '\0') && (n == 2 ==> d != '\0')
  {
    if Twice('l', c, d) || Twice('h', c, d) then 2
    else if c == 'l' || c == 'h' || c == 't' || c == 'j' || c == 'z' then 1
    else 0
  }

  function ReadLength(fmt: Text, s: Spec): (r: Spec)
    requires s.i <= |fmt|
    ensures s.i <= r.i <= |fmt| && r.f.prec == s.f.prec && r.prec == s.prec
  {
    var c, d := At(fmt, s.i), At(fmt, s.i + 1);
    s.(f := Modified(c, d, s.f), i := s.i + ModifierLength(c, d))
  }

  function ReadSpec(fmt: Text, i: nat, va: Args, k: nat): (r: Spec)
    requires i <= |fmt|
    ensures i <= r.i <= |fmt| && (r.f.prec || r.prec == 0)
  {
    var (f, j) := ReadFlags(fmt, i, NO_FLAGS);
    ReadLength(fmt, ReadPrecision(fmt, ReadWidth(fmt, Spec(f, 0, 0, j, k), va), va))
  }

  // ----- One conversion

  predicate IsInteger(c: char) {
    c == 'd' || c == 'i' || c == 'u' || c == 'x' || c == 'X' || c == 'o' || c == 'b'
  }

  predicate IsFloat(c: char) {
    c == 'f' || c == 'F' || c == 'e' || c == 'E' || c == 'g' || c == 'G'
  }

  function Base(c: char): (b: nat)
    ensures 2 <= b <= 16
  {
    if c == 'x' || c == 'X' then 16 else if c == 'o' then 8 else if c == 'b' then 2 else 10
  }

  predicate IsSigned(c: char) {
    c == 'i' || c == 'd'
  }

  /** The flags an integer conversion goes on with. */
  function IntegerFlags(c: char, f: Flags): Flags {
    f.(hash := f.hash && Base(c) != 10, upper := f.upper || c == 'X', plus := f.plus && IsSigned(c),
       space := f.space && IsSigned(c), zeropad := f.zeropad && !f.prec)
  }

  /** Two to the number of bits that the length modifiers give an argument. */
  function Size(f: Flags): nat {
    if f.longLong then 0x1_0000_0000_0000_0000
    else if f.long then 0x1_0000_0000
    else if f.chr then 0x100
    else if f.short then 0x1_0000
    else 0x1_0000_0000
  }

  /** The value of an integer argument. A character has no sign. */
  function IntegerValue(c: char, f: Flags, bits: nat): int {
    if IsSigned(c) && Size(f) != 0x100 then Signed(bits, Size(f)) else Unsigned(bits, Size(f))
  }

  function IntegerField(c: char, s: Spec, bits: nat): Text {
    var v := IntegerValue(c, s.f, bits);
    Ntoa(Abs(v), v < 0, Base(c), s.prec, s.width, IntegerFlags(c, s.f))
  }

  function CharField(s: Spec, bits: nat): Text {
    var c := [Unsigned(bits, 0x100) as char];
    if s.f.left then c + Repeat(' ', s.width - 1) else Repeat(' ', s.width - 1) + c
  }

  function StringField(s: Spec, str: Text): Text {
    var t := if s.f.prec && s.prec < |str| then str[..s.prec] else str;
    if s.f.left then t + Repeat(' ', s.width - |t|) else Repeat(' ', s.width - |t|) + t
  }

  /** %p: eight upper-case hexadecimal digits. */
  function PointerField(s: Spec, bits: nat): Text {
    Ntoa(Unsigned(bits, 0x1_0000_0000), false, 16, s.prec, 8, s.f.(zeropad := true, upper := true))
  }

  /** Whether the conversion takes an argument. */
  predicate Takes(c: char) {
    IsInteger(c) || IsFloat(c) || c == 'c' || c == 's' || c == 'p'
  }

  function FieldText(c: char, s: Spec, va: Args): Text {
    var arg := va.at(s.k);
    if IsInteger(c) then IntegerField(c, s, arg.bits)
    else if IsFloat(c) then va.float(arg, c, s.prec, s.width, s.f)
    else if c == 'c' then CharField(s, arg.bits)
    else if c == 's' then StringField(s, arg.str)
    else if c == 'p' then PointerField(s, arg.bits)
    else [c]
  }

  // ----- The whole format

  /** Everything printed from `i` on with the arguments from `k` on; None when the format
      ends inside a specification, where the code would read on behind its end. */
  function Render(fmt: Text, i: nat, va: Args, k: nat): Option<Text>
    requires i <= |fmt|
    decreases |fmt| - i
  {
    if i == |fmt| then Some([])
    else if fmt[i] != '%' then Before([fmt[i]], Render(fmt, i + 1, va, k))
    else
      var s := ReadSpec(fmt, i + 1, va, k);
      if s.i == |fmt| then None
      else Before(FieldText(fmt[s.i], s, va), Render(fmt, s.i + 1, va, if Takes(fmt[s.i]) then s.k + 1 else s.k))
  }

  function Before(t: Text, rest: Option<Text>): Option<Text> {
    match rest
    case None => None
    case Some(r) => Some(t + r)
  }

  /** The conversion that a format goes on with. */
  lemma RenderConversion(fmt: Text, i: nat, va: Args, k: nat) returns (s: Spec, rest: Option<Text>)
    requires i < |fmt| && fmt[i] == '%' && ReadSpec(fmt, i + 1, va, k).i < |fmt|
    ensures s == ReadSpec(fmt, i + 1, va, k)
    ensures rest == Render(fmt, s.i + 1, va, if Takes(fmt[s.i]) then s.k + 1 else s.k)
    ensures Render(fmt, i, va, k) == Before(FieldText(fmt[s.i], s, va), rest)
  {
    hide FieldText, ReadSpec;
    s := ReadSpec(fmt, i + 1, va, k);
    rest := Render(fmt, s.i + 1, va, if Takes(fmt[s.i]) then s.k + 1 else s.k);
  }

  // ----- Putting out

  /** _out_buffer, and _out_null on no buffer. */
  function Put(b: Text, idx: nat, c: char, maxlen: nat): (r: Text)
    ensures |r| == |b|
  {
    if idx < maxlen && idx < |b| then b[idx := c] else b
  }

  /** A text put out at consecutive places. */
  function Emitted(b: Text, idx: nat, t: Text, maxlen: nat): (r: Text)
    ensures |r| == |b|
    decreases |t|
  {
    if t == [] then b else Emitted(Put(b, idx, t[0], maxlen), idx + 1, t[1..], maxlen)
  }

  lemma {:induction false} EmittedJoin(b: Text, idx: nat, s: Text, t: Text, maxlen: nat)
    ensures Emitted(Emitted(b, idx, s, maxlen), idx + |s|, t, maxlen) == Emitted(b, idx, s + t, maxlen)
    decreases |s|
  {
    if s == [] {
      assert s + t == t;
    } else {
      EmittedJoin(Put(b, idx, s[0], maxlen), idx + 1, s[1..], t, maxlen);
      assert (s + t)[1..] == s[1..] + t;
    }
  }

  /** What lands in the buffer is the text cut off at its end, and nothing else changes. */
  lemma {:induction false} EmittedIsAPrefix(b: Text, idx: nat, t: Text, maxlen: nat, i: nat)
    requires maxlen <= |b| && i < |b|
    ensures Emitted(b, idx, t, maxlen)[i] == if idx <= i < idx + |t| && i < maxlen then t[i - idx] else b[i]
    decreases |t|
  {
    if t != [] {
      EmittedIsAPrefix(Put(b, idx, t[0], maxlen), idx + 1, t[1..], maxlen, i);
    }
  }

  /** The buffer after the text and its end mark: as much of the text as leaves room for the
      mark, then the mark, and the rest as it was. */
  lemma TruncationIsAPrefix(b: Text, t: Text, count: nat)
    requires 1 <= count <= |b|
    ensures var n := if |t| < count then |t| else count - 1;
            var r := Put(Emitted(b, 0, t, count), n, '\0', count);
            && r[..n] == t[..n] && r[n] == '\0' && r[n + 1..] == b[n + 1..]
  {
    var n := if |t| < count then |t| else count - 1;
    var e := Emitted(b, 0, t, count);
    forall i | 0 <= i < |b|
      ensures e[i] == if i < |t| && i < count then t[i] else b[i]
    {
      EmittedIsAPrefix(b, 0, t, count, i);
    }
  }

  /** The flags an integer conversion hands on are those the standard's rules are about. */
  lemma IntegersAreProper(c: char, f: Flags, bits: nat)
    requires IsInteger(c)
    ensures var v, g := IntegerValue(c, f, bits), IntegerFlags(c, f);
            && Abs(v) < 0x1_0000_0000_0000_0000
            && (v < 0 || g.plus || g.space ==> Base(c) == 10)
            && (g.prec ==> !g.zeropad)
            && (!f.longLong ==> Abs(v) < 0x1_0000_0000)
  {
    SizeRange(f);
    var v := ValueRange(c, f, bits);
  }

  lemma SizeRange(f: Flags)
    ensures 2 <= Size(f) <= 0x1_0000_0000_0000_0000 && (!f.longLong ==> Size(f) <= 0x1_0000_0000)
  {}

  lemma ValueRange(c: char, f: Flags, bits: nat) returns (v: int)
    ensures v == IntegerValue(c, f, bits) && Abs(v) < Size(f) && (v < 0 ==> IsSigned(c))
  {
    v := IntegerValue(c, f, bits);
    SizeRange(f);
    Range(bits, Size(f));
  }

  lemma Range(bits: nat, size: nat)
    requires size >= 2
    ensures Unsigned(bits, size) < size && Abs(Signed(bits, size)) < size
  {}
}
