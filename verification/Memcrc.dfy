/** The checksum memcrc of deltaupgmcu.py: the cksum utility of IEEE Std 1003.1,
    Shell and Utilities, section 4.

    The script works a byte at a time through a table; the reference here takes one
    message bit at a time into the division register. */
module Memcrc {
  import opened CrcRegister
  import opened CrcTable

  // ----- The bit-at-a-time reference

  /** Takes one message bit into the register. */
  function FeedBit(s: bv32, bit: bool): bv32 {
    Shift(if bit then s ^ 0x8000_0000 else s)
  }

  function FeedBits(s: bv32, bits: seq<bool>): bv32 {
    Fold(FeedBit, s, bits)
  }

  /** The first n bits of a byte, most significant first. */
  function TopBits(c: bv8, n: nat): seq<bool>
    decreases n
  {
    if n == 0 then [] else [c & 0x80 != 0] + TopBits(c << 1, n - 1)
  }

  function MessageBits(data: seq<bv8>): seq<bool> {
    if data == [] then [] else TopBits(data[0], 8) + MessageBits(data[1..])
  }

  /** The length of the data in octets, least significant first, without leading
      zero octets. */
  function LengthOctets(n: nat): seq<bv8> {
    if n == 0 then [] else [(n % 256) as bv8] + LengthOctets(n / 256)
  }

  /** The number that octets stand for, least significant first. */
  function Value(octets: seq<bv8>): nat {
    if octets == [] then 0 else octets[0] as nat + 256 * Value(octets[1..])
  }

  /** The octets appended are the length, and as few as can be. */
  lemma {:induction false} LengthReadsBack(n: nat)
    ensures Value(LengthOctets(n)) == n
    ensures n > 0 ==> LengthOctets(n)[|LengthOctets(n)| - 1] != 0
    decreases n
  {
    if n > 0 {
      LengthReadsBack(n / 256);
      assert LengthOctets(n)[1..] == LengthOctets(n / 256);
      OctetOf(n % 256);
    }
  }

  lemma OctetOf(n: int)
    requires 0 <= n < 256
    ensures n <= (n as bv8) as int <= n
  {}

  /** Among all strings of octets that stand for n, without a zero at the end, there is
      only one. */
  lemma {:induction false} ShortestIsUnique(n: nat, octets: seq<bv8>)
    requires Value(octets) == n && (octets != [] ==> octets[|octets| - 1] != 0)
    ensures octets == LengthOctets(n)
    decreases |octets|
  {
    if octets != [] {
      var rest := Value(octets[1..]);
      LastIsNotZero(octets);
      ShortestIsUnique(rest, octets[1..]);
      OneOctet(octets[0], rest);
      assert octets == [octets[0]] + octets[1..];
    }
  }

  lemma OneOctet(octet: bv8, rest: nat)
    requires octet as nat + 256 * rest > 0
    ensures LengthOctets(octet as nat + 256 * rest) == [octet] + LengthOctets(rest)
  {
    hide Value;
    var n := octet as nat + 256 * rest;
    assert n % 256 == octet as nat && n / 256 == rest;
    OctetBack(octet);
  }

  lemma OctetBack(octet: bv8)
    ensures (octet as nat) as bv8 == octet
  {}

  lemma {:induction false} LastIsNotZero(octets: seq<bv8>)
    requires octets != [] && octets[|octets| - 1] != 0
    ensures Value(octets) > 0
    decreases |octets|
  {
    if |octets| > 1 {
      LastIsNotZero(octets[1..]);
    } else {
      assert octets[0] as nat > 0;
    }
  }

  /** The data followed by its length. */
  function Message(data: seq<bv8>): seq<bv8> {
    data + LengthOctets(|data|)
  }

  /** The register after all bits of a message. */
  function CrcOf(message: seq<bv8>): bv32 {
    FeedBits(0, MessageBits(message))
  }

  function Complement(s: bv32): bv32 {
    !s
  }

  function Cksum(data: seq<bv8>): bv32 {
    Complement(CrcOf(Message(data)))
  }

  // ----- A table step is eight division steps

  /** A byte in the place of the register's top byte. */
  function OnTop(c: bv8): bv32 {
    (c as bv32) << 24
  }

  function Top(s: bv32): bv32 {
    s & 0xff00_0000
  }

  function Low(s: bv32): bv32 {
    s & 0x00ff_ffff
  }

  function Shl8(s: bv32): bv32 {
    s << 8
  }

  /** The table index of a register and the next message byte. */
  function Index(s: bv32, c: bv8): bv8 {
    ((s >> 24) as bv8) ^ c
  }

  /** Takes one message byte into the register. */
  function FeedByte(s: bv32, c: bv8): bv32 {
    ShiftN(Xor(s, OnTop(c)), 8)
  }

  lemma LowPart(w: bv32)
    ensures Low(w) <= 0x00ff_ffff
    ensures Low(w) << 8 == Shl8(w)
  {}

  lemma TopAndLow(w: bv32)
    ensures Xor(Top(w), Low(w)) == w
  {}

  lemma LowPartShifted(w: bv32)
    ensures ShiftN(Low(w), 8) == Shl8(w)
  {
    LowPart(w);
    ShiftEightOfLow(Low(w));
  }

  /** Eight steps only depend on the top byte, up to moving the rest along. */
  lemma EightStepsOfTop(w: bv32)
    ensures ShiftN(w, 8) == Xor(ShiftN(Top(w), 8), Shl8(w))
  {
    TopAndLow(w);
    LowPartShifted(w);
    ShiftNIsLinear(Top(w), Low(w), 8);
  }

  lemma ByteDoesNotReachLow(s: bv32, c: bv8)
    ensures Shl8(Xor(s, OnTop(c))) == Shl8(s)
  {}

  lemma IndexIsTop(s: bv32, c: bv8)
    ensures Top(Xor(s, OnTop(c))) == OnTop(Index(s, c))
  {}

  /** What the script computes from a table entry is the register after the byte. */
  lemma TableStep(s: bv32, c: bv8)
    ensures Xor(ShiftN(OnTop(Index(s, c)), 8), Shl8(s)) == FeedByte(s, c)
  {
    ByteDoesNotReachLow(s, c);
    IndexIsTop(s, c);
    EightStepsOfTop(Xor(s, OnTop(c)));
  }

  method TableEntry(i: bv8) returns (e: bv32)
    ensures e == ShiftN(OnTop(i), 8)
  {
    e := Crctab(i);
    TableIsEightSteps(i);
    ShiftNIsShift8(OnTop(i));
  }

  /** The body both loops of memcrc share. */
  method FeedNext(s: bv32, c: bv8) returns (t: bv32)
    ensures t == FeedByte(s, c)
  {
    var entry := TableEntry(Index(s, c));
    TableStep(s, c);
    t := XorWithEntry(Shl8(s), entry);
  }

  method XorWithEntry(shifted: bv32, entry: bv32) returns (t: bv32)
    ensures t == Xor(entry, shifted)
  {
    t := shifted ^ entry;
  }

  // ----- The byte form refines the bit form

  function Fold<S, B>(feed: (S, B) -> S, s: S, data: seq<B>): S
    decreases |data|
  {
    if data == [] then s else Fold(feed, feed(s, data[0]), data[1..])
  }

  lemma {:induction false} FoldAppend<S, B>(feed: (S, B) -> S, s: S, a: seq<B>, b: seq<B>)
    ensures Fold(feed, s, a + b) == Fold(feed, Fold(feed, s, a), b)
    decreases |a|
  {
    if a == [] {
      assert a + b == b;
    } else {
      assert (a + b)[1..] == a[1..] + b;
      FoldAppend(feed, feed(s, a[0]), a[1..], b);
    }
  }

  lemma FoldOneMore<S, B>(feed: (S, B) -> S, s: S, a: seq<B>, c: B)
    ensures Fold(feed, s, a + [c]) == feed(Fold(feed, s, a), c)
  {
    FoldAppend(feed, s, a, [c]);
  }

  /** If no step forgets the register, neither does a run of steps. */
  lemma {:induction false} FoldIsInjective<S(!new), B(!new)>(feed: (S, B) -> S, s: S, t: S, data: seq<B>)
    requires forall a, b, c :: feed(a, c) == feed(b, c) ==> a == b
    requires Fold(feed, s, data) == Fold(feed, t, data)
    ensures s == t
    decreases |data|
  {
    if data != [] {
      FoldIsInjective(feed, feed(s, data[0]), feed(t, data[0]), data[1..]);
    }
  }

  lemma FoldBit(s: bv32, c: bv8)
    ensures s ^ OnTop(c) == Xor(if c & 0x80 != 0 then s ^ 0x8000_0000 else s, OnTop(c & 0x7f))
    ensures OnTop(c & 0x7f) <= 0x7fff_ffff
    ensures OnTop(c & 0x7f) << 1 == OnTop(c << 1)
  {}

  /** A division step with a byte folded in is feeding its first bit, with the rest
      of the byte folded in. */
  lemma OneBit(s: bv32, c: bv8)
    ensures Shift(Xor(s, OnTop(c))) == Xor(FeedBit(s, c & 0x80 != 0), OnTop(c << 1))
  {
    var t := if c & 0x80 != 0 then s ^ 0x8000_0000 else s;
    calc {
      Shift(Xor(s, OnTop(c)));
      { FoldBit(s, c); }
      Shift(Xor(t, OnTop(c & 0x7f)));
      { ShiftXor(t, OnTop(c & 0x7f)); }
      Xor(Shift(t), Shift(OnTop(c & 0x7f)));
      { FoldBit(s, c); LowStep(OnTop(c & 0x7f), 0x7fff_ffff); }
      Xor(FeedBit(s, c & 0x80 != 0), OnTop(c << 1));
    }
  }

  function ByteShl(c: bv8): bv8 {
    c << 1
  }

  lemma {:induction false} BitsAsSteps(s: bv32, c: bv8, n: nat)
    ensures ShiftN(Xor(s, OnTop(c)), n) == Xor(FeedBits(s, TopBits(c, n)), OnTop(Iterate(ByteShl, c, n)))
    decreases n
  {
    if n > 0 {
      OneBit(s, c);
      BitsAsSteps(FeedBit(s, c & 0x80 != 0), c << 1, n - 1);
      assert TopBits(c, n)[1..] == TopBits(c << 1, n - 1);
    }
  }

  lemma ByteIsShiftedOut(c: bv8, s: bv32)
    ensures Xor(s, OnTop(c << 1 << 1 << 1 << 1 << 1 << 1 << 1 << 1)) == s
  {}

  lemma ByteAsBits(s: bv32, c: bv8)
    ensures FeedByte(s, c) == FeedBits(s, TopBits(c, 8))
  {
    var t := FeedBits(s, TopBits(c, 8));
    calc {
      FeedByte(s, c);
      { BitsAsSteps(s, c, 8); }
      Xor(t, OnTop(Iterate(ByteShl, c, 8)));
      { IterateEight(ByteShl, c); ByteIsShiftedOut(c, t); }
      t;
    }
  }

  function FeedBytes(s: bv32, data: seq<bv8>): bv32 {
    Fold(FeedByte, s, data)
  }

  /** Feeding bytes is feeding their bits. */
  lemma {:induction false} BytesAsBits(s: bv32, data: seq<bv8>)
    ensures FeedBytes(s, data) == FeedBits(s, MessageBits(data))
    decreases |data|
  {
    if data != [] {
      ByteAsBits(s, data[0]);
      FoldAppend(FeedBit, s, TopBits(data[0], 8), MessageBits(data[1..]));
      BytesAsBits(FeedByte(s, data[0]), data[1..]);
    }
  }

  lemma CrcOfBytes(message: seq<bv8>)
    ensures CrcOf(message) == FeedBytes(0, message)
  {
    BytesAsBits(0, message);
  }

  /** The table-driven checksum is the bit-at-a-time one. */
  method Checksum(b: seq<bv8>) returns (crc: bv32)
    ensures crc == Cksum(b)
  {
    var n: nat := |b|;
    var s: bv32 := 0;
    for k := 0 to |b|
      invariant s == FeedBytes(0, b[..k])
    {
      assert b[..k + 1] == b[..k] + [b[k]];
      FoldOneMore(FeedByte, 0, b[..k], b[k]);
      s := FeedNext(s, b[k]);
    }
    assert b[..|b|] == b;
    FoldAppend(FeedByte, 0, b, LengthOctets(|b|));
    while n != 0
      invariant FeedBytes(s, LengthOctets(n)) == FeedBytes(0, Message(b))
    {
      var c := (n % 256) as bv8;
      assert LengthOctets(n)[1..] == LengthOctets(n / 256);
      n := n / 256;
      s := FeedNext(s, c);
    }
    CrcOfBytes(Message(b));
    crc := !s;
  }

  /** What the cksum utility prints for no data at all, and for the letter a. */
  lemma KnownChecksums()
    ensures Cksum([]) == 0xffff_ffff
    ensures Cksum([0x61]) == 0x48c2_79fe
  {
    hide CrcOf, FeedByte, Crctab, Xor, Shl8, Index;
    NothingFed();
    OneOctetLength();
    assert Message([0x61]) == [0x61, 0x01];
    CrcOfBytes([0x61, 0x01]);
    assert [0x61 as bv8, 0x01][1..] == [0x01] && [0x01 as bv8][1..] == [];
    KnownSteps();
  }

  lemma NothingFed()
    ensures Message([]) == [] && CrcOf([]) == 0
  {}

  lemma KnownSteps()
    ensures FeedByte(0, 0x61) == 0xa864_db20 && FeedByte(0xa864_db20, 0x01) == 0xb73d_8601
  {
    FedByte(0, 0x61);
    FedByte(0xa864_db20, 0x01);
  }

  lemma OneOctetLength()
    ensures LengthOctets(1) == [0x01]
  {
    assert LengthOctets(0) == [];
  }

  lemma FedByte(s: bv32, c: bv8)
    ensures FeedByte(s, c) == Xor(Crctab(Index(s, c)), Shl8(s))
  {
    TableStep(s, c);
    TableIsEightSteps(Index(s, c));
    ShiftNIsShift8(OnTop(Index(s, c)));
  }

  // ----- Error detection

  lemma XorCancels(a: bv32, b: bv32)
    ensures Xor(Xor(a, b), b) == a
    ensures Xor(a, Xor(a, b)) == b
  {}

  lemma FeedByteIsInjective(s: bv32, t: bv32, c: bv8)
    requires FeedByte(s, c) == FeedByte(t, c)
    ensures s == t
  {
    ShiftNIsInjective(Xor(s, OnTop(c)), Xor(t, OnTop(c)), 8);
    XorCancels(s, OnTop(c));
    XorCancels(t, OnTop(c));
  }

  /** Taking in the same bytes never brings two different registers together. */
  lemma FeedBytesIsInjective(s: bv32, t: bv32, data: seq<bv8>)
    requires FeedBytes(s, data) == FeedBytes(t, data)
    ensures s == t
  {
    forall a, b, c | FeedByte(a, c) == FeedByte(b, c)
      ensures a == b
    {
      FeedByteIsInjective(a, b, c);
    }
    FoldIsInjective(FeedByte, s, t, data);
  }

  /** Up to four bytes as one big-endian word, left-justified. */
  function Word(x: seq<bv8>): bv32 {
    if x == [] then 0 else Joined(x[0], Word(x[1..]))
  }

  function Joined(head: bv8, rest: bv32): bv32 {
    OnTop(head) | (rest >> 8)
  }

  lemma JoinedLowEnd(head: bv8, rest: bv32)
    ensures rest == 0 ==> Joined(head, rest) & 0xff_ffff == 0
    ensures rest & 0xff_ffff == 0 ==> Joined(head, rest) & 0xffff == 0
    ensures rest & 0xffff == 0 ==> Joined(head, rest) & 0xff == 0
  {}

  lemma LowEndBytes(w: bv32)
    ensures w & 0xff_ffff == 0 ==> w & 0xffff == 0
    ensures w & 0xffff == 0 ==> w & 0xff == 0
  {}

  /** The low end of a word of at most three bytes is clear. */
  lemma WordIsLeftJustified(x: seq<bv8>)
    requires |x| <= 3
    ensures Word(x) & 0xff == 0
    ensures |x| <= 2 ==> Word(x) & 0xffff == 0
    ensures |x| <= 1 ==> Word(x) & 0xff_ffff == 0
    decreases |x|
  {
    if x != [] {
      WordIsLeftJustified(x[1..]);
      JoinedLowEnd(x[0], Word(x[1..]));
      LowEndBytes(Word(x));
    }
  }

  function Shr8(s: bv32): bv32 {
    s >> 8
  }

  lemma JoinedIsXor(head: bv8, rest: bv32)
    ensures Joined(head, rest) == Xor(OnTop(head), Shr8(rest))
  {}

  lemma XorAssociates(a: bv32, b: bv32, c: bv32)
    ensures Xor(a, Xor(b, c)) == Xor(Xor(a, b), c)
  {}

  lemma SplitJoined(s: bv32, head: bv8, rest: bv32)
    ensures Xor(s, Joined(head, rest)) == Xor(Xor(s, OnTop(head)), Shr8(rest))
  {
    JoinedIsXor(head, rest);
    XorAssociates(s, OnTop(head), Shr8(rest));
  }

  lemma ShrEight(rest: bv32)
    requires rest & 0xff == 0
    ensures Shr8(rest) <= 0x00ff_ffff
    ensures Shr8(rest) << 8 == rest
  {}

  lemma JoinedIsInjective(a: bv8, u: bv32, b: bv8, v: bv32)
    requires Joined(a, u) == Joined(b, v)
    requires u & 0xff == 0 && v & 0xff == 0
    ensures a == b && u == v
  {
    UnjoinHead(a, u);
    UnjoinHead(b, v);
    UnjoinRest(a, u);
    UnjoinRest(b, v);
  }

  lemma UnjoinHead(a: bv8, u: bv32)
    ensures (Joined(a, u) >> 24) as bv8 == a
  {}

  lemma UnjoinRest(a: bv8, u: bv32)
    requires u & 0xff == 0
    ensures Joined(a, u) << 8 == u
  {}

  /** Feeding a burst of up to four bytes is folding it into the register at once. */
  lemma {:induction false} BurstAsWord(s: bv32, x: seq<bv8>)
    requires |x| <= 4
    ensures FeedBytes(s, x) == ShiftN(Xor(s, Word(x)), 8 * |x|)
    decreases |x|
  {
    if x == [] {
      XorZero(s);
    } else {
      var rest := Word(x[1..]);
      WordIsLeftJustified(x[1..]);
      calc {
        FeedBytes(s, x);
        FeedBytes(FeedByte(s, x[0]), x[1..]);
        { BurstAsWord(FeedByte(s, x[0]), x[1..]); }
        ShiftN(Xor(FeedByte(s, x[0]), rest), 8 * (|x| - 1));
        { FoldBurst(s, x[0], rest); }
        ShiftN(ShiftN(Xor(s, Word(x)), 8), 8 * (|x| - 1));
        { IterateSum(Shift, Xor(s, Word(x)), 8, 8 * (|x| - 1)); }
        ShiftN(Xor(s, Word(x)), 8 * |x|);
      }
    }
  }

  lemma XorZero(s: bv32)
    ensures Xor(s, 0) == s
  {}

  lemma FoldBurst(s: bv32, head: bv8, rest: bv32)
    requires rest & 0xff == 0
    ensures Xor(FeedByte(s, head), rest) == ShiftN(Xor(s, Joined(head, rest)), 8)
  {
    ShrEight(rest);
    ShiftEightOfLow(Shr8(rest));
    ShiftNIsLinear(Xor(s, OnTop(head)), Shr8(rest), 8);
    SplitJoined(s, head, rest);
  }

  lemma {:induction false} WordIsInjective(x: seq<bv8>, y: seq<bv8>)
    requires |x| == |y| <= 4 && Word(x) == Word(y)
    ensures x == y
    decreases |x|
  {
    if x != [] {
      WordIsLeftJustified(x[1..]);
      WordIsLeftJustified(y[1..]);
      JoinedIsInjective(x[0], Word(x[1..]), y[0], Word(y[1..]));
      WordIsInjective(x[1..], y[1..]);
      assert x == [x[0]] + x[1..] && y == [y[0]] + y[1..];
    }
  }

  lemma BurstIsInjective(s: bv32, x: seq<bv8>, y: seq<bv8>)
    requires |x| == |y| <= 4 && FeedBytes(s, x) == FeedBytes(s, y)
    ensures x == y
  {
    BurstAsWord(s, x);
    BurstAsWord(s, y);
    ShiftNIsInjective(Xor(s, Word(x)), Xor(s, Word(y)), 8 * |x|);
    XorCancels(s, Word(x));
    XorCancels(s, Word(y));
    WordIsInjective(x, y);
  }

  lemma FoldAround<S, B>(feed: (S, B) -> S, s: S, before: seq<B>, x: seq<B>, after: seq<B>, end: seq<B>)
    ensures Fold(feed, s, before + x + after + end) == Fold(feed, Fold(feed, Fold(feed, s, before), x), after + end)
  {
    assert before + x + after + end == before + (x + (after + end));
    FoldAppend(feed, s, before, x + (after + end));
    FoldAppend(feed, Fold(feed, s, before), x, after + end);
  }

  lemma ComplementTwice(s: bv32)
    ensures Complement(Complement(s)) == s
  {}

  lemma SameCksumSameRegister(a: seq<bv8>, b: seq<bv8>)
    requires Cksum(a) == Cksum(b)
    ensures FeedBytes(0, Message(a)) == FeedBytes(0, Message(b))
  {
    CrcOfBytes(Message(a));
    CrcOfBytes(Message(b));
    ComplementTwice(CrcOf(Message(a)));
    ComplementTwice(CrcOf(Message(b)));
  }

  lemma SameEndSameBurst(s: bv32, x: seq<bv8>, y: seq<bv8>, end: seq<bv8>)
    requires |x| == |y| <= 4
    requires FeedBytes(FeedBytes(s, x), end) == FeedBytes(FeedBytes(s, y), end)
    ensures x == y
  {
    FeedBytesIsInjective(FeedBytes(s, x), FeedBytes(s, y), end);
    BurstIsInjective(s, x, y);
  }

  lemma BurstInRegister(before: seq<bv8>, x: seq<bv8>, y: seq<bv8>, after: seq<bv8>, octets: seq<bv8>)
    requires |x| == |y| <= 4
    requires FeedBytes(0, before + x + after + octets) == FeedBytes(0, before + y + after + octets)
    ensures x == y
  {
    FoldAround(FeedByte, 0, before, x, after, octets);
    FoldAround(FeedByte, 0, before, y, after, octets);
    SameEndSameBurst(FeedBytes(0, before), x, y, after + octets);
  }

  /** Two messages of one length that differ only inside four consecutive bytes
      never share a checksum; so a single wrong byte is always detected. */
  lemma BurstIsDetected(before: seq<bv8>, x: seq<bv8>, y: seq<bv8>, after: seq<bv8>)
    requires |x| == |y| <= 4
    ensures Cksum(before + x + after) == Cksum(before + y + after) <==> x == y
  {
    if Cksum(before + x + after) == Cksum(before + y + after) {
      SameCksumSameRegister(before + x + after, before + y + after);
      BurstInRegister(before, x, y, after, LengthOctets(|before + x + after|));
    }
  }

  // ----- Bursts of bits

  function TopBit(bit: bool): bv32 {
    if bit then 0x8000_0000 else 0
  }

  function Shr1(s: bv32): bv32 {
    s >> 1
  }

  /** Up to 32 bits as one word, left-justified. */
  function BitWord(x: seq<bool>): bv32
    decreases |x|
  {
    if x == [] then 0 else Xor(TopBit(x[0]), Shr1(BitWord(x[1..])))
  }

  /** The places of a word that k bits leave clear: low ones. */
  function Spare(k: nat): bv32 {
    if k == 0 then 0xffff_ffff else Shr1(Spare(k - 1))
  }

  predicate LowOnes(q: bv32) {
    q & (q + 1) == 0
  }

  lemma HalfOfLowOnes(q: bv32)
    requires LowOnes(q)
    ensures LowOnes(Shr1(q)) && (q != 0 ==> q & 1 == 1)
  {}

  lemma {:induction false} SpareIsLowOnes(k: nat)
    ensures LowOnes(Spare(k))
  {
    if k > 0 {
      SpareIsLowOnes(k - 1);
      HalfOfLowOnes(Spare(k - 1));
    }
  }

  /** Up to 31 bits leave the last place clear. */
  lemma {:induction false} SomeIsSpare(k: nat)
    requires k <= 31
    ensures Spare(k) != 0
    decreases 31 - k
  {
    if k == 31 {
      assert Spare(8) == 0x00ff_ffff;
      assert Spare(16) == 0x0000_ffff;
      assert Spare(24) == 0x0000_00ff;
      assert Spare(31) == 1;
    } else {
      SomeIsSpare(k + 1);
    }
  }

  predicate Clear(w: bv32, q: bv32) {
    w & q == 0
  }

  lemma ZeroIsClear(q: bv32)
    ensures Clear(0, q)
  {}

  lemma SpareAfterBit(bit: bool, r: bv32, q: bv32)
    requires Clear(r, q)
    ensures Clear(Xor(TopBit(bit), Shr1(r)), Shr1(q))
  {}

  lemma {:induction false} BitWordLeavesSpare(x: seq<bool>)
    ensures Clear(BitWord(x), Spare(|x|))
    decreases |x|
  {
    hide Clear, Xor, Shr1, TopBit;
    if x == [] {
      ZeroIsClear(Spare(0));
    } else {
      BitWordLeavesSpare(x[1..]);
      SpareAfterBit(x[0], BitWord(x[1..]), Spare(|x| - 1));
    }
  }

  lemma NoLowBit(r: bv32, q: bv32)
    requires Clear(r, q) && q & 1 == 1
    ensures r & 1 == 0
  {}

  lemma LastPlaceIsClear(x: seq<bool>)
    requires |x| <= 31
    ensures BitWord(x) & 1 == 0
  {
    hide Clear, BitWord;
    BitWordLeavesSpare(x);
    SpareIsLowOnes(|x|);
    SomeIsSpare(|x|);
    HalfOfLowOnes(Spare(|x|));
    NoLowBit(BitWord(x), Spare(|x|));
  }

  lemma HalfShiftsBack(r: bv32)
    requires r & 1 == 0
    ensures Shr1(r) <= 0x7fff_ffff && Double(Shr1(r)) == r
  {}

  lemma FeedBitIsShift(s: bv32, bit: bool)
    ensures FeedBit(s, bit) == Shift(Xor(s, TopBit(bit)))
  {
    hide Shift, Xor;
    if bit {
      XorTop(s);
    } else {
      XorZero(s);
    }
  }

  lemma XorTop(s: bv32)
    ensures Xor(s, 0x8000_0000) == s ^ 0x8000_0000
  {}

  /** A bit fed, with the rest of its burst folded in, is a step with all of it folded in. */
  lemma FoldBitBurst(s: bv32, bit: bool, r: bv32)
    requires r & 1 == 0
    ensures Xor(FeedBit(s, bit), r) == Shift(Xor(s, Xor(TopBit(bit), Shr1(r))))
  {
    HalfShiftsBack(r);
    LowStep(Shr1(r), 0x7fff_ffff);
    FeedBitIsShift(s, bit);
    ShiftXor(Xor(s, TopBit(bit)), Shr1(r));
    XorAssociates(s, TopBit(bit), Shr1(r));
  }

  /** Feeding a burst of up to 32 bits is folding it into the register at once. */
  lemma {:induction false} BitBurstAsWord(s: bv32, x: seq<bool>)
    requires |x| <= 32
    ensures FeedBits(s, x) == ShiftN(Xor(s, BitWord(x)), |x|)
    decreases |x|
  {
    if x == [] {
      XorZero(s);
    } else {
      BitBurstAsWord(FeedBit(s, x[0]), x[1..]);
      LastPlaceIsClear(x[1..]);
      FoldBitBurst(s, x[0], BitWord(x[1..]));
    }
  }

  lemma Unjoin(a: bool, u: bv32, b: bool, v: bv32)
    requires Xor(TopBit(a), Shr1(u)) == Xor(TopBit(b), Shr1(v)) && u & 1 == 0 && v & 1 == 0
    ensures a == b && u == v
  {}

  lemma {:induction false} BitWordIsInjective(x: seq<bool>, y: seq<bool>)
    requires |x| == |y| <= 32 && BitWord(x) == BitWord(y)
    ensures x == y
    decreases |x|
  {
    if x != [] {
      LastPlaceIsClear(x[1..]);
      LastPlaceIsClear(y[1..]);
      Unjoin(x[0], BitWord(x[1..]), y[0], BitWord(y[1..]));
      BitWordIsInjective(x[1..], y[1..]);
      assert x == [x[0]] + x[1..] && y == [y[0]] + y[1..];
    }
  }

  lemma BitBurstIsInjective(s: bv32, x: seq<bool>, y: seq<bool>)
    requires |x| == |y| <= 32 && FeedBits(s, x) == FeedBits(s, y)
    ensures x == y
  {
    BitBurstAsWord(s, x);
    BitBurstAsWord(s, y);
    ShiftNIsInjective(Xor(s, BitWord(x)), Xor(s, BitWord(y)), |x|);
    XorCancels(s, BitWord(x));
    XorCancels(s, BitWord(y));
    BitWordIsInjective(x, y);
  }

  lemma FeedBitIsInjective(s: bv32, t: bv32, bit: bool)
    requires FeedBit(s, bit) == FeedBit(t, bit)
    ensures s == t
  {
    FeedBitIsShift(s, bit);
    FeedBitIsShift(t, bit);
    UnshiftUndoesShift(Xor(s, TopBit(bit)));
    UnshiftUndoesShift(Xor(t, TopBit(bit)));
    XorCancels(s, TopBit(bit));
    XorCancels(t, TopBit(bit));
  }

  lemma FeedBitsIsInjective(s: bv32, t: bv32, bits: seq<bool>)
    requires FeedBits(s, bits) == FeedBits(t, bits)
    ensures s == t
  {
    forall a, b, c | FeedBit(a, c) == FeedBit(b, c)
      ensures a == b
    {
      FeedBitIsInjective(a, b, c);
    }
    FoldIsInjective(FeedBit, s, t, bits);
  }

  lemma {:induction false} MessageBitsJoin(a: seq<bv8>, b: seq<bv8>)
    ensures MessageBits(a + b) == MessageBits(a) + MessageBits(b)
    decreases |a|
  {
    if a == [] {
      assert a + b == b;
    } else {
      assert (a + b)[1..] == a[1..] + b;
      MessageBitsJoin(a[1..], b);
    }
  }

  lemma SameEndSameBitBurst(before: seq<bool>, x: seq<bool>, y: seq<bool>, after: seq<bool>, end: seq<bool>)
    requires |x| == |y| <= 32
    requires FeedBits(0, before + x + after + end) == FeedBits(0, before + y + after + end)
    ensures x == y
  {
    FoldAround(FeedBit, 0, before, x, after, end);
    FoldAround(FeedBit, 0, before, y, after, end);
    var s := FeedBits(0, before);
    FeedBitsIsInjective(FeedBits(s, x), FeedBits(s, y), after + end);
    BitBurstIsInjective(s, x, y);
  }

  /** Two messages of one length whose bits differ only inside 32 consecutive ones, wherever
      these start, never share a checksum. */
  lemma BitBurstIsDetected(a: seq<bv8>, b: seq<bv8>, before: seq<bool>, x: seq<bool>, y: seq<bool>, after: seq<bool>)
    requires |a| == |b| && |x| == |y| <= 32
    requires MessageBits(a) == before + x + after && MessageBits(b) == before + y + after
    ensures Cksum(a) == Cksum(b) <==> x == y
  {
    var end := LengthOctets(|a|);
    MessageBitsJoin(a, end);
    MessageBitsJoin(b, end);
    if Cksum(a) == Cksum(b) {
      ComplementTwice(CrcOf(Message(a)));
      ComplementTwice(CrcOf(Message(b)));
      SameEndSameBitBurst(before, x, y, after, MessageBits(end));
    }
  }
}
