/** Bit-level reading of the OTP memory (drv_otp_BitsRead in DRV_OTP.c).

    A word is 32 bits, the least significant first, so that a C shift is a move of
    bits. Bit i of the memory is bit i % 32 of word i / 32. */
module OtpBits {
  type Word = w: seq<bool> | |w| == 32 witness seq(32, _ => false)

  function Bit(mem: seq<Word>, i: int): bool {
    0 <= i < 32 * |mem| && mem[i / 32][i % 32]
  }

  function Shr(w: Word, n: nat): Word {
    seq(32, i requires 0 <= i < 32 => i + n < 32 && w[i + n])
  }

  function Shl(w: Word, n: nat): Word {
    seq(32, i requires 0 <= i < 32 => i >= n && w[i - n])
  }

  function Or(a: Word, b: Word): Word {
    seq(32, i requires 0 <= i < 32 => a[i] || b[i])
  }

  function And(a: Word, b: Word): Word {
    seq(32, i requires 0 <= i < 32 => a[i] && b[i])
  }

  /** `(1 << n) - 1` */
  function Ones(n: nat): Word {
    seq(32, i => 0 <= i < n)
  }

  /** `1 << n` */
  function OneBit(n: nat): Word {
    seq(32, i => i == n)
  }

  /** The 32 bits from `at` on, of which those from `limit` on read as zero. */
  function Extract(mem: seq<Word>, at: nat, limit: int): Word {
    seq(32, i requires 0 <= i => i < limit && Bit(mem, at + i))
  }

  /** Destination words a read of `count` bits fills: one per 32 bits started, and
      one even for no bits at all. */
  function WordsFor(count: nat): nat {
    if count == 0 then 1 else (count + 31) / 32
  }

  /** The words a read of `count` bits at bit `at` delivers. */
  function ReadWords(mem: seq<Word>, at: nat, count: nat): seq<Word> {
    seq(WordsFor(count), k requires 0 <= k < WordsFor(count) =>
      Extract(mem, at + 32 * k, count - 32 * k))
  }

  /** Bit i of what is read is bit at + i of the memory, up to the count; every bit
      after it is zero. */
  lemma ReadWordsBits(mem: seq<Word>, at: nat, count: nat, i: nat)
    ensures Bit(ReadWords(mem, at, count), i) == (i < count && Bit(mem, at + i))
  {
    var words := ReadWords(mem, at, count);
    if i < 32 * |words| {
      var k, j := i / 32, i % 32;
      assert words[k] == Extract(mem, at + 32 * k, count - 32 * k);
      assert at + 32 * k + j == at + i;
    }
  }

  lemma BitInWord(mem: seq<Word>, k: nat, j: nat)
    requires k < |mem| && j < 32
    ensures Bit(mem, 32 * k + j) == mem[k][j]
  {
    var i := 32 * k + j;
    assert i / 32 == k && i % 32 == j;
  }

  lemma AlignedWord(mem: seq<Word>, at: nat, k: nat)
    requires at % 32 == 0 && at / 32 + k < |mem|
    ensures mem[at / 32 + k] == Extract(mem, at + 32 * k, 32)
  {
    var w, e := mem[at / 32 + k], Extract(mem, at + 32 * k, 32);
    forall j | 0 <= j < 32
      ensures w[j] == e[j]
    {
      BitInWord(mem, at / 32 + k, j);
      assert 32 * (at / 32 + k) + j == at + 32 * k + j;
    }
  }

  lemma MaskedExtract(mem: seq<Word>, at: nat, wide: int, narrow: nat)
    requires narrow <= wide
    ensures And(Extract(mem, at, wide), Ones(narrow)) == Extract(mem, at, narrow)
  {}

  lemma WideExtract(mem: seq<Word>, at: nat, a: int, b: int)
    requires a >= 32 && b >= 32
    ensures Extract(mem, at, a) == Extract(mem, at, b)
  {}

  /** The low end of a destination word comes from the high end of a memory word. */
  lemma FirstPart(mem: seq<Word>, k: nat, o: nat)
    requires k < |mem| && o < 32
    ensures Shr(mem[k], o) == Extract(mem, 32 * k + o, 32 - o)
  {
    var s, e := Shr(mem[k], o), Extract(mem, 32 * k + o, 32 - o);
    forall j | 0 <= j < 32
      ensures s[j] == e[j]
    {
      if j + o < 32 {
        BitInWord(mem, k, o + j);
        assert 32 * k + (o + j) == 32 * k + o + j;
      }
    }
  }

  /** The rest comes from the low end of the next one. */
  lemma SecondPart(mem: seq<Word>, k: nat, o: nat)
    requires k + 1 < |mem| && 0 < o < 32
    ensures Or(Extract(mem, 32 * k + o, 32 - o), Shl(mem[k + 1], 32 - o)) == Extract(mem, 32 * k + o, 32)
  {
    var first, next := Extract(mem, 32 * k + o, 32 - o), Shl(mem[k + 1], 32 - o);
    var e := Extract(mem, 32 * k + o, 32);
    forall j | 0 <= j < 32
      ensures Or(first, next)[j] == e[j]
    {
      if j >= 32 - o {
        BitInWord(mem, k + 1, j - (32 - o));
        assert 32 * (k + 1) + (j - (32 - o)) == 32 * k + o + j;
      }
    }
  }

  /** The first k destination words hold whole words of what is read. */
  ghost predicate Whole(dest: seq<Word>, mem: seq<Word>, at: nat, k: nat) {
    k <= |dest| && forall j :: 0 <= j < k ==> dest[j] == Extract(mem, at + 32 * j, 32)
  }

  /** ... and the word after them its first `wide` bits. */
  ghost predicate Filled(dest: seq<Word>, mem: seq<Word>, at: nat, k: nat, wide: int) {
    k < |dest| && Whole(dest, mem, at, k) && dest[k] == Extract(mem, at + 32 * k, wide)
  }

  lemma Store(dest: seq<Word>, mem: seq<Word>, at: nat, k: nat, wide: int, w: Word)
    requires k < |dest| && Whole(dest, mem, at, k) && w == Extract(mem, at + 32 * k, wide)
    ensures Filled(dest[k := w], mem, at, k, wide)
    ensures wide == 32 ==> Whole(dest[k := w], mem, at, k + 1)
  {}

  /** The loop for reads that start on a word. */
  method ReadAligned(mem: array<Word>, at: nat, count: nat, dest: array<Word>)
    returns (current: nat, remaining: int, ghost wide: int)
    requires mem != dest && at % 32 == 0
    requires at + count <= 32 * mem.Length && at < 32 * mem.Length
    requires WordsFor(count) <= dest.Length
    modifies dest
    ensures current == WordsFor(count) - 1 && wide == 32
    ensures remaining == count - 32 * current - wide <= 0
    ensures Filled(dest[..], mem[..], at, current, wide)
    ensures dest[WordsFor(count)..] == old(dest[WordsFor(count)..])
  {
    current, remaining, wide := 0, count, 32;
    var wordAddress := at / 32;
    while true
      invariant wordAddress == at / 32 + current && remaining == count - 32 * current
      invariant 0 <= current < WordsFor(count)
      invariant Whole(dest[..], mem[..], at, current)
      invariant dest[WordsFor(count)..] == old(dest[WordsFor(count)..])
      decreases remaining
    {
      AlignedWord(mem[..], at, current);
      Store(dest[..], mem[..], at, current, 32, mem[wordAddress]);
      dest[current] := mem[wordAddress];
      current := current + 1;
      wordAddress := wordAddress + 1;
      remaining := remaining - 32;
      if remaining <= 0 {
        break;
      }
    }
    current := current - 1;
  }

  /** The loop for reads that start inside a word: every destination word is put
      together from two memory words. */
  method ReadUnaligned(mem: array<Word>, at: nat, count: nat, dest: array<Word>)
    returns (current: nat, remaining: int, ghost wide: int)
    requires mem != dest && at % 32 != 0
    requires 0 < count && at + count <= 32 * mem.Length
    requires WordsFor(count) <= dest.Length
    modifies dest
    ensures current == WordsFor(count) - 1 && wide <= 32
    ensures remaining == count - 32 * current - wide <= 0
    ensures Filled(dest[..], mem[..], at, current, wide)
    ensures dest[WordsFor(count)..] == old(dest[WordsFor(count)..])
  {
    var o := at % 32;
    var bits := 32 - o;
    var wordAddress := at / 32;
    current, remaining, wide := 0, count, bits;
    ghost var first := true;
    while true
      invariant 0 <= current < WordsFor(count)
      invariant wordAddress == at / 32 + current + if first then 0 else 1
      invariant remaining == count - 32 * current - (if first then 0 else bits) > 0
      invariant first == (remaining == count)
      invariant first ==> current == 0
      invariant !first ==> Filled(dest[..], mem[..], at, current, bits)
      invariant dest[WordsFor(count)..] == old(dest[WordsFor(count)..])
      decreases remaining
    {
      ghost var from := at / 32 + current;
      assert at + 32 * current == 32 * from + o;
      var word := mem[wordAddress];
      if remaining < count {
        SecondPart(mem[..], from, o);
        Store(dest[..], mem[..], at, current, 32, Or(dest[current], Shl(word, bits)));
        dest[current] := Or(dest[current], Shl(word, bits));
        remaining := remaining - o;
        wide := 32;
        if remaining > 0 {
          current := current + 1;
          from := from + 1;
        }
      }
      if remaining > 0 {
        assert at + 32 * current == 32 * from + o && from == wordAddress;
        FirstPart(mem[..], from, o);
        Store(dest[..], mem[..], at, current, bits, Shr(word, o));
        dest[current] := Shr(word, o);
        remaining := remaining - bits;
        wide := bits;
      }
      wordAddress := wordAddress + 1;
      first := false;
      if remaining <= 0 {
        break;
      }
    }
  }

  /** drv_otp_BitsRead: fills exactly the destination words that the count needs,
      with the bits from bitOffset on and zeros after the last one. */
  method BitsRead(mem: array<Word>, bitOffset: nat, readBitCount: nat, dest: array<Word>)
    requires mem != dest
    requires bitOffset + readBitCount <= 32 * mem.Length && bitOffset < 32 * mem.Length
    requires readBitCount > 0 || bitOffset % 32 == 0
    requires WordsFor(readBitCount) <= dest.Length
    modifies dest
    ensures dest[..WordsFor(readBitCount)] == ReadWords(mem[..], bitOffset, readBitCount)
    ensures dest[WordsFor(readBitCount)..] == old(dest[WordsFor(readBitCount)..])
  {
    var current, remaining;
    ghost var wide;
    if bitOffset % 32 == 0 {
      current, remaining, wide := ReadAligned(mem, bitOffset, readBitCount, dest);
    } else {
      current, remaining, wide := ReadUnaligned(mem, bitOffset, readBitCount, dest);
    }
    Finish(dest[..], mem[..], bitOffset, readBitCount, wide);
    if remaining < 0 {
      KeepLow(dest, current, readBitCount % 32);
    }
  }

  method KeepLow(dest: array<Word>, k: nat, n: nat)
    requires k < dest.Length
    modifies dest
    ensures dest[..] == old(dest[..])[k := And(old(dest[k]), Ones(n))]
  {
    dest[k] := And(dest[k], Ones(n));
  }

  /** The final mask, applied when the last memory word held bits past the count. */
  lemma Finish(dest: seq<Word>, mem: seq<Word>, at: nat, count: nat, wide: int)
    requires var k := WordsFor(count) - 1;
             Filled(dest, mem, at, k, wide) && count - 32 * k <= wide <= 32
    ensures var k := WordsFor(count) - 1;
            var masked := if count - 32 * k < wide then dest[k := And(dest[k], Ones(count % 32))] else dest;
            masked[..WordsFor(count)] == ReadWords(mem, at, count)
  {
    var k := WordsFor(count) - 1;
    if count - 32 * k < wide {
      MaskedExtract(mem, at + 32 * k, wide, count - 32 * k);
      FilledIsRead(dest[k := And(dest[k], Ones(count % 32))], mem, at, count);
    } else {
      FilledIsRead(dest, mem, at, count);
    }
  }

  lemma FilledIsRead(dest: seq<Word>, mem: seq<Word>, at: nat, count: nat)
    requires var k := WordsFor(count) - 1; Filled(dest, mem, at, k, count - 32 * k)
    ensures dest[..WordsFor(count)] == ReadWords(mem, at, count)
  {
    forall j | 0 <= j < WordsFor(count)
      ensures dest[j] == ReadWords(mem, at, count)[j]
    {
      if j < WordsFor(count) - 1 {
        WideExtract(mem, at + 32 * j, 32, count - 32 * j);
      }
    }
  }
}
