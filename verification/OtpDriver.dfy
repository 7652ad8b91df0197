/** The OTP driver itself: the private and public functions of DRV_OTP.c, working on
    the memory in place, proved against the results stated in Otp. */
module OtpDriver {
  import opened OtpBits
  import opened Otp

  /** `value` without the bits that fall on weak cells of the word. */
  function Taken(weak: set<nat>, addr: nat, value: Word): Word {
    seq(32, j requires 0 <= j < 32 => value[j] && 32 * addr + j !in weak)
  }

  predicate NonZero(w: Word) {
    exists j :: 0 <= j < 32 && w[j]
  }

  lemma BurnOneBit(mem: seq<Word>, weak: set<nat>, b: nat)
    requires b < 32 * |mem|
    ensures mem[b / 32 := Or(mem[b / 32], Taken(weak, b / 32, OneBit(b % 32)))] == Burn(mem, weak, {b})
  {
    var k0 := b / 32;
    var burnt := mem[k0 := Or(mem[k0], Taken(weak, k0, OneBit(b % 32)))];
    forall k | 0 <= k < |mem|
      ensures burnt[k] == Burn(mem, weak, {b})[k]
    {
      forall j | 0 <= j < 32
        ensures burnt[k][j] == Burn(mem, weak, {b})[k][j]
      {
        assert b == 32 * k0 + b % 32;
      }
    }
  }

  lemma OneBitCovered(w: Word, j: nat)
    requires j < 32
    ensures And(w, OneBit(j)) == OneBit(j) <==> w[j]
  {
    if w[j] {
      assert forall i :: 0 <= i < 32 ==> And(w, OneBit(j))[i] == OneBit(j)[i];
    } else {
      assert And(w, OneBit(j))[j] != OneBit(j)[j];
    }
  }

  lemma NoDataBits(f: Field, buf: seq<Word>)
    ensures DataBits(f, buf, 0) == {}
  {}

  lemma OneMoreDataBit(f: Field, buf: seq<Word>, n: nat)
    ensures DataBits(f, buf, n + 1) == DataBits(f, buf, n) + if Bit(buf, n) then {f.Base() + n} else {}
  {
    var before, after := DataBits(f, buf, n), DataBits(f, buf, n + 1);
    forall i | i in after
      ensures i in before + if Bit(buf, n) then {f.Base() + n} else {}
    {
      assert IsDataBit(f, buf, n + 1, i);
      assert i != f.Base() + n ==> IsDataBit(f, buf, n, i);
    }
    forall i | i in before + if Bit(buf, n) then {f.Base() + n} else {}
      ensures i in after
    {
      assert i in before ==> IsDataBit(f, buf, n, i);
      assert IsDataBit(f, buf, n + 1, i);
    }
  }

  lemma BurnOneMore(mem: seq<Word>, weak: set<nat>, f: Field, buf: seq<Word>, n: nat)
    ensures var before := Burn(mem, weak, DataBits(f, buf, n));
            Burn(mem, weak, DataBits(f, buf, n + 1)) ==
              if Bit(buf, n) then Burn(before, weak, {f.Base() + n}) else before
  {
    OneMoreDataBit(f, buf, n);
    BurnTwice(mem, weak, DataBits(f, buf, n), {f.Base() + n});
    assert DataBits(f, buf, n) + {} == DataBits(f, buf, n);
  }

  /** Writing the data never touches the lock. */
  lemma LockNotInData(mem: seq<Word>, weak: set<nat>, f: Field, buf: seq<Word>, n: nat)
    requires n <= f.Size()
    ensures Bit(Burn(mem, weak, DataBits(f, buf, n)), f.Lock()) == Bit(mem, f.Lock())
  {
    BitOfBurn(mem, weak, DataBits(f, buf, n), f.Lock());
  }

  class Driver {
    const ram: array<Word>
    const weak: set<nat>  // cells that never take a burn

    ghost predicate Valid() {
      ram.Length == MEM_WORDS
    }

    constructor (weak: set<nat>)
      ensures Valid() && fresh(ram) && this.weak == weak
      ensures forall i :: !Bit(ram[..], i)
    {
      ram := new Word[MEM_WORDS](_ => seq(32, _ => false));
      this.weak := weak;
    }

    /** Stores to the memory-mapped OTP, then reads back. */
    method BurnWord(addr: nat, value: Word) returns (r: int)
      requires addr < ram.Length
      modifies ram
      ensures ram[..] == old(ram[..])[addr := Or(old(ram[addr]), Taken(weak, addr, value))]
      ensures r == if And(ram[addr], value) == value then 0 else -1
    {
      ram[addr] := Or(ram[addr], Taken(weak, addr, value));
      var readWord := ram[addr];
      r := if And(readWord, value) == value then 0 else -1;
    }

    /** Burns one bit and says whether it took. */
    method BurnBit(bitAddr: int) returns (r: int)
      requires bitAddr < 32 * ram.Length
      modifies ram
      ensures bitAddr < 0 ==> r == -1 && ram[..] == old(ram[..])
      ensures bitAddr >= 0 ==> ram[..] == Burn(old(ram[..]), weak, {bitAddr})
      ensures bitAddr >= 0 ==> r == if Bit(ram[..], bitAddr) then 0 else -1
    {
      if bitAddr < 0 {
        return -1;
      }
      var wordAddr := bitAddr / 32;
      var bitOffset := bitAddr % 32;
      BurnOneBit(ram[..], weak, bitAddr);
      r := BurnWord(wordAddr, OneBit(bitOffset));
      OneBitCovered(ram[wordAddr], bitOffset);
    }

    method IsLocked(f: Field) returns (locked: bool)
      requires Valid()
      ensures locked == Bit(ram[..], f.Lock())
    {
      var otpRead := new Word[1];
      BitsRead(ram, f.Lock(), 1, otpRead);
      LockWord(ram[..], f, otpRead[..]);
      locked := NonZero(otpRead[0]);
    }

    method LockOtp(f: Field) returns (status: Status)
      requires Valid()
      modifies ram
      ensures status == OTP_ALREADY_LOCKED <==> old(Bit(ram[..], f.Lock()))
      ensures ram[..] == if old(Bit(ram[..], f.Lock())) then old(ram[..]) else Burn(old(ram[..]), weak, {f.Lock()})
      ensures status == OTP_OK ==> Bit(ram[..], f.Lock())
      ensures status == OTP_NOK ==> !Bit(ram[..], f.Lock())
      ensures status in {OTP_OK, OTP_NOK, OTP_ALREADY_LOCKED}
    {
      status := OTP_NOK;
      var locked := IsLocked(f);
      if locked {
        return OTP_ALREADY_LOCKED;
      }
      var r := BurnBit(f.Lock());
      if r == 0 {
        locked := IsLocked(f);
        if locked {
          status := OTP_OK;
        }
      }
    }

    /** Reads the first bits of a field into the caller's buffer. */
    method FieldGet(f: Field, buf: array<Word>, sizeBit: nat) returns (status: Status)
      requires Valid() && buf != ram
      requires sizeBit <= f.Size() ==> WordsFor(sizeBit) <= buf.Length
      modifies buf
      ensures f.Size() < sizeBit ==> status == OTP_ILLEGAL_VALUE && buf[..] == old(buf[..])
      ensures f.Size() >= sizeBit ==>
                && status == OTP_OK
                && buf[..WordsFor(sizeBit)] == ReadWords(ram[..], f.Base(), sizeBit)
                && buf[WordsFor(sizeBit)..] == old(buf[WordsFor(sizeBit)..])
    {
      status := OTP_OK;
      if f.Size() < sizeBit {
        return OTP_ILLEGAL_VALUE;
      }
      BitsRead(ram, f.Base(), sizeBit, buf);
    }

    /** Looks for a bit of the field that is already burnt. */
    method VerifyFieldContent(f: Field, heapHasRoom: bool) returns (status: Status)
      requires Valid()
      ensures status == if !heapHasRoom then OTP_MEMORY_ERROR
                        else if Clean(ram[..], f) then OTP_OK else OTP_ALREADY_WRITTEN
    {
      status := OTP_OK;
      var sizeBit := f.Size();
      if !heapHasRoom {
        return OTP_MEMORY_ERROR;
      }
      var buf := new Word[sizeBit / 32 + 1];
      var got := FieldGet(f, buf, sizeBit);
      ghost var words := buf[..];
      ClearWords(ram[..], f, words);
      var buffBitRun, wordRun := 0, 0;
      while sizeBit > 0
        invariant 0 <= sizeBit <= f.Size() && 0 <= buffBitRun <= 32
        invariant 32 * wordRun + buffBitRun == f.Size() - sizeBit
        invariant buf[..] == words
        invariant forall i: nat :: i < f.Size() - sizeBit ==> !Bit(words, i)
        decreases sizeBit
      {
        if buffBitRun == 32 {
          wordRun := wordRun + 1;
          buffBitRun := 0;
        }
        BitInWord(words, wordRun, buffBitRun);
        if buf[wordRun][buffBitRun] {
          return OTP_ALREADY_WRITTEN;
        }
        buffBitRun := buffBitRun + 1;
        sizeBit := sizeBit - 1;
      }
    }

    /** Burns the one bits of the data, in order. */
    method BurnData(f: Field, buf: array<Word>, sizeBit: nat)
      requires Valid() && buf != ram
      requires sizeBit <= f.Size() && sizeBit <= 32 * buf.Length
      modifies ram
      ensures ram[..] == Burn(old(ram[..]), weak, DataBits(f, buf[..], sizeBit))
    {
      var buffBitRun, wordRun, size := 0, 0, sizeBit;
      ghost var mem, data := ram[..], buf[..];
      BurnNothing(mem, weak);
      NoDataBits(f, data);
      while size > 0
        invariant 0 <= size <= sizeBit && 0 <= buffBitRun <= 32
        invariant 32 * wordRun + buffBitRun == sizeBit - size
        invariant buf[..] == data
        invariant ram[..] == Burn(mem, weak, DataBits(f, data, sizeBit - size))
        decreases size
      {
        if buffBitRun == 32 {
          wordRun := wordRun + 1;
          buffBitRun := 0;
        }
        ghost var done: nat := sizeBit - size;
        BitInWord(data, wordRun, buffBitRun);
        BurnOneMore(mem, weak, f, data, done);
        assert f.Base() + wordRun * 32 + buffBitRun == f.Base() + done;
        if buf[wordRun][buffBitRun] {
          var _ := BurnBit(f.Base() + wordRun * 32 + buffBitRun);
        }
        buffBitRun := buffBitRun + 1;
        size := size - 1;
      }
    }

    method FieldWrite(f: Field, buf: array<Word>, sizeBit: nat, env: Env) returns (status: Status)
      requires Valid() && buf != ram
      requires sizeBit <= f.Size() && sizeBit <= 32 * buf.Length
      modifies ram
      ensures var mem := old(ram[..]);
              status == if !env.channelOpens then OTP_ACCESS_ERROR
                        else if Bit(mem, f.Lock()) then OTP_LOCKED
                        else if !env.heapHasRoom then OTP_MEMORY_ERROR
                        else if !Clean(mem, f) then OTP_ALREADY_WRITTEN else OTP_OK
      ensures ram[..] == if status == OTP_OK then Burn(old(ram[..]), weak, ToBurn(f, buf[..], sizeBit))
                         else old(ram[..])
    {
      if !env.channelOpens {
        return OTP_ACCESS_ERROR;
      }
      var locked := IsLocked(f);
      if locked {
        return OTP_LOCKED;
      }
      status := VerifyFieldContent(f, env.heapHasRoom);
      if status != OTP_OK {
        return;
      }
      ghost var mem := ram[..];
      BurnData(f, buf, sizeBit);
      LockNotInData(mem, weak, f, buf[..], sizeBit);
      BurnTwice(mem, weak, DataBits(f, buf[..], sizeBit), {f.Lock()});
      var _ := LockOtp(f);
      return OTP_OK;
    }

    method Set(f: Field, buf: array<Word>, size: nat, env: Env) returns (status: Status)
      requires Valid() && buf != ram
      requires SizeAccepted(f, size) ==> BitCount(size) <= 32 * buf.Length
      modifies ram
      ensures (status, ram[..]) == SetResult(old(ram[..]), weak, f, buf[..], size, env)
    {
      if size == 0 || f.Size() < BitCount(size) {
        return OTP_ILLEGAL_VALUE;
      }
      status := FieldWrite(f, buf, BitCount(size), env);
    }

    method Get(f: Field, buf: array<Word>, size: nat) returns (status: Status)
      requires Valid() && buf != ram
      requires SizeAccepted(f, size) ==> WordsFor(BitCount(size)) <= buf.Length
      modifies buf
      ensures var r := GetResult(ram[..], f, size);
              status == r.0 && |r.1| <= buf.Length &&
              buf[..] == r.1 + old(buf[..])[|r.1|..]
    {
      if size == 0 || f.Size() < BitCount(size) {
        return OTP_ILLEGAL_VALUE;
      }
      status := FieldGet(f, buf, BitCount(size));
      assert buf[..] == buf[..WordsFor(BitCount(size))] + buf[WordsFor(BitCount(size))..];
    }
  }

  lemma LockWord(mem: seq<Word>, f: Field, words: seq<Word>)
    requires |mem| == MEM_WORDS && |words| == 1 && words[..1] == ReadWords(mem, f.Lock(), 1)
    ensures NonZero(words[0]) == Bit(mem, f.Lock())
  {
    assert words[0] == Extract(mem, f.Lock(), 1);
    assert words[0][0] == Bit(mem, f.Lock() + 0);
  }

  /** A field is clean exactly when the words read from it hold no one bit. */
  lemma ClearWords(mem: seq<Word>, f: Field, words: seq<Word>)
    requires WordsFor(f.Size()) <= |words|
    requires words[..WordsFor(f.Size())] == ReadWords(mem, f.Base(), f.Size())
    ensures (forall i: nat :: i < f.Size() ==> !Bit(words, i)) <==> Clean(mem, f)
  {
    forall i: nat | i < f.Size()
      ensures Bit(words, i) == Bit(mem, f.Base() + i)
    {
      ReadWordsBits(mem, f.Base(), f.Size(), i);
      assert words[i / 32] == words[..WordsFor(f.Size())][i / 32];
    }
    if !Clean(mem, f) {
      var i :| f.Base() <= i < f.Base() + f.Size() && Bit(mem, i);
      assert Bit(words, i - f.Base()) == Bit(mem, f.Base() + (i - f.Base()));
    }
  }
}
