/** One-time-programmable fields (DRV_OTP.c): burn, verify, lock.

    The memory starts as zeros and burning can only set bits. Some cells may be weak
    and never take a burn: the driver does not look at the outcome of its burns, so
    what it promises depends on them. */
module Otp {
  import opened OtpBits

  const MEM_WORDS := 640

  datatype Field = MCU_CUSTOM1 | MCU_CUSTOM2 {
    function Base(): nat {
      match this case MCU_CUSTOM1 => 18720 case MCU_CUSTOM2 => 19744
    }

    function Size(): nat {
      match this case MCU_CUSTOM1 => 1024 case MCU_CUSTOM2 => 512
    }

    function Lock(): nat {
      match this case MCU_CUSTOM1 => 20475 + 2 case MCU_CUSTOM2 => 20475 + 3
    }

    predicate Contains(i: int) {
      Base() <= i < Base() + Size()
    }
  }

  datatype Status = OTP_OK | OTP_ACCESS_ERROR | OTP_ALREADY_LOCKED | OTP_ALREADY_WRITTEN
                  | OTP_ILLEGAL_VALUE | OTP_NOK | OTP_MEMORY_ERROR | OTP_LOCKED

  /** What the driver cannot decide: whether the write channel opens in time and
      whether the heap has room for the verification buffer. */
  datatype Env = Env(channelOpens: bool, heapHasRoom: bool)

  /** The memory after burning a set of bits. */
  function Burn(mem: seq<Word>, weak: set<nat>, bits: set<nat>): (r: seq<Word>)
    ensures |r| == |mem|
  {
    seq(|mem|, k requires 0 <= k < |mem| =>
      seq(32, j requires 0 <= j < 32 => mem[k][j] || (32 * k + j in bits && 32 * k + j !in weak)))
  }

  lemma BitOfBurn(mem: seq<Word>, weak: set<nat>, bits: set<nat>, i: nat)
    ensures Bit(Burn(mem, weak, bits), i) == (Bit(mem, i) || (i < 32 * |mem| && i in bits && i !in weak))
  {
    if i < 32 * |mem| {
      var k, j := i / 32, i % 32;
      assert i == 32 * k + j;
      assert Burn(mem, weak, bits)[k][j] == (mem[k][j] || (32 * k + j in bits && 32 * k + j !in weak));
    }
  }

  lemma BurnNothing(mem: seq<Word>, weak: set<nat>)
    ensures Burn(mem, weak, {}) == mem
  {
    forall k | 0 <= k < |mem|
      ensures Burn(mem, weak, {})[k] == mem[k]
    {}
  }

  lemma BurnTwice(mem: seq<Word>, weak: set<nat>, a: set<nat>, b: set<nat>)
    ensures Burn(Burn(mem, weak, a), weak, b) == Burn(mem, weak, a + b)
  {
    forall k | 0 <= k < |mem|
      ensures Burn(Burn(mem, weak, a), weak, b)[k] == Burn(mem, weak, a + b)[k]
    {}
  }

  /** The size argument is in bytes; its bit count wraps at 32 bits. */
  function BitCount(size: nat): nat {
    size * 8 % 0x1_0000_0000
  }

  predicate SizeAccepted(f: Field, size: nat) {
    size != 0 && BitCount(size) <= f.Size()
  }

  predicate Clean(mem: seq<Word>, f: Field) {
    forall i :: f.Base() <= i < f.Base() + f.Size() ==> !Bit(mem, i)
  }

  /** The cells a write of n bits sets: the ones of the data and the lock. */
  function ToBurn(f: Field, buf: seq<Word>, n: nat): set<nat> {
    DataBits(f, buf, n) + {f.Lock()}
  }

  function DataBits(f: Field, buf: seq<Word>, n: nat): set<nat> {
    set i: nat | f.Base() <= i < f.Base() + n && IsDataBit(f, buf, n, i)
  }

  /** Memory bit i is to hold a one of the data. */
  predicate IsDataBit(f: Field, buf: seq<Word>, n: nat, i: nat) {
    f.Base() <= i < f.Base() + n && Bit(buf, i - f.Base())
  }

  /** DRV_OTP_Set: the status, and the memory left behind. */
  function SetResult(mem: seq<Word>, weak: set<nat>, f: Field, buf: seq<Word>, size: nat, env: Env)
    : (Status, seq<Word>)
  {
    if !SizeAccepted(f, size) then (OTP_ILLEGAL_VALUE, mem)
    else if !env.channelOpens then (OTP_ACCESS_ERROR, mem)
    else if Bit(mem, f.Lock()) then (OTP_LOCKED, mem)
    else if !env.heapHasRoom then (OTP_MEMORY_ERROR, mem)
    else if !Clean(mem, f) then (OTP_ALREADY_WRITTEN, mem)
    else (OTP_OK, Burn(mem, weak, ToBurn(f, buf, BitCount(size))))
  }

  /** DRV_OTP_Get: the status, and the words delivered. */
  function GetResult(mem: seq<Word>, f: Field, size: nat): (Status, seq<Word>) {
    if !SizeAccepted(f, size) then (OTP_ILLEGAL_VALUE, [])
    else (OTP_OK, ReadWords(mem, f.Base(), BitCount(size)))
  }

  /** The fields and their locks lie in the memory and do not overlap. */
  lemma FieldsAreApart(f: Field, g: Field)
    requires f != g
    ensures f.Base() + f.Size() <= 32 * MEM_WORDS && f.Lock() < 32 * MEM_WORDS && f.Lock() != g.Lock()
    ensures f.Base() + f.Size() <= g.Base() || g.Base() + g.Size() <= f.Base()
    ensures !f.Contains(f.Lock()) && !f.Contains(g.Lock())
    ensures f.Size() == if f == MCU_CUSTOM1 then 8 * 128 else 8 * 64
  {}

  /** Every answer of a Set has its case, in the order of the checks. Only one that says
      OTP_OK burns anything. */
  lemma SetAnswers(mem: seq<Word>, weak: set<nat>, f: Field, buf: seq<Word>, size: nat, env: Env)
    ensures var (status, after) := SetResult(mem, weak, f, buf, size, env);
            var refused := size == 0 || size * 8 % 0x1_0000_0000 > f.Size();
            var locked := Bit(mem, f.Lock());
            var written := exists k: int :: f.Contains(k) && Bit(mem, k);
            && (status == OTP_ILLEGAL_VALUE <==> refused)
            && (status == OTP_ACCESS_ERROR <==> !refused && !env.channelOpens)
            && (status == OTP_LOCKED <==> !refused && env.channelOpens && locked)
            && (status == OTP_MEMORY_ERROR <==> !refused && env.channelOpens && !locked && !env.heapHasRoom)
            && (status == OTP_ALREADY_WRITTEN <==>
                  !refused && env.channelOpens && !locked && env.heapHasRoom && written)
            && (status == OTP_OK <==> !refused && env.channelOpens && !locked && env.heapHasRoom && !written)
            && (status != OTP_OK ==> after == mem)
  {
    hide Burn, ToBurn, Bit;
    if !Clean(mem, f) {
      var k :| f.Base() <= k < f.Base() + f.Size() && Bit(mem, k);
      assert f.Contains(k);
    }
    if k: int :| f.Contains(k) && Bit(mem, k) {
      assert f.Base() <= k < f.Base() + f.Size();
    }
  }

  /** What it burns are the ones of the data and the lock, as far as the cells take them. */
  lemma SetBurns(mem: seq<Word>, weak: set<nat>, f: Field, buf: seq<Word>, size: nat, env: Env, i: nat)
    requires |mem| == MEM_WORDS && SetResult(mem, weak, f, buf, size, env).0 == OTP_OK && i < 32 * MEM_WORDS
    ensures var n := size * 8 % 0x1_0000_0000;
            var asked := i == f.Lock() || (f.Base() <= i < f.Base() + n && Bit(buf, i - f.Base()));
            Bit(SetResult(mem, weak, f, buf, size, env).1, i) == (Bit(mem, i) || (asked && i !in weak))
  {
    hide Burn, Bit;
    var n := BitCount(size);
    BitOfBurn(mem, weak, ToBurn(f, buf, n), i);
    assert i in DataBits(f, buf, n) <==> IsDataBit(f, buf, n, i);
  }

  /** A Get delivers the first bits of the field in as many words as they need, and one for
      none; the other answer is that of a Set with the same size. */
  lemma GetAnswers(mem: seq<Word>, f: Field, size: nat, i: nat)
    requires |mem| == MEM_WORDS
    ensures var (status, words) := GetResult(mem, f, size);
            var n := size * 8 % 0x1_0000_0000;
            && (status == OTP_OK <==> size != 0 && n <= f.Size())
            && (status != OTP_OK ==> status == OTP_ILLEGAL_VALUE && words == [])
            && (status == OTP_OK ==> |words| == if n == 0 then 1 else (n + 31) / 32)
            && (status == OTP_OK ==> Bit(words, i) == (i < n && Bit(mem, f.Base() + i)))
  {
    if SizeAccepted(f, size) {
      ReadWordsBits(mem, f.Base(), BitCount(size), i);
    }
  }

  // ----- Runs of operations

  datatype Op = Set(f: Field, buf: seq<Word>, size: nat, env: Env) | Get(f: Field, size: nat)

  function After(mem: seq<Word>, weak: set<nat>, op: Op): seq<Word> {
    match op
    case Set(f, buf, size, env) => SetResult(mem, weak, f, buf, size, env).1
    case Get(_, _) => mem
  }

  function Run(mem: seq<Word>, weak: set<nat>, ops: seq<Op>): seq<Word>
    decreases |ops|
  {
    if ops == [] then mem else Run(After(mem, weak, ops[0]), weak, ops[1..])
  }

  predicate Touches(op: Op, i: nat) {
    op.Set? && (op.f.Contains(i) || i == op.f.Lock())
  }

  lemma StepIsMonotoneAndFramed(mem: seq<Word>, weak: set<nat>, op: Op, i: nat)
    ensures |After(mem, weak, op)| == |mem|
    ensures Bit(mem, i) ==> Bit(After(mem, weak, op), i)
    ensures !Touches(op, i) ==> Bit(After(mem, weak, op), i) == Bit(mem, i)
    ensures op.Set? && Bit(mem, op.f.Lock()) ==> After(mem, weak, op) == mem
  {
    if op.Set? && SetResult(mem, weak, op.f, op.buf, op.size, op.env).0 == OTP_OK {
      BitOfBurn(mem, weak, ToBurn(op.f, op.buf, BitCount(op.size)), i);
    }
  }

  /** Over any run no bit ever clears, and only cells of the fields written and
      their locks change. */
  lemma {:induction false} RunIsMonotoneAndFramed(mem: seq<Word>, weak: set<nat>, ops: seq<Op>, i: nat)
    ensures Bit(mem, i) ==> Bit(Run(mem, weak, ops), i)
    ensures (forall op :: op in ops ==> !Touches(op, i)) ==> Bit(Run(mem, weak, ops), i) == Bit(mem, i)
    decreases |ops|
  {
    if ops != [] {
      StepIsMonotoneAndFramed(mem, weak, ops[0], i);
      RunIsMonotoneAndFramed(After(mem, weak, ops[0]), weak, ops[1..], i);
    }
  }

  /** A step leaves a locked field as it is, whatever it does to the other one. */
  lemma StepKeepsLocked(mem: seq<Word>, weak: set<nat>, op: Op, f: Field, i: nat)
    requires Bit(mem, f.Lock()) && (f.Contains(i) || i == f.Lock())
    ensures Bit(After(mem, weak, op), i) == Bit(mem, i)
  {
    StepIsMonotoneAndFramed(mem, weak, op, i);
  }

  /** Once locked a field never changes again. */
  lemma {:induction false} LockedForever(mem: seq<Word>, weak: set<nat>, ops: seq<Op>, f: Field, i: nat)
    requires Bit(mem, f.Lock()) && (f.Contains(i) || i == f.Lock())
    ensures Bit(Run(mem, weak, ops), i) == Bit(mem, i)
    decreases |ops|
  {
    if ops != [] {
      StepKeepsLocked(mem, weak, ops[0], f, i);
      StepKeepsLocked(mem, weak, ops[0], f, f.Lock());
      LockedForever(After(mem, weak, ops[0]), weak, ops[1..], f, i);
    }
  }

  /** Fields are write-once: after a Set that returned OTP_OK, and any further run
      of Sets and Gets of both fields, every Set of that field is refused and leaves
      the memory alone. With a valid size and an open channel it says OTP_LOCKED. */
  lemma WriteOnce(mem: seq<Word>, weak: set<nat>, f: Field, buf: seq<Word>, size: nat, env: Env,
                  ops: seq<Op>, buf2: seq<Word>, size2: nat, env2: Env)
    requires |mem| == MEM_WORDS && f.Lock() !in weak
    requires SetResult(mem, weak, f, buf, size, env).0 == OTP_OK
    ensures var later := Run(SetResult(mem, weak, f, buf, size, env).1, weak, ops);
            var r := SetResult(later, weak, f, buf2, size2, env2);
            r.1 == later && r.0 != OTP_OK &&
            (SizeAccepted(f, size2) && env2.channelOpens ==> r.0 == OTP_LOCKED)
  {
    BitOfBurn(mem, weak, ToBurn(f, buf, BitCount(size)), f.Lock());
    LockedForever(SetResult(mem, weak, f, buf, size, env).1, weak, ops, f, f.Lock());
  }

  // ----- Weak lock bits

  /** Every one of the data falls on a weak cell. */
  predicate BurnsNothing(weak: set<nat>, f: Field, buf: seq<Word>, size: nat) {
    forall i: nat :: i < BitCount(size) && Bit(buf, i) ==> f.Base() + i in weak
  }

  /** The call could go through on an empty field. */
  predicate Admissible(f: Field, size: nat, env: Env) {
    SizeAccepted(f, size) && env.channelOpens && env.heapHasRoom
  }

  /** The call leaves an empty field of weak lock empty. */
  predicate Harmless(weak: set<nat>, op: Op, f: Field) {
    op.Set? && op.f == f && Admissible(f, op.size, op.env) ==> BurnsNothing(weak, f, op.buf, op.size)
  }

  /** On a weak lock bit, an empty field stays empty exactly when nothing is burnt. */
  lemma StaysClean(mem: seq<Word>, weak: set<nat>, op: Op, f: Field)
    requires |mem| == MEM_WORDS && Clean(mem, f) && !Bit(mem, f.Lock()) && f.Lock() in weak
    ensures |After(mem, weak, op)| == MEM_WORDS && !Bit(After(mem, weak, op), f.Lock())
    ensures Clean(After(mem, weak, op), f) <==> Harmless(weak, op, f)
  {
    var after := After(mem, weak, op);
    StepIsMonotoneAndFramed(mem, weak, op, f.Lock());
    if op.Set? && op.f == f && Admissible(f, op.size, op.env) {
      BitOfBurn(mem, weak, ToBurn(f, op.buf, BitCount(op.size)), f.Lock());
      CleanAfterBurn(mem, weak, f, op.buf, op.size);
    } else {
      forall i: nat | f.Contains(i)
        ensures Bit(after, i) == Bit(mem, i)
      {
        StepIsMonotoneAndFramed(mem, weak, op, i);
      }
    }
  }

  lemma BurntBit(mem: seq<Word>, weak: set<nat>, f: Field, buf: seq<Word>, n: nat, i: nat)
    requires |mem| == MEM_WORDS && Clean(mem, f) && i < f.Size() && n <= f.Size()
    ensures Bit(Burn(mem, weak, ToBurn(f, buf, n)), f.Base() + i) == (i < n && Bit(buf, i) && f.Base() + i !in weak)
  {
    BitOfBurn(mem, weak, ToBurn(f, buf, n), f.Base() + i);
    assert IsDataBit(f, buf, n, f.Base() + i) == (i < n && Bit(buf, i));
  }

  lemma CleanAfterBurn(mem: seq<Word>, weak: set<nat>, f: Field, buf: seq<Word>, size: nat)
    requires |mem| == MEM_WORDS && Clean(mem, f) && BitCount(size) <= f.Size()
    ensures Clean(Burn(mem, weak, ToBurn(f, buf, BitCount(size))), f) <==> BurnsNothing(weak, f, buf, size)
  {
    var n := BitCount(size);
    var after := Burn(mem, weak, ToBurn(f, buf, n));
    if BurnsNothing(weak, f, buf, size) {
      forall k | f.Base() <= k < f.Base() + f.Size()
        ensures !Bit(after, k)
      {
        BurntBit(mem, weak, f, buf, n, k - f.Base());
      }
    } else {
      var i: nat :| i < n && Bit(buf, i) && f.Base() + i !in weak;
      BurntBit(mem, weak, f, buf, n, i);
    }
  }

  /** And what is not empty never is again. */
  lemma {:induction false} RunStaysClean(mem: seq<Word>, weak: set<nat>, ops: seq<Op>, f: Field)
    requires |mem| == MEM_WORDS && !Bit(mem, f.Lock()) && f.Lock() in weak
    ensures !Bit(Run(mem, weak, ops), f.Lock())
    ensures Clean(Run(mem, weak, ops), f) <==> Clean(mem, f) && forall op :: op in ops ==> Harmless(weak, op, f)
    decreases |ops|
  {
    if ops != [] {
      var op, next := ops[0], After(mem, weak, ops[0]);
      LockStaysWeak(mem, weak, op, f);
      RunStaysClean(next, weak, ops[1..], f);
      if Clean(mem, f) {
        StaysClean(mem, weak, op, f);
      } else {
        var k :| f.Base() <= k < f.Base() + f.Size() && Bit(mem, k);
        StepIsMonotoneAndFramed(mem, weak, op, k);
        assert Bit(next, k);
      }
      assert (forall o :: o in ops ==> Harmless(weak, o, f)) <==>
             Harmless(weak, op, f) && forall o :: o in ops[1..] ==> Harmless(weak, o, f) by {
        assert ops == [op] + ops[1..];
      }
    }
  }

  lemma LockStaysWeak(mem: seq<Word>, weak: set<nat>, op: Op, f: Field)
    requires |mem| == MEM_WORDS && !Bit(mem, f.Lock()) && f.Lock() in weak
    ensures |After(mem, weak, op)| == MEM_WORDS && !Bit(After(mem, weak, op), f.Lock())
  {
    StepIsMonotoneAndFramed(mem, weak, op, f.Lock());
    if op.Set? && After(mem, weak, op) != mem {
      BitOfBurn(mem, weak, ToBurn(op.f, op.buf, BitCount(op.size)), f.Lock());
    }
  }

  /** After a Set that returned OTP_OK, and any further run, another Set of the field
      returns OTP_OK if and only if the lock bit is weak, nothing has been burnt so far, and
      nothing else is wrong with the call. */
  lemma SecondWriteExactlyWhen(mem: seq<Word>, weak: set<nat>, f: Field, buf: seq<Word>, size: nat, env: Env,
                               ops: seq<Op>, buf2: seq<Word>, size2: nat, env2: Env)
    requires |mem| == MEM_WORDS && SetResult(mem, weak, f, buf, size, env).0 == OTP_OK
    ensures var later := Run(SetResult(mem, weak, f, buf, size, env).1, weak, ops);
            SetResult(later, weak, f, buf2, size2, env2).0 == OTP_OK <==>
            && f.Lock() in weak && Admissible(f, size2, env2)
            && BurnsNothing(weak, f, buf, size) && forall op :: op in ops ==> Harmless(weak, op, f)
  {
    if f.Lock() in weak {
      var first := Set(f, buf, size, env);
      StaysClean(mem, weak, first, f);
      RunStaysClean(After(mem, weak, first), weak, ops, f);
    } else {
      WriteOnce(mem, weak, f, buf, size, env, ops, buf2, size2, env2);
    }
  }

  // ----- Reading back

  /** Once locked, or no longer empty, a field never changes again. */
  lemma {:induction false} Settled(mem: seq<Word>, weak: set<nat>, ops: seq<Op>, f: Field, i: nat)
    requires (Bit(mem, f.Lock()) || !Clean(mem, f)) && f.Contains(i)
    ensures Bit(Run(mem, weak, ops), i) == Bit(mem, i)
    decreases |ops|
  {
    if ops != [] {
      StepIsMonotoneAndFramed(mem, weak, ops[0], i);
      StepIsMonotoneAndFramed(mem, weak, ops[0], f.Lock());
      if !Clean(mem, f) {
        var k :| f.Base() <= k < f.Base() + f.Size() && Bit(mem, k);
        StepIsMonotoneAndFramed(mem, weak, ops[0], k);
      }
      Settled(After(mem, weak, ops[0]), weak, ops[1..], f, i);
    }
  }

  /** No later call can add to the field: it is locked, or it is not empty, or none of them
      would burn anything. */
  predicate NothingAdded(weak: set<nat>, f: Field, buf: seq<Word>, size: nat, ops: seq<Op>) {
    f.Lock() !in weak || !BurnsNothing(weak, f, buf, size) || forall op :: op in ops ==> Harmless(weak, op, f)
  }

  /** What a Get of the same size reads back, right after a Set that returned OTP_OK
      or after any later run: the data where the cells took it, zeros elsewhere. */
  lemma ReadBackBits(mem: seq<Word>, weak: set<nat>, f: Field, buf: seq<Word>, size: nat, env: Env,
                     ops: seq<Op>, i: nat)
    requires |mem| == MEM_WORDS && NothingAdded(weak, f, buf, size, ops)
    requires SetResult(mem, weak, f, buf, size, env).0 == OTP_OK
    ensures var later := Run(SetResult(mem, weak, f, buf, size, env).1, weak, ops);
            GetResult(later, f, size).0 == OTP_OK &&
            Bit(GetResult(later, f, size).1, i) ==
              (i < BitCount(size) && Bit(buf, i) && f.Base() + i !in weak)
  {
    var n := BitCount(size);
    var set0 := SetResult(mem, weak, f, buf, size, env).1;
    ReadWordsBits(Run(set0, weak, ops), f.Base(), n, i);
    if i < n {
      BurntBit(mem, weak, f, buf, n, i);
      StaysAsSet(mem, weak, f, buf, size, env, ops, i);
    }
  }

  lemma StaysAsSet(mem: seq<Word>, weak: set<nat>, f: Field, buf: seq<Word>, size: nat, env: Env,
                   ops: seq<Op>, i: nat)
    requires |mem| == MEM_WORDS && NothingAdded(weak, f, buf, size, ops) && i < f.Size()
    requires SetResult(mem, weak, f, buf, size, env).0 == OTP_OK
    ensures var set0 := SetResult(mem, weak, f, buf, size, env).1;
            Bit(Run(set0, weak, ops), f.Base() + i) == Bit(set0, f.Base() + i)
  {
    var set0 := SetResult(mem, weak, f, buf, size, env).1;
    BitOfBurn(mem, weak, ToBurn(f, buf, BitCount(size)), f.Lock());
    CleanAfterBurn(mem, weak, f, buf, size);
    if Bit(set0, f.Lock()) || !Clean(set0, f) {
      Settled(set0, weak, ops, f, f.Base() + i);
    } else {
      RunStaysClean(set0, weak, ops, f);
    }
  }

  /** The read-back is exactly the data written, bit for bit and padded with zeros,
      if and only if no one bit of the data falls on a weak cell. */
  lemma ReadBackIsFaithfulExactlyWhen(mem: seq<Word>, weak: set<nat>, f: Field, buf: seq<Word>, size: nat,
                                      env: Env, ops: seq<Op>)
    requires |mem| == MEM_WORDS && NothingAdded(weak, f, buf, size, ops)
    requires SetResult(mem, weak, f, buf, size, env).0 == OTP_OK
    ensures var later := Run(SetResult(mem, weak, f, buf, size, env).1, weak, ops);
            var words := GetResult(later, f, size).1;
            (forall i: nat :: Bit(words, i) == (i < BitCount(size) && Bit(buf, i))) <==>
              (forall i: nat :: i < BitCount(size) && Bit(buf, i) ==> f.Base() + i !in weak)
  {
    var later := Run(SetResult(mem, weak, f, buf, size, env).1, weak, ops);
    var words := GetResult(later, f, size).1;
    forall i: nat
      ensures Bit(words, i) == (i < BitCount(size) && Bit(buf, i) && f.Base() + i !in weak)
    {
      ReadBackBits(mem, weak, f, buf, size, env, ops, i);
    }
  }

  /** The size check is the documented one, a whole number of bytes up to the size
      of the field, exactly for sizes below 2 to the 29; the bit count of larger
      ones wraps. */
  lemma SizeCheck(f: Field, size: nat)
    ensures size < 0x2000_0000 ==> (SizeAccepted(f, size) <==> 0 < size <= f.Size() / 8)
    ensures SizeAccepted(f, size) <==> size != 0 && size % 0x2000_0000 <= f.Size() / 8
  {
    assert size * 8 % 0x1_0000_0000 == 8 * (size % 0x2000_0000);
  }

  /** A size of 2 to the 29 bytes is accepted, writes nothing and locks the field. */
  lemma WrappedSizeLocksEmptyField(mem: seq<Word>, f: Field, buf: seq<Word>)
    requires |mem| == MEM_WORDS && !Bit(mem, f.Lock()) && Clean(mem, f)
    ensures var r := SetResult(mem, {}, f, buf, 0x2000_0000, Env(true, true));
            r.0 == OTP_OK && Clean(r.1, f) && Bit(r.1, f.Lock())
  {
    var bits := ToBurn(f, buf, 0);
    assert BitCount(0x2000_0000) == 0;
    forall i: nat
      ensures Bit(Burn(mem, {}, bits), i) == (Bit(mem, i) || i == f.Lock())
    {
      BitOfBurn(mem, {}, bits, i);
    }
  }
}
