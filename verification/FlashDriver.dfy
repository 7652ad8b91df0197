/** The flash driver: DRV_FLASH_Write and its helpers, with the memory in place. */
module FlashDriver {
  import opened Common
  import opened Flash

  /** sf_memcmp: zero exactly when the bytes agree. Its callers only ask that. */
  method SfMemcmp(cs: seq<Byte>, ct: seq<Byte>) returns (res: int)
    requires |cs| == |ct|
    ensures res == 0 <==> cs == ct
  {
    res := 0;
    var i := 0;
    while i < |cs|
      invariant 0 <= i <= |cs|
      invariant res == 0 && cs[..i] == ct[..i]
    {
      res := if cs[i] == ct[i] then 0 else 1;
      if res != 0 {
        return;
      }
      i := i + 1;
    }
  }

  /** sf_memcpy, into a word buffer. */
  method SfMemcpy(dst: array<Byte>, at: nat, src: seq<Byte>, doAnd: bool)
    requires at + |src| <= dst.Length
    modifies dst
    ensures dst[..] == Copied(old(dst[..]), at, src, doAnd)
  {
    ghost var before := dst[..];
    var i := 0;
    if !doAnd {
      while i < |src|
        invariant 0 <= i <= |src|
        invariant dst[..] == before[..at] + src[..i] + before[at + i..]
      {
        dst[at + i] := src[i];
        i := i + 1;
      }
    } else {
      while i < |src|
        invariant 0 <= i <= |src|
        invariant dst[..] == Written(before, at, src[..i])
      {
        WrittenOneMore(before, at, src, i);
        dst[at + i] := And(dst[at + i], src[i]);
        i := i + 1;
      }
      assert src[..|src|] == src;
    }
  }

  lemma WrittenOneMore(cells: seq<Byte>, at: nat, data: seq<Byte>, i: nat)
    requires at + |data| <= |cells| && i < |data|
    ensures var w := Written(cells, at, data[..i]);
            w[at + i := And(w[at + i], data[i])] == Written(cells, at, data[..i + 1])
  {
    WrittenInParts(cells, at, data[..i], [data[i]]);
    assert data[..i] + [data[i]] == data[..i + 1];
  }

  /** The flash partition, seen through its controller. It starts and ends with a page,
      so that places in it have the same alignment as their addresses. */
  class Controller {
    const base: nat           // first address of the partition
    const pages: nat          // its size in pages
    const cells: array<Byte>
    const doAnd: bool         // g_sf_do_AND_for_write
    var trace: seq<Event>     // what the controller was told, in order

    ghost predicate Valid() {
      base % PAGE_SIZE == 0 && cells.Length == PAGE_SIZE * pages
    }

    constructor (base: nat, contents: seq<Byte>, doAnd: bool)
      requires base % PAGE_SIZE == 0 && |contents| % PAGE_SIZE == 0
      ensures Valid() && fresh(cells) && this.base == base && this.doAnd == doAnd
      ensures cells[..] == contents && trace == []
    {
      this.base := base;
      pages := |contents| / PAGE_SIZE;
      this.doAnd := doAnd;
      cells := new Byte[|contents|](i requires 0 <= i < |contents| => contents[i]);
      trace := [];
    }

    /** A 32-bit store to the memory-mapped flash. */
    method StoreWord(at: nat, val: array<Byte>)
      requires at + 4 <= cells.Length
      requires val.Length == 4 && val != cells
      modifies this, cells
      ensures cells[..] == Written(old(cells[..]), at, val[..])
      ensures trace == old(trace) + [Store(at)]
    {
      ghost var before := cells[..];
      for i := 0 to 4
        invariant cells[..] == Written(before, at, val[..i])
        invariant val[..] == old(val[..])
        invariant trace == old(trace)
      {
        WrittenOneMore(before, at, val[..], i);
        assert val[..][..i] == val[..i] && val[..][..i + 1] == val[..i + 1];
        cells[at + i] := And(cells[at + i], val[i]);
      }
      assert val[..4] == val[..];
      trace := trace + [Store(at)];
    }

    /** A word of the flash with part of the data copied over it, stored back. */
    method StorePadded(at: nat, from: nat, data: seq<Byte>, pad: array<Byte>)
      requires at + 4 <= cells.Length
      requires pad.Length == 4 && pad != cells && from + |data| <= 4
      requires pad[..] == cells[..][at..at + 4] || (pad[..] == [ALL_ONES, ALL_ONES, ALL_ONES, ALL_ONES] && !doAnd)
      modifies this, cells, pad
      ensures cells[..] == Written(old(cells[..]), at + from, data)
      ensures trace == old(trace) + [Store(at)]
    {
      PaddedWord(cells[..], at, from, data, pad[..], doAnd);
      SfMemcpy(pad, from, data, doAnd);
      StoreWord(at, pad);
    }

    method LoadWord(at: nat) returns (val: array<Byte>)
      requires at + 4 <= cells.Length
      ensures fresh(val) && val.Length == 4
      ensures val[..] == cells[..][at..at + 4]
    {
      val := new Byte[4];
      val[0], val[1], val[2], val[3] := cells[at], cells[at + 1], cells[at + 2], cells[at + 3];
      assert val[..] == cells[..][at..at + 4];
    }

    /** The first bytes of a page write, up to a word boundary. */
    method WritePrefix(data: seq<Byte>, at: nat) returns (done: nat)
      requires Valid() && at + |data| <= cells.Length && 0 < |data|
      modifies this, cells
      ensures done == PrefixBytes(at, |data|)
      ensures cells[..] == Written(old(cells[..]), at, data[..done])
      ensures trace == old(trace) + Words(FirstWord(at), at + done)
    {
      done := 0;
      WrittenNothing(cells[..], at);
      PrefixThenRest(at, |data|);
      if at % 4 != 0 {
        var alignedTo := at - at % 4;
        WordInPartition(pages, at);
        var alignedValue := LoadWord(alignedTo);
        done := 4 - at % 4;
        if |data| < done {
          done := |data|;
        }
        StorePadded(alignedTo, at % 4, data[..done], alignedValue);
      }
    }

    /** One whole word: from the old contents when ANDing, from the source otherwise. */
    method WriteWord(word: seq<Byte>, srcAligned: bool, at: nat)
      requires at + 4 <= cells.Length && |word| == 4
      modifies this, cells
      ensures cells[..] == Written(old(cells[..]), at, word)
      ensures trace == old(trace) + [Store(at)]
    {
      if doAnd {
        var val := LoadWord(at);
        StorePadded(at, 0, word, val);
      } else if srcAligned {
        var val := new Byte[4](i requires 0 <= i < 4 => word[i]);
        assert val[..] == word;
        StoreWord(at, val);
      } else {
        var val := new Byte[4](_ => ALL_ONES);
        StorePadded(at, 0, word, val);
      }
    }

    /** The whole words of a page write; the source keeps its alignment from word to
        word. */
    method WriteWords(data: seq<Byte>, srcAligned: bool, at: nat, ghost n: nat) returns (done: nat)
      requires at + |data| <= cells.Length && 4 * n <= |data| < 4 * n + 4
      modifies this, cells
      ensures done == 4 * n
      ensures cells[..] == Written(old(cells[..]), at, data[..done])
      ensures trace == old(trace) + Words(at, at + 4 * n)
    {
      hide Written, Words;
      ghost var before, told := cells[..], trace;
      ghost var words: nat := 0;
      done := 0;
      WrittenNothing(before, at);
      NoWords(told, at);
      while |data| - done >= 4
        invariant words <= n && done == 4 * words
        invariant cells[..] == Written(before, at, data[..done])
        invariant trace == told + Words(at, at + 4 * words)
      {
        NextBytes(before, at, data, done, 4);
        NextWord(told, at, words);
        WriteWord(data[done..done + 4], srcAligned, at + done);
        done := done + 4;
        words := words + 1;
      }
    }

    /** The bytes of a page write after the last word boundary. */
    method WriteSuffix(data: seq<Byte>, at: nat, ghost word: nat)
      requires Valid() && at == 4 * word && at + |data| <= cells.Length
      requires |data| < 4
      modifies this, cells
      ensures cells[..] == Written(old(cells[..]), at, data)
      ensures trace == old(trace) + Words(at, at + |data|)
    {
      hide Written, Words;
      WrittenNothing(cells[..], at);
      NoWords(trace, at);
      if |data| != 0 {
        WordInPartition(pages, at);
        var val := new Byte[4](_ => ALL_ONES);
        if doAnd {
          val := LoadWord(at);
        }
        StorePadded(at, 0, data, val);
        OneWord(at, at + |data|);
      }
    }

    /** A page write from a word boundary on. */
    method WriteFromBoundary(data: seq<Byte>, srcAddr: nat, at: nat, ghost word: nat)
      requires Valid() && at == 4 * word && at + |data| <= cells.Length
      modifies this, cells
      ensures cells[..] == Written(old(cells[..]), at, data)
      ensures trace == old(trace) + Words(at, at + |data|)
    {
      ghost var n := WordsIn(|data|);
      FromBoundary(cells[..], trace, at, data, n);
      var whole := WriteWords(data, srcAddr % 4 == 0, at, n);
      WriteSuffix(data[whole..], at + whole, word + n);
    }

    /** serial_flash_write_page: prefix, whole words, suffix. The bytes all land, the
        stores go to consecutive words, and the count register is told beforehand
        exactly four bytes for each of them. */
    method WritePage(data: seq<Byte>, srcAddr: nat, at: nat, timesOut: bool) returns (ret: Error)
      requires Valid() && 0 < |data| && at + |data| <= cells.Length
      modifies this, cells
      ensures cells[..] == Written(old(cells[..]), at, data)
      ensures trace == old(trace) + PageTrace(at, |data|)
      ensures ret == if timesOut then FLASH_ERROR_TIMEOUT else FLASH_ERROR_NONE
    {
      ghost var p := PrefixBytes(at, |data|);
      assert data[..p] + data[p..] == data;
      WrittenInParts(cells[..], at, data[..p], data[p..]);
      TraceInParts(trace, at, |data|);
      CountIsFourPerStore(at, |data|);
      trace := trace + [Count((|data| + at % 4 + 3) / 4 * 4)];
      var prefix := WritePrefix(data, at);
      if prefix < |data| {
        WriteFromBoundary(data[prefix..], srcAddr + prefix, at + prefix, (at + prefix) / 4);
      } else {
        assert data[..prefix] == data && Words(at + prefix, at + |data|) == [];
      }
      ret := if timesOut then FLASH_ERROR_TIMEOUT else FLASH_ERROR_NONE;
    }

    /** serial_flash_verify_buffer: compares twice before it gives up. */
    method VerifyBuffer(src: seq<Byte>, at: nat) returns (e: Error)
      requires at + |src| <= cells.Length
      ensures e == if cells[..][at..at + |src|] == src then FLASH_ERROR_NONE else FLASH_ERROR_VERIFY
    {
      assert cells[at..at + |src|] == cells[..][at..at + |src|];
      var cmp := SfMemcmp(src, cells[at..at + |src|]);
      if cmp != 0 {
        cmp := SfMemcmp(src, cells[at..at + |src|]);
        if cmp != 0 {
          return FLASH_ERROR_VERIFY;
        }
      }
      return FLASH_ERROR_NONE;
    }

    /** One turn of the page loop of DRV_FLASH_Write. */
    method WriteNextPage(src: seq<Byte>, srcAddr: nat, at: nat, pos: nat, timesOut: bool, ghost before: seq<Byte>)
      returns (c: Chunk, ret: Error)
      requires Valid() && at + |src| <= cells.Length && pos < |src|
      requires |before| == cells.Length && cells[..] == Written(before, at, src[..pos])
      modifies this, cells
      ensures InPage(c) && c.At() == at + pos && pos + c.size <= |src|
      ensures pos + c.size < |src| ==> EndsPage(c)
      ensures cells[..] == Written(before, at, src[..pos + c.size])
      ensures trace == old(trace) + PageTrace(c.At(), c.size)
      ensures ret == if timesOut then FLASH_ERROR_TIMEOUT else FLASH_ERROR_NONE
    {
      c := NextChunk(at + pos, |src| - pos);
      NextBytes(before, at, src, pos, c.size);
      ret := WritePage(src[pos..pos + c.size], srcAddr + pos, at + pos, timesOut);
    }

    /** The page loop of DRV_FLASH_Write: page writes that follow on from each other,
        over the whole data or up to and including the first that times out. */
    method WritePages(src: seq<Byte>, srcAddr: nat, at: nat, slow: set<nat>)
      returns (ret: Error, ghost chunks: seq<Chunk>)
      requires Valid() && at + |src| <= cells.Length
      modifies this, cells
      ensures Consecutive(chunks, at) && Total(chunks) <= |src|
      ensures cells[..] == Written(old(cells[..]), at, src[..Total(chunks)])
      ensures trace == old(trace) + TraceOf(chunks)
      ensures ret == if LastIsSlow(chunks, slow) then FLASH_ERROR_TIMEOUT else FLASH_ERROR_NONE
      ensures LastIsSlow(chunks, slow) || Total(chunks) == |src|
      ensures forall page :: page in slow ==> page >= |chunks| - 1
    {
      ret, chunks := FLASH_ERROR_NONE, [];
      var pos, page := 0, 0;
      var c;
      ghost var before, told := cells[..], trace;
      WrittenNothing(before, at);
      while pos < |src|
        invariant 0 <= pos <= |src| && pos == Total(chunks) && page == |chunks|
        invariant ret == FLASH_ERROR_NONE && forall p :: p in slow ==> p >= page
        invariant cells[..] == Written(before, at, src[..pos])
        invariant trace == told + TraceOf(chunks)
        invariant Consecutive(chunks, at)
        invariant pos < |src| && chunks != [] ==> EndsPage(chunks[|chunks| - 1])
      {
        c, ret := WriteNextPage(src, srcAddr, at, pos, page in slow, before);
        TraceOneMore(told, chunks, c);
        ConsecutiveOneMore(chunks, at, c);
        chunks := chunks + [c];
        pos := pos + c.size;
        page := page + 1;
        if ret != FLASH_ERROR_NONE {
          return;
        }
      }
    }

    /** DRV_FLASH_Write. `srcAddr` and `dst` are addresses, `src` the bytes at the
        first; the page writes numbered in `slow` time out. What lands is the data
        from its start up to the end of the last page written, which is all of it
        unless a page write times out; a verification then compares all of it. */
    method Write(src: seq<Byte>, srcAddr: nat, dst: nat, doVerify: bool, slow: set<nat>)
      returns (ret: Error, ghost chunks: seq<Chunk>)
      requires Valid() && base + cells.Length < ADDRESS_SPACE && |src| + cells.Length < ADDRESS_SPACE
      modifies this, cells
      ensures srcAddr == 0 || dst == 0 <==> ret == FLASH_ERROR_PARAMETER
      ensures ret == FLASH_ERROR_ADDRESS_RANGE <==>
              srcAddr != 0 && dst != 0 && !(base <= dst && dst + |src| <= base + cells.Length)
      ensures ret == FLASH_ERROR_PARAMETER || ret == FLASH_ERROR_ADDRESS_RANGE ==>
              cells[..] == old(cells[..]) && trace == old(trace)
      ensures ret != FLASH_ERROR_PARAMETER && ret != FLASH_ERROR_ADDRESS_RANGE ==>
              base <= dst && dst - base + |src| <= cells.Length
      ensures ret != FLASH_ERROR_PARAMETER && ret != FLASH_ERROR_ADDRESS_RANGE ==>
              Accepted(old(cells[..]), cells[..], old(trace), trace, dst - base, src, doVerify, slow, ret, chunks)
    {
      chunks := [];
      if srcAddr == 0 || dst == 0 {
        return FLASH_ERROR_PARAMETER, chunks;
      }
      RangeCheck(base, cells.Length, dst, |src|);
      if !InRange(base, cells.Length, dst, |src|) {
        return FLASH_ERROR_ADDRESS_RANGE, chunks;
      }
      ret, chunks := WritePages(src, srcAddr, dst - base, slow);
      trace := trace + [Count(PAGE_SIZE)];
      if doVerify {
        var e := VerifyBuffer(src, dst - base);
        if e != FLASH_ERROR_NONE {
          ret := e;
        }
      }
    }
  }

  /** The last page write of the call timed out. */
  predicate LastIsSlow(chunks: seq<Chunk>, slow: set<nat>) {
    chunks != [] && |chunks| - 1 in slow
  }

  /** What an accepted DRV_FLASH_Write has done. Unless the verification fails it
      answers TIMEOUT exactly when a page write has timed out, which is then the last
      one, and it only stops short of the end of the data after such a page. */
  ghost predicate Accepted(before: seq<Byte>, after: seq<Byte>, told: seq<Event>, trace: seq<Event>, at: nat,
                           src: seq<Byte>, doVerify: bool, slow: set<nat>, ret: Error, chunks: seq<Chunk>)
    requires at + |src| <= |before| == |after|
  {
    && Consecutive(chunks, at) && Total(chunks) <= |src|
    && after == Written(before, at, src[..Total(chunks)])
    && trace == told + TraceOf(chunks) + [Count(PAGE_SIZE)]
    && (ret == FLASH_ERROR_VERIFY <==> doVerify && after[at..at + |src|] != src)
    && (ret != FLASH_ERROR_VERIFY ==> (ret == FLASH_ERROR_TIMEOUT <==> LastIsSlow(chunks, slow)))
    && (LastIsSlow(chunks, slow) || Total(chunks) == |src|)
    && (forall page :: page in slow ==> page >= |chunks| - 1)
    && (ret == FLASH_ERROR_NONE || ret == FLASH_ERROR_TIMEOUT || ret == FLASH_ERROR_VERIFY)
  }

  /** What a caller reads off: with no timeout, every byte of the data is ANDed into
      its cell, no other byte changes, and verification fails exactly when the data
      asks for a bit that was already clear. */
  lemma AcceptedWithoutTimeout(before: seq<Byte>, after: seq<Byte>, told: seq<Event>, trace: seq<Event>, at: nat,
                               src: seq<Byte>, doVerify: bool, ret: Error, chunks: seq<Chunk>, i: nat)
    requires at + |src| <= |before| == |after| && i < |before|
    requires Accepted(before, after, told, trace, at, src, doVerify, {}, ret, chunks)
    ensures after[i] == if at <= i < at + |src| then And(before[i], src[i - at]) else before[i]
    ensures ret == FLASH_ERROR_VERIFY <==>
            doVerify && !forall j :: 0 <= j < |src| ==> ClearsOnly(src[j], before[at + j])
    ensures ret == FLASH_ERROR_VERIFY || ret == FLASH_ERROR_NONE
  {
    assert src[..Total(chunks)] == src;
    WrittenCell(before, at, src, i);
    VerifySucceedsExactlyWhen(before, at, src);
  }

  /** The place, page by page, of the next page write. */
  method NextChunk(at: nat, len: nat) returns (c: Chunk)
    requires len > 0
    ensures c.At() == at && InPage(c) && c.size <= len && (c.size < len ==> EndsPage(c))
  {
    PlaceInPage(at, len);
    var size := PAGE_SIZE - at % PAGE_SIZE;
    if size > len {
      size := len;
    }
    c := Chunk(at / PAGE_SIZE, at % PAGE_SIZE, size);
  }

  lemma WordsIn(size: nat) returns (n: nat)
    ensures 4 * n <= size < 4 * n + 4
  {
    n := size / 4;
  }

  /** The whole words and the rest. */
  lemma FromBoundary(cells: seq<Byte>, told: seq<Event>, at: nat, data: seq<Byte>, n: nat)
    requires at + |data| <= |cells| && 4 * n <= |data|
    ensures Written(Written(cells, at, data[..4 * n]), at + 4 * n, data[4 * n..]) == Written(cells, at, data)
    ensures told + Words(at, at + 4 * n) + Words(at + 4 * n, at + |data|) == told + Words(at, at + |data|)
  {
    WrittenInParts(cells, at, data[..4 * n], data[4 * n..]);
    assert data[..4 * n] + data[4 * n..] == data;
    WordsInParts(at, n, at + |data|);
    Associative(told, Words(at, at + 4 * n), Words(at + 4 * n, at + |data|));
  }

  lemma NoWords(told: seq<Event>, at: nat)
    ensures told + Words(at, at) == told
  {}

  lemma NextWord(told: seq<Event>, at: nat, n: nat)
    ensures told + Words(at, at + 4 * n) + [Store(at + 4 * n)] == told + Words(at, at + 4 * (n + 1))
  {
    WordsInParts(at, n, at + 4 * (n + 1));
    OneWord(at + 4 * n, at + 4 * (n + 1));
  }

  /** The trace of a page write, put together from its parts. */
  lemma TraceInParts(told: seq<Event>, at: nat, size: nat)
    requires 0 < size
    ensures var p := PrefixBytes(at, size);
            var words := Words(FirstWord(at), at + size);
            told + [Count(4 * |words|)] + Words(FirstWord(at), at + p) + Words(at + p, at + size)
              == told + PageTrace(at, size)
    ensures PrefixBytes(at, size) < size ==> (at + PrefixBytes(at, size)) % 4 == 0
  {
    PrefixThenRest(at, size);
  }
}
