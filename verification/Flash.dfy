/** Writing the serial flash (DRV_FLASH.c).

    A store can only clear bits of the flash, and it always covers an aligned 32-bit
    word, so data that starts or ends inside a word is padded. Memory is little
    endian; a word is its four bytes in address order. A byte is eight bits, the
    least significant first. */
module Flash {
  import opened Common

  type Byte = b: seq<bool> | |b| == 8 witness seq(8, _ => false)

  const PAGE_SIZE: int := 0x100
  const ADDRESS_SPACE: int := 0x1_0000_0000

  datatype Error = FLASH_ERROR_NONE | FLASH_ERROR_TIMEOUT | FLASH_ERROR_VERIFY
                 | FLASH_ERROR_ADDRESS_RANGE | FLASH_ERROR_PARAMETER

  function And(a: Byte, b: Byte): Byte {
    seq(8, i requires 0 <= i < 8 => a[i] && b[i])
  }

  const ALL_ONES: Byte := seq(8, _ => true)

  /** No bit is one in `s` and zero in `cell`: C's `s & ~cell` is zero. */
  predicate ClearsOnly(s: Byte, cell: Byte) {
    forall k :: 0 <= k < 8 ==> s[k] ==> cell[k]
  }

  // ----- What a write does to the memory

  /** What a run of byte writes leaves: the flash ANDs each one into its cell. */
  function Written(cells: seq<Byte>, at: nat, data: seq<Byte>): (r: seq<Byte>)
    requires at + |data| <= |cells|
    ensures |r| == |cells|
    decreases |data|
  {
    if data == [] then cells else Written(cells[at := And(cells[at], data[0])], at + 1, data[1..])
  }

  /** Cell by cell: every cell written to keeps the bits it shares with its byte, and
      no other cell changes. */
  lemma {:induction false} WrittenCell(cells: seq<Byte>, at: nat, data: seq<Byte>, i: nat)
    requires at + |data| <= |cells| && i < |cells|
    ensures Written(cells, at, data)[i]
         == if at <= i < at + |data| then And(cells[i], data[i - at]) else cells[i]
    decreases |data|
  {
    if data != [] {
      WrittenCell(cells[at := And(cells[at], data[0])], at + 1, data[1..], i);
    }
  }

  lemma WrittenNothing(cells: seq<Byte>, at: nat)
    requires at <= |cells|
    ensures Written(cells, at, []) == cells
  {}

  /** Writing in two parts is writing the whole. */
  lemma {:induction false} WrittenInParts(cells: seq<Byte>, at: nat, a: seq<Byte>, b: seq<Byte>)
    requires at + |a| + |b| <= |cells|
    ensures Written(Written(cells, at, a), at + |a|, b) == Written(cells, at, a + b)
    decreases |a|
  {
    if a == [] {
      assert a + b == b;
    } else {
      assert (a + b)[1..] == a[1..] + b;
      WrittenInParts(cells[at := And(cells[at], a[0])], at + 1, a[1..], b);
    }
  }

  /** What sf_memcpy leaves in its destination. */
  function Copied(dst: seq<Byte>, at: nat, data: seq<Byte>, doAnd: bool): (r: seq<Byte>)
    requires at + |data| <= |dst|
    ensures |r| == |dst|
  {
    if doAnd then Written(dst, at, data) else dst[..at] + data + dst[at + |data|..]
  }

  lemma AndFacts(cell: Byte, s: Byte)
    ensures And(cell, cell) == cell
    ensures And(cell, ALL_ONES) == cell
    ensures And(cell, And(cell, s)) == And(cell, s)
    ensures And(And(cell, s), s) == And(cell, s)
  {}

  /** A word put together from the old contents, or from ones, and part of the data
      clears exactly the bits the data clears. */
  lemma PaddedWord(cells: seq<Byte>, at: nat, from: nat, data: seq<Byte>, pad: seq<Byte>, doAnd: bool)
    requires at + 4 <= |cells| && from + |data| <= 4 == |pad|
    requires pad == cells[at..at + 4] || (pad == [ALL_ONES, ALL_ONES, ALL_ONES, ALL_ONES] && !doAnd)
    ensures Written(cells, at, Copied(pad, from, data, doAnd)) == Written(cells, at + from, data)
  {
    var l, r := Written(cells, at, Copied(pad, from, data, doAnd)), Written(cells, at + from, data);
    forall i | 0 <= i < |cells|
      ensures l[i] == r[i]
    {
      WrittenCell(cells, at, Copied(pad, from, data, doAnd), i);
      WrittenCell(cells, at + from, data, i);
      if at <= i < at + 4 {
        PaddedByte(cells, at, from, data, pad, doAnd, i - at);
      }
    }
  }

  lemma PaddedByte(cells: seq<Byte>, at: nat, from: nat, data: seq<Byte>, pad: seq<Byte>, doAnd: bool, j: nat)
    requires at + 4 <= |cells| && from + |data| <= 4 == |pad| && j < 4
    requires pad[j] == cells[at + j] || (pad[j] == ALL_ONES && !doAnd)
    ensures And(cells[at + j], Copied(pad, from, data, doAnd)[j])
         == if from <= j < from + |data| then And(cells[at + j], data[j - from]) else cells[at + j]
  {
    if doAnd {
      WrittenCell(pad, from, data, j);
    }
    if from <= j < from + |data| {
      AndFacts(cells[at + j], data[j - from]);
    } else {
      AndFacts(cells[at + j], ALL_ONES);
    }
  }

  // ----- What a write shows to the controller

  /** Writes to the controller: its count register, and the words of the flash. */
  datatype Event = Count(bytes: nat) | Store(at: nat)

  function FirstWord(at: nat): nat {
    at - at % 4
  }

  /** Stores to the words from `first` on that begin before `end`. */
  function Words(first: nat, end: nat): seq<Event>
    decreases end - first
  {
    if end <= first then [] else [Store(first)] + Words(first + 4, end)
  }

  lemma {:induction false} WordsInParts(first: nat, n: nat, end: nat)
    requires first + 4 * n <= end
    ensures Words(first, first + 4 * n) + Words(first + 4 * n, end) == Words(first, end)
    decreases n
  {
    var mid := first + 4 * n;
    if n > 0 {
      WordsInParts(first + 4, n - 1, end);
      assert Words(first, mid) + Words(mid, end) == [Store(first)] + (Words(first + 4, mid) + Words(mid, end));
    } else {
      assert [] + Words(first, end) == Words(first, end);
    }
  }

  lemma OneWord(at: nat, end: nat)
    requires at < end <= at + 4
    ensures Words(at, end) == [Store(at)]
  {}

  lemma {:induction false} WordsNumber(first: nat, end: nat)
    requires first <= end
    ensures 4 * |Words(first, end)| < end - first + 4 && end - first <= 4 * |Words(first, end)|
    decreases end - first
  {
    if first < end && first + 4 <= end {
      WordsNumber(first + 4, end);
    } else if first < end {
      OneWord(first, end);
    }
  }

  lemma {:induction false} WordsRange(first: nat, end: nat, e: Event)
    requires e in Words(first, end)
    ensures e.Store? && first <= e.at < end && e.at % 4 == first % 4
    decreases end - first
  {
    if e != Store(first) {
      WordsRange(first + 4, end, e);
    }
  }

  /** A page write tells the count register four bytes for every word it then stores,
      and stores every word its bytes touch. */
  function PageTrace(at: nat, size: nat): seq<Event> {
    var words := Words(FirstWord(at), at + size);
    [Count(4 * |words|)] + words
  }

  lemma {:induction false} WordsCover(first: nat, end: nat, i: nat)
    requires first % 4 == 0 && first <= i < end
    ensures Store(i - i % 4) in Words(first, end)
    decreases end - first
  {
    if i >= first + 4 {
      WordsCover(first + 4, end, i);
    } else {
      assert i - i % 4 == first;
    }
  }

  /** Every word that holds one of the bytes is stored, no other is, and none twice. */
  lemma WordsStoredExactlyWhen(at: nat, size: nat, w: nat)
    requires size > 0
    ensures Store(w) in PageTrace(at, size) <==> w % 4 == 0 && exists i :: at <= i < at + size && w == i - i % 4
    ensures 4 * (|PageTrace(at, size)| - 1) < size + at % 4 + 4
  {
    var first, end := FirstWord(at), at + size;
    WordsNumber(first, end);
    if Store(w) in PageTrace(at, size) {
      WordsRange(first, end, Store(w));
      var i := if w < at then at else w;
      assert at <= i < end && w == i - i % 4;
    }
    if w % 4 == 0 && exists i :: at <= i < end && w == i - i % 4 {
      var i :| at <= i < end && w == i - i % 4;
      WordsCover(first, end, i);
    }
  }

  /** What the driver computes for the count register. */
  lemma CountIsFourPerStore(at: nat, size: nat)
    ensures (size + at % 4 + 3) / 4 * 4 == 4 * |Words(FirstWord(at), at + size)|
  {
    WordsNumber(FirstWord(at), at + size);
  }

  /** Bytes of a page write before the first word boundary. */
  function PrefixBytes(at: nat, size: nat): nat {
    if at % 4 == 0 then 0 else if size < 4 - at % 4 then size else 4 - at % 4
  }

  /** The stores from the boundary on follow that of the prefix. */
  lemma PrefixThenRest(at: nat, size: nat)
    requires 0 < size
    ensures var p := PrefixBytes(at, size);
            && Words(FirstWord(at), at + p) + Words(at + p, at + size) == Words(FirstWord(at), at + size)
            && (p == 0 ==> Words(FirstWord(at), at + p) == [])
            && (p > 0 ==> Words(FirstWord(at), at + p) == [Store(FirstWord(at))])
  {
    var p := PrefixBytes(at, size);
    if p == size && p > 0 {
      OneWord(FirstWord(at), at + p);
    } else {
      if p > 0 {
        OneWord(FirstWord(at), at + p);
      }
      WordsInParts(FirstWord(at), if p > 0 then 1 else 0, at + size);
    }
  }

  /** The word around a byte of the partition lies in the partition. */
  lemma WordInPartition(pages: nat, at: nat)
    requires at < PAGE_SIZE * pages
    ensures FirstWord(at) + 4 <= PAGE_SIZE * pages
  {
    var q := at / 4;
    assert FirstWord(at) == 4 * q && q < 64 * pages;
  }

  /** One page write: the page, the place in it, and how many bytes. */
  datatype Chunk = Chunk(page: nat, offset: nat, size: nat) {
    function At(): nat {
      PAGE_SIZE * page + offset
    }
  }

  predicate InPage(c: Chunk) {
    0 < c.size && c.offset + c.size <= PAGE_SIZE
  }

  predicate EndsPage(c: Chunk) {
    c.offset + c.size == PAGE_SIZE
  }

  /** All stores of a page write stay in the page, and their number fits the count
      register. */
  lemma StoresStayInPage(c: Chunk, e: Event)
    requires InPage(c) && e in PageTrace(c.At(), c.size)
    ensures e.Count? ==> e.bytes <= PAGE_SIZE
    ensures e.Store? ==> PAGE_SIZE * c.page <= e.at && e.at + 4 <= PAGE_SIZE * (c.page + 1)
    ensures e.Store? ==> e.at % 4 == 0
  {
    var w := WordInPage(c);
    var first, end := 4 * w, c.At() + c.size;
    WordsNumber(first, end);
    if e.Store? {
      WordsRange(first, end, e);
      WholeWord(e.at, 64 * (c.page + 1));
    } else {
      assert e == Count(4 * |Words(first, end)|) by {
        NoCountInWords(first, end, e);
      }
      FullPage(|Words(first, end)|);
    }
  }

  lemma NoCountInWords(first: nat, end: nat, e: Event)
    requires e.Count?
    ensures e !in Words(first, end)
  {
    if e in Words(first, end) {
      WordsRange(first, end, e);
    }
  }

  lemma FullPage(n: nat)
    requires 4 * n < PAGE_SIZE + 4
    ensures 4 * n <= PAGE_SIZE
  {}

  lemma WordInPage(c: Chunk) returns (w: nat)
    ensures FirstWord(c.At()) == 4 * w && 64 * c.page <= w && 4 * w % 4 == 0
  {
    w := 64 * c.page + c.offset / 4;
  }

  lemma WholeWord(a: nat, words: nat)
    requires a % 4 == 0 && a < 4 * words
    ensures a + 4 <= 4 * words
  {}

  function Total(chunks: seq<Chunk>): nat {
    if chunks == [] then 0 else Total(chunks[..|chunks| - 1]) + chunks[|chunks| - 1].size
  }

  function TraceOf(chunks: seq<Chunk>): seq<Event> {
    if chunks == [] then []
    else TraceOf(chunks[..|chunks| - 1]) + PageTrace(chunks[|chunks| - 1].At(), chunks[|chunks| - 1].size)
  }

  /** Page writes that follow on from each other from `at` on, each inside one page,
      all but the last up to the end of theirs. */
  predicate Consecutive(chunks: seq<Chunk>, at: nat)
    decreases |chunks|
  {
    chunks == [] ||
    (var before, c := chunks[..|chunks| - 1], chunks[|chunks| - 1];
     && Consecutive(before, at) && InPage(c) && c.At() == at + Total(before)
     && (before != [] ==> EndsPage(before[|before| - 1])))
  }

  lemma PlaceInPage(at: nat, len: nat)
    requires len > 0
    ensures var room := PAGE_SIZE - at % PAGE_SIZE;
            var c := Chunk(at / PAGE_SIZE, at % PAGE_SIZE, if room > len then len else room);
            c.At() == at && InPage(c) && (c.size < len ==> EndsPage(c))
  {}

  lemma TraceOneMore(told: seq<Event>, chunks: seq<Chunk>, c: Chunk)
    ensures told + TraceOf(chunks) + PageTrace(c.At(), c.size) == told + TraceOf(chunks + [c])
  {
    assert (chunks + [c])[..|chunks|] == chunks;
    Associative(told, TraceOf(chunks), PageTrace(c.At(), c.size));
  }

  lemma ConsecutiveOneMore(chunks: seq<Chunk>, at: nat, c: Chunk)
    requires Consecutive(chunks, at) && InPage(c) && c.At() == at + Total(chunks)
    requires chunks != [] ==> EndsPage(chunks[|chunks| - 1])
    ensures Consecutive(chunks + [c], at) && Total(chunks + [c]) == Total(chunks) + c.size
  {
    assert (chunks + [c])[..|chunks|] == chunks;
  }

  lemma NextBytes(cells: seq<Byte>, at: nat, src: seq<Byte>, pos: nat, size: nat)
    requires pos + size <= |src| && at + |src| <= |cells|
    ensures Written(Written(cells, at, src[..pos]), at + pos, src[pos..pos + size])
         == Written(cells, at, src[..pos + size])
  {
    WrittenInParts(cells, at, src[..pos], src[pos..pos + size]);
    assert src[..pos] + src[pos..pos + size] == src[..pos + size];
  }

  /** validate_addr_range, in 32-bit arithmetic. */
  predicate InRange(base: nat, size: nat, a: nat, len: nat) {
    base <= a <= base + size && base <= (a + len) % ADDRESS_SPACE <= base + size
  }

  /** The check is the intended one as long as the length leaves room for the
      partition in the address space. */
  lemma RangeCheck(base: nat, size: nat, a: nat, len: nat)
    requires base + size < ADDRESS_SPACE && len + size < ADDRESS_SPACE
    ensures InRange(base, size, a, len) <==> base <= a && a + len <= base + size
  {
    if a + len >= ADDRESS_SPACE && base <= a <= base + size {
      assert (a + len) % ADDRESS_SPACE == a + len - ADDRESS_SPACE < base;
    }
  }

  /** A length that wraps passes the check: all but `size` bytes of the address
      space, from the end of the partition. */
  lemma RangeCheckWraps(base: nat, size: nat)
    requires 0 < size && base + size < ADDRESS_SPACE
    ensures InRange(base, size, base + size, ADDRESS_SPACE - size)
  {}

  /** The check lets exactly the ranges inside the partition pass, wherever they are
      asked for, if and only if the length leaves that room. */
  lemma RangeCheckIsRightExactlyWhen(base: nat, size: nat, len: nat)
    requires 0 < size && base + size < ADDRESS_SPACE && len < ADDRESS_SPACE
    ensures (forall a: nat :: a < ADDRESS_SPACE ==>
               (InRange(base, size, a, len) <==> base <= a && a + len <= base + size)) <==>
            len + size < ADDRESS_SPACE
  {
    if len + size < ADDRESS_SPACE {
      forall a: nat | a < ADDRESS_SPACE
        ensures InRange(base, size, a, len) <==> base <= a && a + len <= base + size
      {
        RangeCheck(base, size, a, len);
      }
    } else {
      LongRangePasses(base, size, len);
    }
  }

  /** Any longer length passes at the end of the partition. */
  lemma LongRangePasses(base: nat, size: nat, len: nat)
    requires 0 < size && base + size < ADDRESS_SPACE && ADDRESS_SPACE - size <= len < ADDRESS_SPACE
    ensures InRange(base, size, base + size, len)
  {
    assert (base + size + len) % ADDRESS_SPACE == base + size + len - ADDRESS_SPACE;
  }

  lemma VerifyByte(cell: Byte, s: Byte)
    ensures And(cell, s) == s <==> ClearsOnly(s, cell)
  {
    if And(cell, s) == s {
      forall k | 0 <= k < 8
        ensures s[k] ==> cell[k]
      {
        assert And(cell, s)[k] == s[k];
      }
    }
  }

  /** Read back after writing, the data is there exactly when it asks for no bit to
      be set that was clear. */
  lemma VerifySucceedsExactlyWhen(cells: seq<Byte>, at: nat, data: seq<Byte>)
    requires at + |data| <= |cells|
    ensures Written(cells, at, data)[at..at + |data|] == data <==>
            forall i :: 0 <= i < |data| ==> ClearsOnly(data[i], cells[at + i])
  {
    var r := Written(cells, at, data)[at..at + |data|];
    forall i | 0 <= i < |data|
      ensures r[i] == data[i] <==> ClearsOnly(data[i], cells[at + i])
    {
      WrittenCell(cells, at, data, at + i);
      VerifyByte(cells[at + i], data[i]);
    }
  }

  /** Writing the same data twice changes nothing more. */
  lemma WritingIsIdempotent(cells: seq<Byte>, at: nat, data: seq<Byte>)
    requires at + |data| <= |cells|
    ensures Written(Written(cells, at, data), at, data) == Written(cells, at, data)
  {
    var once := Written(cells, at, data);
    forall i | 0 <= i < |cells|
      ensures Written(once, at, data)[i] == once[i]
    {
      WrittenCell(cells, at, data, i);
      WrittenCell(once, at, data, i);
      if at <= i < at + |data| {
        AndFacts(cells[i], data[i - at]);
      }
    }
  }
}
