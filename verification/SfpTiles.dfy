/** Buffers tiled by log entries that say their own size (sfpdb.c, sfplogger.h).

    The first byte of an entry names its type; a byte is an unsigned char. A filler marks
    room that holds no entry. */
module SfpTiles {
  import opened Common

  type Byte = b: int | 0 <= b < 256

  const SFPLOG_ENTRY_SIZE: nat := 20
  const SFPLOG_EXTENDED_ENTRY_SIZE: nat := 24
  const SFPLOG_STRING_ENTRYHEADER_SIZE: nat := 6
  const SFPLOG_COMPLEX_STRING_ENTRYHEADER_SIZE_PLUS_NULL_TERM: nat := 12
  const SFPLOG_EMPTY_FILLER_MIN_SIZE: nat := 2

  /** The longest entry there is: a complex string of 255 bytes. */
  const LONGEST_ENTRY: nat := 267

  /** A filler has 0xE in its four high bits. */
  predicate IsFiller(b0: Byte) {
    0xE0 <= b0 < 0xF0
  }

  /** The size that the first two bytes of an entry give. */
  function Size(b0: Byte, b1: Byte): nat {
    if b0 < 0x80 then SFPLOG_ENTRY_SIZE
    else if b0 < 0xC0 then SFPLOG_EXTENDED_ENTRY_SIZE
    else if b0 < 0xE0 then b1 + SFPLOG_STRING_ENTRYHEADER_SIZE
    else if b0 < 0xF0 then (b0 - 0xE0) * 256 + b1
    else b1 + SFPLOG_COMPLEX_STRING_ENTRYHEADER_SIZE_PLUS_NULL_TERM
  }

  /** The size by the masks of sfpdb.c, tested in its order: each mask keeps the high bits
      of the first byte. The last case is all that is left. */
  lemma SizeByMasks(b0: Byte, b1: Byte)
    ensures Size(b0, b1) ==
            if b0 / 0x10 == 0xE then b0 % 0x10 * 256 + b1
            else if b0 / 0x80 == 0 then SFPLOG_ENTRY_SIZE
            else if b0 / 0x40 == 2 then SFPLOG_EXTENDED_ENTRY_SIZE
            else if b0 / 0x20 == 6 then b1 + SFPLOG_STRING_ENTRYHEADER_SIZE
            else b1 + SFPLOG_COMPLEX_STRING_ENTRYHEADER_SIZE_PLUS_NULL_TERM
    ensures b0 / 0x10 == 0xE || b0 / 0x80 == 0 || b0 / 0x40 == 2 || b0 / 0x20 == 6 || b0 / 0x10 == 0xF
    ensures IsFiller(b0) <==> b0 / 0x10 == 0xE
    ensures !IsFiller(b0) ==> 2 <= Size(b0, b1) <= LONGEST_ENTRY
  {}

  function SizeAt(b: seq<Byte>, i: nat): nat
    requires i + 1 < |b|
  {
    Size(b[i], b[i + 1])
  }

  /** From `i` to `j`, the buffer is exactly covered by entries. */
  predicate Tiled(b: seq<Byte>, i: nat, j: nat)
    decreases j - i
  {
    i == j ||
    (&& i + 2 <= j <= |b|
     && 2 <= SizeAt(b, i) && i + SizeAt(b, i) <= j
     && Tiled(b, i + SizeAt(b, i), j))
  }

  /** And none of them is longer than the longest entry. */
  predicate Small(b: seq<Byte>, i: nat, j: nat)
    requires Tiled(b, i, j)
    decreases j - i
  {
    i == j || (SizeAt(b, i) <= LONGEST_ENTRY && Small(b, i + SizeAt(b, i), j))
  }

  /** The entries from `i` to `j`, fillers left out. */
  function Entries(b: seq<Byte>, i: nat, j: nat): seq<seq<Byte>>
    requires Tiled(b, i, j)
    decreases j - i
  {
    if i == j then [] else
    var next := i + SizeAt(b, i);
    (if IsFiller(b[i]) then [] else [b[i..next]]) + Entries(b, next, j)
  }

  lemma {:induction false} TilesJoin(b: seq<Byte>, i: nat, j: nat, k: nat)
    requires Tiled(b, i, j) && Tiled(b, j, k) && i <= j <= k <= |b|
    ensures Tiled(b, i, k) && Entries(b, i, k) == Entries(b, i, j) + Entries(b, j, k)
    ensures Small(b, i, j) && Small(b, j, k) ==> Small(b, i, k)
    decreases j - i
  {
    if i == j {
      assert [] + Entries(b, j, k) == Entries(b, j, k);
    } else {
      var s := i + SizeAt(b, i);
      TilesJoin(b, s, j, k);
      Associative(if IsFiller(b[i]) then [] else [b[i..s]], Entries(b, s, j), Entries(b, j, k));
    }
  }

  /** Entries depend on their own bytes alone. */
  lemma {:induction false} TilesAreLocal(b: seq<Byte>, c: seq<Byte>, i: nat, j: nat)
    requires Tiled(b, i, j) && i <= j <= |b| && j <= |c| && b[i..j] == c[i..j]
    ensures Tiled(c, i, j) && Entries(c, i, j) == Entries(b, i, j)
    ensures Small(b, i, j) ==> Small(c, i, j)
    decreases j - i
  {
    if i < j {
      var next := i + SizeAt(b, i);
      SameSize(b, c, i, j);
      SameSlices(b, c, i, j, next);
      TilesAreLocal(b, c, next, j);
      FirstTile(b, i, j, next);
      FirstTile(c, i, j, next);
    }
  }

  lemma FirstTile(b: seq<Byte>, i: nat, j: nat, next: nat)
    requires i + 2 <= next <= j <= |b| && next == i + SizeAt(b, i) && Tiled(b, next, j)
    ensures Tiled(b, i, j)
    ensures Entries(b, i, j) == (if IsFiller(b[i]) then [] else [b[i..next]]) + Entries(b, next, j)
    ensures Small(b, i, j) <==> SizeAt(b, i) <= LONGEST_ENTRY && Small(b, next, j)
  {}

  lemma SameSize(b: seq<Byte>, c: seq<Byte>, i: nat, j: nat)
    requires i + 2 <= j <= |b| && j <= |c| && b[i..j] == c[i..j]
    ensures SizeAt(b, i) == SizeAt(c, i) && b[i] == c[i]
  {
    assert b[i] == b[i..j][0] && b[i + 1] == b[i..j][1];
    assert c[i] == c[i..j][0] && c[i + 1] == c[i..j][1];
  }

  lemma SameSlices(b: seq<Byte>, c: seq<Byte>, i: nat, j: nat, k: nat)
    requires i <= k <= j <= |b| && j <= |c| && b[i..j] == c[i..j]
    ensures b[i..k] == c[i..k] && b[k..j] == c[k..j]
  {
    assert b[i..k] == b[i..j][..k - i] && c[i..k] == c[i..j][..k - i];
    assert b[k..j] == b[i..j][k - i..] && c[k..j] == c[i..j][k - i..];
  }

  lemma OneTile(b: seq<Byte>, i: nat, j: nat)
    requires i + 2 <= j <= |b| && SizeAt(b, i) == j - i
    ensures Tiled(b, i, j) && Entries(b, i, j) == if IsFiller(b[i]) then [] else [b[i..j]]
    ensures Small(b, i, j) <==> j - i <= LONGEST_ENTRY
  {}

  /** No entry is one byte long. */
  lemma NotOneApart(b: seq<Byte>, i: nat)
    ensures !Tiled(b, i, i + 1)
  {}

  /** A zeroed buffer is tiled by regular entries if its size allows. */
  lemma {:induction false} ZeroesAreTiled(b: seq<Byte>, i: nat, n: nat)
    requires i + SFPLOG_ENTRY_SIZE * n <= |b| && forall k :: i <= k < i + SFPLOG_ENTRY_SIZE * n ==> b[k] == 0
    ensures var j := i + SFPLOG_ENTRY_SIZE * n; Tiled(b, i, j) && Small(b, i, j)
    decreases n
  {
    if n > 0 {
      ZeroesAreTiled(b, i + SFPLOG_ENTRY_SIZE, n - 1);
    }
  }
}
