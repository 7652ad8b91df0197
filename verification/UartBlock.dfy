/** Where DRV_UART_Receive_Block (DRV_UART.c) stores what it receives.

    It takes what the ring buffer has and then reads words until the length is reached.
    The words are stored from the start of the buffer on, over the bytes that came from
    the ring buffer. */
module UartBlock {
  import opened UartRx

  /** The user's buffer afterwards: `old` with the bytes of the ring buffer at its start,
      and over them the bytes read. */
  function Stored(before: seq<Byte>, fromRing: seq<Byte>, later: seq<Byte>): (r: seq<Byte>)
    requires |fromRing| + |later| <= |before|
    ensures |r| == |before|
  {
    later + (fromRing + before[|fromRing|..])[|later|..]
  }

  /** The bytes of the ring buffer are copied, then words are read until `length` bytes
      are there; a word with an error does not count. */
  method Receive(buffer: array<Byte>, length: nat, fromRing: seq<Byte>, words: seq<Word>) returns (read: nat)
    requires |fromRing| <= length <= buffer.Length && |Bytes(words)| >= length - |fromRing|
    modifies buffer
    ensures read <= |words| && |Bytes(words[..read])| == length - |fromRing|
    ensures buffer[..] == Stored(old(buffer[..]), fromRing, Bytes(words[..read]))
  {
    CopyIn(buffer, fromRing);
    read := ReadOver(buffer, length - |fromRing|, words);
  }

  /** Stores a byte behind those stored so far. */
  method StoreNext(buffer: array<Byte>, ghost before: seq<Byte>, ghost sofar: seq<Byte>, i: nat, b: Byte)
    requires i == |sofar| < |before| && buffer[..] == sofar + before[i..]
    modifies buffer
    ensures buffer[..] == sofar + [b] + before[i + 1..]
  {
    buffer[i] := b;
  }

  method CopyIn(buffer: array<Byte>, data: seq<Byte>)
    requires |data| <= buffer.Length
    modifies buffer
    ensures buffer[..] == data + old(buffer[..])[|data|..]
  {
    ghost var before := buffer[..];
    assert [] + before == before;
    for j := 0 to |data|
      invariant buffer[..] == data[..j] + before[j..]
    {
      assert data[..j] + [data[j]] == data[..j + 1];
      StoreNext(buffer, before, data[..j], j, data[j]);
    }
    assert data[..|data|] == data;
  }

  method ReadOver(buffer: array<Byte>, n: nat, words: seq<Word>) returns (read: nat)
    requires n <= buffer.Length && |Bytes(words)| >= n
    modifies buffer
    ensures read <= |words| && |Bytes(words[..read])| == n
    ensures buffer[..] == Bytes(words[..read]) + old(buffer[..])[n..]
  {
    hide Bytes;
    ghost var before := buffer[..];
    assert [] + before == before;
    var i: nat := 0;
    read := 0;
    NothingRead(words);
    while i < n
      invariant read <= |words| && i == |Bytes(words[..read])| <= n
      invariant buffer[..] == Bytes(words[..read]) + before[i..]
      decreases |words| - read
    {
      i := TakeWord(buffer, before, words, read, i);
      read := read + 1;
    }
  }

  /** One word: stored if it counts. */
  method TakeWord(buffer: array<Byte>, ghost before: seq<Byte>, words: seq<Word>, r: nat, i: nat) returns (j: nat)
    requires r <= |words| && i == |Bytes(words[..r])| < |before| && i < |Bytes(words)|
    requires buffer[..] == Bytes(words[..r]) + before[i..]
    modifies buffer
    ensures r < |words| && i <= j <= i + 1 && j == |Bytes(words[..r + 1])|
    ensures buffer[..] == Bytes(words[..r + 1]) + before[j..]
  {
    hide Bytes, Kept;
    OneMoreWord(words, r);
    j := i;
    if Kept(words[r]) {
      StoreNext(buffer, before, Bytes(words[..r]), i, words[r].data);
      j := i + 1;
    } else {
      assert Bytes(words[..r]) + [] == Bytes(words[..r]);
    }
  }

  lemma NothingRead(words: seq<Word>)
    ensures Bytes(words[..0]) == []
  {}

  lemma OneMoreWord(words: seq<Word>, r: nat)
    requires r <= |words| && |Bytes(words[..r])| < |Bytes(words)|
    ensures r < |words|
    ensures Bytes(words[..r + 1]) == Bytes(words[..r]) + (if Kept(words[r]) then [words[r].data] else [])
  {
    assert words[..|words|] == words;
    assert words[..r + 1] == words[..r] + [words[r]];
    BytesOfParts(words[..r], [words[r]]);
  }

  /** Whether the buffer holds the stream in order, whatever the bytes are. */
  ghost predicate InOrder(c: nat, length: nat) {
    forall before: seq<Byte>, fromRing: seq<Byte>, later: seq<Byte> |
      |before| >= length && |fromRing| == c && |later| == length - c ::
      Stored(before, fromRing, later)[..length] == fromRing + later
  }

  /** The call is a FIFO read exactly when the ring buffer holds nothing or everything
      that is asked for. */
  lemma InOrderExactlyWhen(c: nat, length: nat)
    requires c <= length
    ensures InOrder(c, length) <==> c == 0 || c == length
  {
    if c != 0 && c != length {
      var fromRing, later := seq(c, _ => 1), seq(length - c, _ => 0);
      var before: seq<Byte> := seq(length, _ => 0);
      assert Stored(before, fromRing, later)[..length][0] == 0 != (fromRing + later)[0];
    } else {
      forall before: seq<Byte>, fromRing: seq<Byte>, later: seq<Byte> |
        |before| >= length && |fromRing| == c && |later| == length - c
        ensures Stored(before, fromRing, later)[..length] == fromRing + later
      {
        assert c == 0 ==> fromRing == [];
        assert c == length ==> later == [];
      }
    }
  }
}
