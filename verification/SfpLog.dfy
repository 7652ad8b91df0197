/** Appending to the circular log (sfpdb_get_next_entry in sfpdb.c, and the copy that its
    callers in sfplogger.c make). */
module SfpLog {
  import opened Common
  import opened SfpTiles

  /** The buffer and the place of the next entry. */
  datatype Log = Log(buf: seq<Byte>, delta: nat)

  /** An entry as the callers build it: its header gives its size, and it is no filler. */
  predicate IsEntry(entry: seq<Byte>) {
    2 <= |entry| <= LONGEST_ENTRY && !IsFiller(entry[0]) && Size(entry[0], entry[1]) == |entry|
  }

  /** The buffer with `data` copied to it. */
  function Overwritten(b: seq<Byte>, at: nat, data: seq<Byte>): (r: seq<Byte>)
    requires at + |data| <= |b|
    ensures |r| == |b|
    decreases |data|
  {
    if data == [] then b else Overwritten(b[at := data[0]], at + 1, data[1..])
  }

  /** A filler header of `size` bytes at `at`, in the twelve bits there are for it. */
  function Mark(b: seq<Byte>, at: nat, size: nat): (r: seq<Byte>)
    requires at + 1 < |b|
    ensures |r| == |b|
  {
    b[at := 0xE0 + size / 256 % 16][at + 1 := size % 256]
  }

  /** An entry that does not fit before the end goes to the start, behind a filler. */
  function Start(l: Log, e: nat): (seq<Byte>, nat)
    requires l.delta <= |l.buf|
  {
    if l.delta + e > |l.buf| then
      (if |l.buf| - l.delta >= SFPLOG_EMPTY_FILLER_MIN_SIZE then Mark(l.buf, l.delta, |l.buf| - l.delta) else l.buf, 0)
    else (l.buf, l.delta)
  }

  /** Enough room is cleared when the entry fits exactly or leaves room for a filler. */
  predicate Enough(c: nat, e: nat) {
    c == e || c >= e + SFPLOG_EMPTY_FILLER_MIN_SIZE
  }

  /** The entries cleared from `pos` on, `c` bytes so far, or None when the search for
      room runs off the end of the buffer. */
  function Room(b: seq<Byte>, pos: nat, c: nat, e: nat): Option<nat>
    requires pos + c <= |b| && Tiled(b, pos + c, |b|)
    decreases |b| - (pos + c)
  {
    if Enough(c, e) then Some(c)
    else if pos + c == |b| then None
    else Room(b, pos, c + SizeAt(b, pos + c), e)
  }

  /** The buffer with the entry in place of the `c` bytes cleared, and a filler over what
      is left of them. */
  function Placed(b: seq<Byte>, pos: nat, c: nat, entry: seq<Byte>): seq<Byte>
    requires pos + c <= |b| && Enough(c, |entry|)
  {
    Overwritten(if c != |entry| then Mark(b, pos + |entry|, c - |entry|) else b, pos, entry)
  }

  // ----- The search for room

  /** The search runs off the buffer exactly when the entry would end one byte before its
      end. */
  lemma {:induction false} RoomRunsOffExactlyWhen(b: seq<Byte>, pos: nat, c: nat, e: nat)
    requires pos + c <= |b| && Tiled(b, pos + c, |b|) && pos + e <= |b|
    ensures Room(b, pos, c, e) == None <==> pos + e + 1 == |b|
    decreases |b| - (pos + c)
  {
    if Enough(c, e) {
      if c == e {
        NotOneApart(b, pos + c);
      }
    } else if pos + c < |b| {
      RoomRunsOffExactlyWhen(b, pos, c + SizeAt(b, pos + c), e);
    }
  }

  /** The room found ends with an entry, is enough, and is not more than the last entry
      makes it. */
  lemma {:induction false} RoomFound(b: seq<Byte>, pos: nat, c: nat, e: nat)
    requires pos + c <= |b| && Tiled(b, pos + c, |b|) && Room(b, pos, c, e).Some?
    ensures var r := Room(b, pos, c, e).value;
            && c <= r && pos + r <= |b| && Enough(r, e)
            && Tiled(b, pos + c, pos + r) && Tiled(b, pos + r, |b|)
            && (Small(b, pos + c, |b|) ==> Small(b, pos + r, |b|))
            && (c <= e + 1 + LONGEST_ENTRY && Small(b, pos + c, |b|) ==> r <= e + 1 + LONGEST_ENTRY)
    decreases |b| - (pos + c)
  {
    if !Enough(c, e) {
      RoomFound(b, pos, c + SizeAt(b, pos + c), e);
    }
  }

  /** No entry is cleared that could stay: at no boundary before the end of the room does
      the entry fit exactly or leave two bytes. */
  lemma {:induction false} RoomIsLeast(b: seq<Byte>, pos: nat, c: nat, e: nat, j: nat)
    requires pos + c <= |b| && Tiled(b, pos + c, |b|) && Room(b, pos, c, e).Some?
    requires pos + c <= j < pos + Room(b, pos, c, e).value && Tiled(b, pos + c, j)
    ensures j - pos != e && j - pos < e + 2
    decreases |b| - (pos + c)
  {
    if j > pos + c {
      RoomIsLeast(b, pos, c + SizeAt(b, pos + c), e, j);
    }
  }

  // ----- The invariant

  /** Exactly tiled, with a boundary at the next entry. Nothing is longer than an entry can
      be, except that the entry to be overwritten next may be a filler one byte longer. */
  predicate Inv(l: Log) {
    && l.delta <= |l.buf|
    && Tiled(l.buf, 0, l.delta) && Small(l.buf, 0, l.delta)
    && Tiled(l.buf, l.delta, |l.buf|) && SmallButFirst(l.buf, l.delta)
  }

  predicate SmallButFirst(b: seq<Byte>, i: nat)
    requires Tiled(b, i, |b|)
  {
    i == |b| || (SizeAt(b, i) <= LONGEST_ENTRY + 1 && Small(b, i + SizeAt(b, i), |b|))
  }

  /** A zeroed buffer is a log if its size is a multiple of the regular entry's. */
  lemma ZeroedBufferIsALog(b: seq<Byte>, n: nat)
    requires |b| == SFPLOG_ENTRY_SIZE * n && forall k :: 0 <= k < |b| ==> b[k] == 0
    ensures Inv(Log(b, 0))
  {
    ZeroesAreTiled(b, 0, n);
  }

  /** A filler header reads back, as every length there is to fill fits its twelve
      bits. */
  lemma MarkReadsBack(b: seq<Byte>, at: nat, size: nat)
    requires at + 1 < |b| && size < 0x1000
    ensures var m := Mark(b, at, size);
            && IsFiller(m[at]) && SizeAt(m, at) == size && |m| == |b|
            && m[..at] == b[..at] && m[at + 2..] == b[at + 2..]
  {}

  /** What comes before a place in the buffer, with one more entry. */
  lemma OneMoreEntry(b: seq<Byte>, r: seq<Byte>, pos: nat, entry: seq<Byte>)
    requires IsEntry(entry) && pos + |entry| <= |b| == |r|
    requires r[0..pos] == b[0..pos] && r[pos..pos + |entry|] == entry
    requires Tiled(b, 0, pos) && Small(b, 0, pos)
    ensures var e := pos + |entry|; Tiled(r, 0, e) && Small(r, 0, e) && Entries(r, 0, e) == Entries(b, 0, pos) + [entry]
  {
    TilesAreLocal(b, r, 0, pos);
    EntryIsATile(r, pos, entry);
    TilesJoin(r, 0, pos, pos + |entry|);
  }

  lemma EntryIsATile(r: seq<Byte>, pos: nat, entry: seq<Byte>)
    requires IsEntry(entry) && pos + |entry| <= |r| && r[pos..pos + |entry|] == entry
    ensures Tiled(r, pos, pos + |entry|) && Small(r, pos, pos + |entry|) && Entries(r, pos, pos + |entry|) == [entry]
  {
    assert r[pos] == entry[0] && r[pos + 1] == entry[1];
    OneTile(r, pos, pos + |entry|);
  }

  /** A filler over some entries holds none. */
  lemma FillerIsATile(r: seq<Byte>, i: nat, j: nat)
    requires i + 2 <= j <= |r| && IsFiller(r[i]) && SizeAt(r, i) == j - i
    ensures Tiled(r, i, j) && Entries(r, i, j) == []
  {
    OneTile(r, i, j);
  }

  /** What comes after a place in the buffer, from `j` on as before, and up to there a
      filler if there is room. */
  lemma FillerFirst(b: seq<Byte>, r: seq<Byte>, i: nat, j: nat)
    requires i <= j <= |b| == |r| && r[j..|r|] == b[j..|b|] && Tiled(b, j, |b|) && Small(b, j, |b|)
    requires i == j || (i + 2 <= j <= i + LONGEST_ENTRY + 1 && IsFiller(r[i]) && SizeAt(r, i) == j - i)
    ensures Tiled(r, i, |r|) && SmallButFirst(r, i) && Entries(r, i, |r|) == Entries(b, j, |b|)
  {
    TilesAreLocal(b, r, j, |b|);
    if i < j {
      FillerBefore(r, i, j);
    } else {
      SmallIsSmallButFirst(r, i);
    }
  }

  lemma FillerBefore(r: seq<Byte>, i: nat, j: nat)
    requires i + 2 <= j <= i + LONGEST_ENTRY + 1 && j <= |r| && IsFiller(r[i]) && SizeAt(r, i) == j - i
    requires Tiled(r, j, |r|) && Small(r, j, |r|)
    ensures Tiled(r, i, |r|) && SmallButFirst(r, i) && Entries(r, i, |r|) == Entries(r, j, |r|)
  {
    FirstTile(r, i, |r|, j);
    Empty(Entries(r, j, |r|));
  }

  lemma {:induction false} OverwrittenBytes(b: seq<Byte>, at: nat, data: seq<Byte>)
    requires at + |data| <= |b|
    ensures var r := Overwritten(b, at, data); var e := at + |data|;
            r[0..at] == b[0..at] && r[at..e] == data && r[e..|r|] == b[e..|b|]
    decreases |data|
  {
    if data != [] {
      var b' := b[at := data[0]];
      OverwrittenBytes(b', at + 1, data[1..]);
      var r := Overwritten(b', at + 1, data[1..]);
      assert r[0..at] == r[0..at + 1][..at] && b'[0..at + 1][..at] == b[0..at];
      assert r[at] == r[0..at + 1][at] == b'[0..at + 1][at];
      assert r[at..at + |data|] == [r[at]] + r[at + 1..at + |data|];
    }
  }

  /** The entries before the place stay, with the new one behind them. */
  lemma PlacedFront(b: seq<Byte>, pos: nat, c: nat, entry: seq<Byte>)
    requires IsEntry(entry) && pos + c <= |b| && pos + |entry| <= |b| && Enough(c, |entry|)
    requires Tiled(b, 0, pos) && Small(b, 0, pos) && c <= |entry| + 1 + LONGEST_ENTRY
    ensures var r := Placed(b, pos, c, entry); var e := pos + |entry|;
            && Tiled(r, 0, e) && Small(r, 0, e) && Entries(r, 0, e) == Entries(b, 0, pos) + [entry]
  {
    var m := if c != |entry| then Mark(b, pos + |entry|, c - |entry|) else b;
    if c != |entry| {
      MarkReadsBack(b, pos + |entry|, c - |entry|);
      SamePrefix(b, m, pos);
      TilesAreLocal(b, m, 0, pos);
    }
    OverwrittenBytes(m, pos, entry);
    OneMoreEntry(m, Overwritten(m, pos, entry), pos, entry);
  }

  /** The entries behind the room stay, with what is left of it before them. */
  lemma PlacedBack(b: seq<Byte>, pos: nat, c: nat, entry: seq<Byte>)
    requires IsEntry(entry) && pos + c <= |b| && pos + |entry| <= |b| && Enough(c, |entry|)
    requires Tiled(b, pos + c, |b|) && Small(b, pos + c, |b|) && c <= |entry| + 1 + LONGEST_ENTRY
    ensures var r := Placed(b, pos, c, entry); var e := pos + |entry|;
            && Tiled(r, e, |r|) && SmallButFirst(r, e) && Entries(r, e, |r|) == Entries(b, pos + c, |b|)
  {
    if c == |entry| {
      OverwrittenBytes(b, pos, entry);
      TilesAreLocal(b, Overwritten(b, pos, entry), pos + c, |b|);
      SmallIsSmallButFirst(Overwritten(b, pos, entry), pos + c);
    } else {
      MarkedBack(b, pos + |entry|, pos + c);
      UnderBack(Mark(b, pos + |entry|, c - |entry|), pos, entry);
    }
  }

  lemma MarkedBack(b: seq<Byte>, i: nat, j: nat)
    requires i + 2 <= j <= i + LONGEST_ENTRY + 1 && j <= |b| && Tiled(b, j, |b|) && Small(b, j, |b|)
    ensures var m := Mark(b, i, j - i);
            Tiled(m, i, |b|) && SmallButFirst(m, i) && Entries(m, i, |b|) == Entries(b, j, |b|)
  {
    MarkReadsBack(b, i, j - i);
    SameRest(b, Mark(b, i, j - i), i + 2, j);
    FillerFirst(b, Mark(b, i, j - i), i, j);
  }

  lemma UnderBack(m: seq<Byte>, pos: nat, entry: seq<Byte>)
    requires pos + |entry| <= |m| && Tiled(m, pos + |entry|, |m|) && SmallButFirst(m, pos + |entry|)
    ensures var r := Overwritten(m, pos, entry); var e := pos + |entry|;
            Tiled(r, e, |r|) && SmallButFirst(r, e) && Entries(r, e, |r|) == Entries(m, e, |m|)
  {
    var e := pos + |entry|;
    OverwrittenBytes(m, pos, entry);
    TilesAreLocal(m, Overwritten(m, pos, entry), e, |m|);
    FirstIsLocal(m, Overwritten(m, pos, entry), e);
  }

  lemma SameRest(b: seq<Byte>, m: seq<Byte>, i: nat, j: nat)
    requires i <= j <= |b| == |m| && m[i..] == b[i..]
    ensures m[j..|m|] == b[j..|b|]
  {
    assert m[j..|m|] == m[i..][j - i..] && b[j..|b|] == b[i..][j - i..];
  }

  lemma FirstIsLocal(b: seq<Byte>, c: seq<Byte>, i: nat)
    requires i <= |b| == |c| && b[i..|b|] == c[i..|c|] && Tiled(b, i, |b|) && Tiled(c, i, |c|) && SmallButFirst(b, i)
    ensures SmallButFirst(c, i)
  {
    if i != |b| {
      var next := i + SizeAt(b, i);
      SameSize(b, c, i, |b|);
      SameSlices(b, c, i, |b|, next);
      TilesAreLocal(b, c, next, |b|);
    }
  }

  /** Going to the start keeps the invariant; what is left before the end holds no entry
      any more. */
  lemma WrapKeepsInv(l: Log, e: nat) returns (b: seq<Byte>)
    requires Inv(l) && e <= LONGEST_ENTRY && l.delta + e > |l.buf|
    ensures (b, 0) == Start(l, e) && |b| == |l.buf| && Inv(Log(b, 0))
    ensures Entries(b, 0, |b|) == Entries(l.buf, 0, l.delta)
  {
    var n := |l.buf|;
    b := Start(l, e).0;
    if l.delta + 1 == n {
      NotOneApart(l.buf, l.delta);
    }
    if l.delta < n {
      MarkReadsBack(l.buf, l.delta, n - l.delta);
      SamePrefix(l.buf, b, l.delta);
      FillerIsATile(b, l.delta, n);
      OneTile(b, l.delta, n);
      TilesAreLocal(l.buf, b, 0, l.delta);
      TilesJoin(b, 0, l.delta, n);
      assert Entries(b, 0, l.delta) + [] == Entries(b, 0, l.delta);
    }
    SmallIsSmallButFirst(b, 0);
  }

  lemma SmallIsSmallButFirst(b: seq<Byte>, i: nat)
    requires Tiled(b, i, |b|) && Small(b, i, |b|)
    ensures SmallButFirst(b, i)
  {}

  lemma SamePrefix(b: seq<Byte>, c: seq<Byte>, i: nat)
    requires i <= |b| && i <= |c| && b[..i] == c[..i]
    ensures b[0..i] == c[0..i]
  {}

  // ----- Appending

  /** sfpdb_get_next_entry and the copy of the entry; None when the search for room runs
      off the buffer. */
  function Append(l: Log, entry: seq<Byte>): Option<Log>
    requires Inv(l) && IsEntry(entry) && |entry| <= |l.buf|
  {
    var (b, pos) := Start(l, |entry|);
    StartKeepsInv(l, |entry|);
    match Room(b, pos, 0, |entry|)
    case None => None
    case Some(c) =>
      RoomFound(b, pos, 0, |entry|);
      Some(Log(Placed(b, pos, c, entry), pos + |entry|))
  }

  lemma StartKeepsInv(l: Log, e: nat)
    requires Inv(l) && 2 <= e <= LONGEST_ENTRY && e <= |l.buf|
    ensures var (b, pos) := Start(l, e); |b| == |l.buf| && pos + e <= |b| && Inv(Log(b, pos))
  {
    if l.delta + e > |l.buf| {
      var _ := WrapKeepsInv(l, e);
    }
  }

  /** The room found from a boundary of a log on. */
  lemma RoomOfALog(b: seq<Byte>, pos: nat, e: nat) returns (c: nat)
    requires Inv(Log(b, pos)) && 2 <= e && pos + e <= |b| && Room(b, pos, 0, e).Some?
    ensures c == Room(b, pos, 0, e).value && pos + c <= |b| && Enough(c, e) && c <= e + 1 + LONGEST_ENTRY
    ensures Tiled(b, pos, pos + c) && Tiled(b, pos + c, |b|) && Small(b, pos + c, |b|)
  {
    c := Room(b, pos, 0, e).value;
    RoomFound(b, pos, 0, e);
    var first := SizeAt(b, pos);
    assert Room(b, pos, 0, e) == Room(b, pos, first, e);
    RoomFound(b, pos, first, e);
  }

  /** The entries of the log, oldest first: from the next place on to the end, and then
      from the start. */
  function Contents(l: Log): seq<seq<Byte>>
    requires Inv(l)
  {
    Entries(l.buf, l.delta, |l.buf|) + Entries(l.buf, 0, l.delta)
  }

  /** The entry in its place, in the room found for it. */
  lemma Placing(b: seq<Byte>, pos: nat, entry: seq<Byte>) returns (l': Log, c: nat)
    requires Inv(Log(b, pos)) && IsEntry(entry) && pos + |entry| <= |b| && Room(b, pos, 0, |entry|).Some?
    ensures c == Room(b, pos, 0, |entry|).value && pos + c <= |b| && Enough(c, |entry|)
    ensures l' == Log(Placed(b, pos, c, entry), pos + |entry|) && |l'.buf| == |b| && Inv(l')
    ensures Tiled(b, pos, pos + c) && Tiled(b, pos + c, |b|)
    ensures Entries(l'.buf, 0, l'.delta) == Entries(b, 0, pos) + [entry]
    ensures Entries(l'.buf, l'.delta, |l'.buf|) == Entries(b, pos + c, |b|)
  {
    c := RoomOfALog(b, pos, |entry|);
    var r := PlacedParts(b, pos, c, entry);
    l' := Log(r, pos + |entry|);
  }

  lemma PlacedParts(b: seq<Byte>, pos: nat, c: nat, entry: seq<Byte>) returns (r: seq<Byte>)
    requires IsEntry(entry) && pos + c <= |b| && pos + |entry| <= |b| && Enough(c, |entry|)
    requires c <= |entry| + 1 + LONGEST_ENTRY
    requires Tiled(b, 0, pos) && Small(b, 0, pos) && Tiled(b, pos + c, |b|) && Small(b, pos + c, |b|)
    ensures r == Placed(b, pos, c, entry) && |r| == |b|
    ensures Tiled(r, 0, pos + |entry|) && Small(r, 0, pos + |entry|)
    ensures Tiled(r, pos + |entry|, |r|) && SmallButFirst(r, pos + |entry|)
    ensures Entries(r, 0, pos + |entry|) == Entries(b, 0, pos) + [entry]
    ensures Entries(r, pos + |entry|, |r|) == Entries(b, pos + c, |b|)
  {
    r := Placed(b, pos, c, entry);
    PlacedFront(b, pos, c, entry);
    PlacedBack(b, pos, c, entry);
  }

  /** Placing an entry drops the entries of its room, the oldest, and adds it as the
      newest. */
  lemma PlaceIsFifo(b: seq<Byte>, pos: nat, entry: seq<Byte>)
    returns (l': Log, c: nat, gone: seq<seq<Byte>>, kept: seq<seq<Byte>>)
    requires Inv(Log(b, pos)) && IsEntry(entry) && pos + |entry| <= |b| && Room(b, pos, 0, |entry|).Some?
    ensures c == Room(b, pos, 0, |entry|).value && pos + c <= |b| && Enough(c, |entry|)
    ensures l' == Log(Placed(b, pos, c, entry), pos + |entry|) && |l'.buf| == |b| && Inv(l')
    ensures Tiled(b, pos, pos + c) && gone == Entries(b, pos, pos + c)
    ensures Contents(Log(b, pos)) == gone + kept && Contents(l') == kept + [entry]
  {
    l', c := Placing(b, pos, entry);
    gone, kept := RoomIsGone(b, pos, c);
    Associative(Entries(b, pos + c, |b|), Entries(b, 0, pos), [entry]);
  }

  lemma RoomIsGone(b: seq<Byte>, pos: nat, c: nat) returns (gone: seq<seq<Byte>>, kept: seq<seq<Byte>>)
    requires Inv(Log(b, pos)) && pos + c <= |b| && Tiled(b, pos, pos + c) && Tiled(b, pos + c, |b|)
    ensures gone == Entries(b, pos, pos + c) && kept == Entries(b, pos + c, |b|) + Entries(b, 0, pos)
    ensures Contents(Log(b, pos)) == gone + kept
  {
    gone := Entries(b, pos, pos + c);
    kept := Entries(b, pos + c, |b|) + Entries(b, 0, pos);
    TilesJoin(b, pos, pos + c, |b|);
    Associative(gone, Entries(b, pos + c, |b|), Entries(b, 0, pos));
  }

  /** An append keeps the invariant, and the log stays a queue: the oldest entries go, the
      new one comes last, and the others stay as they are and in their order. */
  lemma AppendIsFifo(l: Log, entry: seq<Byte>) returns (l': Log, gone: seq<seq<Byte>>, kept: seq<seq<Byte>>)
    requires Inv(l) && IsEntry(entry) && |entry| <= |l.buf| && Append(l, entry).Some?
    ensures l' == Append(l, entry).value && |l'.buf| == |l.buf| && Inv(l')
    ensures Contents(l) == gone + kept && Contents(l') == kept + [entry]
  {
    StartKeepsInv(l, |entry|);
    var (b, pos) := Start(l, |entry|);
    AppendIsPlacing(l, entry, b, pos);
    var c;
    l', c, gone, kept := PlaceIsFifo(b, pos, entry);
    if l.delta + |entry| > |l.buf| {
      gone := WrapIsFifo(l, b, |entry|, gone, kept);
    }
  }

  lemma AppendIsPlacing(l: Log, entry: seq<Byte>, b: seq<Byte>, pos: nat)
    requires Inv(l) && IsEntry(entry) && |entry| <= |l.buf| && Append(l, entry).Some?
    requires (b, pos) == Start(l, |entry|) && Inv(Log(b, pos)) && pos + |entry| <= |b|
    ensures Room(b, pos, 0, |entry|).Some?
    ensures var c := Room(b, pos, 0, |entry|).value;
            && pos + c <= |b| && Enough(c, |entry|)
            && Append(l, entry).value == Log(Placed(b, pos, c, entry), pos + |entry|)
  {
    var c := RoomOfALog(b, pos, |entry|);
  }

  /** The entries behind the filler at the end are gone too. */
  lemma WrapIsFifo(l: Log, b: seq<Byte>, e: nat, gone: seq<seq<Byte>>, kept: seq<seq<Byte>>)
    returns (all: seq<seq<Byte>>)
    requires Inv(l) && e <= LONGEST_ENTRY && l.delta + e > |l.buf| && (b, 0) == Start(l, e) && Inv(Log(b, 0))
    requires Contents(Log(b, 0)) == gone + kept
    ensures all == Entries(l.buf, l.delta, |l.buf|) + gone && Contents(l) == all + kept
  {
    var b' := WrapKeepsInv(l, e);
    all := Entries(l.buf, l.delta, |l.buf|) + gone;
    assert Contents(Log(b, 0)) == Entries(b, 0, |b|) + [] == Entries(l.buf, 0, l.delta);
    Associative(Entries(l.buf, l.delta, |l.buf|), gone, kept);
  }

  /** An entry goes to the next place if it fits there before the end, and else to the
      start; everything before it stays, and everything behind the room it takes, which ends
      at the first boundary that will do. */
  lemma AppendTakesThePlace(l: Log, entry: seq<Byte>) returns (l': Log, at: nat, end: nat)
    requires Inv(l) && IsEntry(entry) && |entry| <= |l.buf| && Append(l, entry).Some?
    ensures l' == Append(l, entry).value && |l'.buf| == |l.buf|
    ensures at == if l.delta + |entry| <= |l.buf| then l.delta else 0
    ensures l'.delta == at + |entry| <= end <= |l'.buf| && l'.buf[at..l'.delta] == entry
    ensures l'.buf[..at] == l.buf[..at]
    ensures at == l.delta ==> l'.buf[end..] == l.buf[end..]
    ensures at != l.delta && end <= l.delta ==> l'.buf[end..l.delta] == l.buf[end..l.delta]
    ensures end == at + |entry| || end >= at + |entry| + 2
    ensures forall j :: at <= j < end && j <= (if at == l.delta then |l.buf| else l.delta) && Tiled(l.buf, at, j) ==>
              j != at + |entry| && j < at + |entry| + 2
  {
    hide Placed, Tiled, Small, SmallButFirst, SizeAt, Room, Append;
    StartKeepsInv(l, |entry|);
    var (b, pos) := Start(l, |entry|);
    AppendIsPlacing(l, entry, b, pos);
    var c := RoomOfALog(b, pos, |entry|);
    l', at, end := Append(l, entry).value, pos, pos + c;
    PlacedBetween(b, pos, c, entry);
    forall j | at <= j < end && j <= (if at == l.delta then |l.buf| else l.delta) && Tiled(l.buf, at, j)
      ensures j != at + |entry| && j < at + |entry| + 2
    {
      LeastPlace(l, b, pos, |entry|, j);
    }
    if l.delta + |entry| > |l.buf| && end <= l.delta {
      BeforeTheMark(l, b, |entry|, end);
      Inside(l'.buf, b, end, l.delta);
    }
  }

  lemma BeforeTheMark(l: Log, b: seq<Byte>, e: nat, i: nat)
    requires i <= l.delta <= |l.buf| && l.delta + e > |l.buf| && b == Start(l, e).0
    ensures |b| == |l.buf| && b[i..l.delta] == l.buf[i..l.delta]
  {}

  lemma LeastPlace(l: Log, b: seq<Byte>, pos: nat, e: nat, j: nat)
    requires Inv(l) && 2 <= e && (b, pos) == Start(l, e) && |b| == |l.buf| && Inv(Log(b, pos))
    requires Room(b, pos, 0, e).Some? && pos <= j < pos + Room(b, pos, 0, e).value && j <= |l.buf|
    requires Tiled(l.buf, pos, j) && j <= if l.delta + e <= |l.buf| then |l.buf| else l.delta
    ensures j != pos + e && j < pos + e + 2
  {
    if l.delta + e > |l.buf| {
      assert b[0..j] == l.buf[0..j];
      TilesAreLocal(l.buf, b, 0, j);
    }
    RoomIsLeast(b, pos, 0, e, j);
  }

  lemma Inside(a: seq<Byte>, b: seq<Byte>, i: nat, j: nat)
    requires i <= j <= |a| == |b| && a[i..] == b[i..]
    ensures a[i..j] == b[i..j]
  {
    assert a[i..j] == a[i..][..j - i] && b[i..j] == b[i..][..j - i];
  }

  lemma PlacedBetween(b: seq<Byte>, pos: nat, c: nat, entry: seq<Byte>)
    requires pos + c <= |b| && pos + |entry| <= |b| && Enough(c, |entry|)
    ensures var r := Placed(b, pos, c, entry); var e := pos + |entry|;
            |r| == |b| && r[..pos] == b[..pos] && r[pos..e] == entry && r[pos + c..] == b[pos + c..]
  {
    var m := if c != |entry| then Mark(b, pos + |entry|, c - |entry|) else b;
    var r, e, end := Placed(b, pos, c, entry), pos + |entry|, pos + c;
    OverwrittenBytes(m, pos, entry);
    assert r[..pos] == r[0..pos] && m[0..pos] == b[..pos];
    assert r[end..] == r[e..|r|][end - e..] && m[end..] == m[e..|m|][end - e..];
  }

  /** An append runs off the buffer exactly when its entry would end one byte before the
      end. */
  lemma AppendRunsOffExactlyWhen(l: Log, entry: seq<Byte>)
    requires Inv(l) && IsEntry(entry) && |entry| <= |l.buf|
    ensures Append(l, entry) == None <==> Start(l, |entry|).1 + |entry| + 1 == |l.buf|
  {
    var (b, pos) := Start(l, |entry|);
    StartKeepsInv(l, |entry|);
    RoomRunsOffExactlyWhen(b, pos, 0, |entry|);
  }

  /** It does happen: a string of 33 bytes logged first in a zeroed buffer of 40. */
  lemma AppendMayRunOff()
    ensures var l := Log(seq(40, _ => 0), 0);
            var entry := [0xC0, 33] + seq(37, _ => 1);
            Inv(l) && IsEntry(entry) && Append(l, entry) == None
  {
    var l := Log(seq(40, _ => 0), 0);
    var entry: seq<Byte> := [0xC0, 33] + seq(37, _ => 1);
    ZeroedBufferIsALog(l.buf, 2);
    AppendRunsOffExactlyWhen(l, entry);
  }

  // ----- Over whole runs

  /** Appends one after the other, as long as none runs off the buffer. */
  function Run(l: Log, entries: seq<seq<Byte>>): Option<Log>
    requires Inv(l) && forall i :: 0 <= i < |entries| ==> IsEntry(entries[i]) && |entries[i]| <= |l.buf|
    decreases |entries|
  {
    if entries == [] then Some(l) else
    match Append(l, entries[0])
    case None => None
    case Some(l') => AppendKeepsInv(l, entries[0]); Run(l', entries[1..])
  }

  lemma AppendKeepsInv(l: Log, entry: seq<Byte>)
    requires Inv(l) && IsEntry(entry) && |entry| <= |l.buf| && Append(l, entry).Some?
    ensures var l' := Append(l, entry).value; Inv(l') && |l'.buf| == |l.buf|
  {
    var _, _, _ := AppendIsFifo(l, entry);
  }

  /** Whatever is logged, the log holds the latest entries, complete and in their order;
      `gone` are the ones before them. */
  lemma {:induction false} LogHoldsTheLatest(l: Log, entries: seq<seq<Byte>>) returns (l': Log, gone: seq<seq<Byte>>)
    requires Inv(l) && forall i :: 0 <= i < |entries| ==> IsEntry(entries[i]) && |entries[i]| <= |l.buf|
    requires Run(l, entries).Some?
    ensures l' == Run(l, entries).value && Inv(l') && |l'.buf| == |l.buf|
    ensures Contents(l) + entries == gone + Contents(l')
    ensures entries != [] ==> Contents(l') != []
    decreases |entries|
  {
    if entries == [] {
      l', gone := l, [];
      assert Contents(l) + [] == [] + Contents(l);
    } else {
      var m, first, kept := AppendIsFifo(l, entries[0]);
      var later;
      l', later := LogHoldsTheLatest(m, entries[1..]);
      gone := first + later;
      Regroup(first, kept, entries, later, Contents(l'));
    }
  }

  lemma Regroup<T>(first: seq<T>, kept: seq<T>, entries: seq<T>, later: seq<T>, rest: seq<T>)
    requires entries != [] && kept + [entries[0]] + entries[1..] == later + rest
    ensures first + kept + entries == first + later + rest
  {
    assert [entries[0]] + entries[1..] == entries;
    assert kept + [entries[0]] + entries[1..] == kept + entries;
    assert first + kept + entries == first + (kept + entries);
    assert first + later + rest == first + (later + rest);
  }
}
