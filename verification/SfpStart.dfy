/** A log from its zeroed buffer on: what of it was logged and what never written, and what
    a print then shows. */
module SfpStart {
  import opened Common
  import opened SfpTiles
  import opened SfpLog
  import opened SfpDb

  /** The rest of the buffer has never been written. */
  predicate Fresh(l: Log)
    requires Inv(l)
  {
    var f := EntriesEnd(l);
    && f <= |l.buf| && (|l.buf| - f) % SFPLOG_ENTRY_SIZE == 0
    && forall k :: f <= k < |l.buf| ==> l.buf[k] == 0
  }

  predicate IsSuffix<T(==)>(all: seq<T>, last: seq<T>) {
    |last| <= |all| && all[|all| - |last|..] == last
  }

  /** All that was logged is still there and the rest of the buffer fresh, or everything in
      the buffer is what was logged last. */
  predicate Logged(l: Log, all: seq<seq<Byte>>)
    requires Inv(l)
  {
    (Fresh(l) && Entries(l.buf, 0, l.delta) == all) || IsSuffix(all, Contents(l))
  }

  /** A new log, in a zeroed buffer for `n` regular entries. */
  function NewLog(n: nat): (l: Log)
    ensures Inv(l) && |l.buf| == SFPLOG_ENTRY_SIZE * n
  {
    var b: seq<Byte> := seq(SFPLOG_ENTRY_SIZE * n, _ => 0);
    ZeroedBufferIsALog(b, n);
    Log(b, 0)
  }

  lemma NothingLogged(n: nat)
    ensures Logged(NewLog(n), [])
  {
    assert EntriesEnd(NewLog(n)) == 0;
  }

  // ----- An append to a fresh log

  /** Room in a fresh buffer ends at a whole number of entries before its end. */
  lemma {:induction false} FreshRoom(b: seq<Byte>, pos: nat, c: nat, e: nat)
    requires pos + c <= |b| && Tiled(b, pos + c, |b|) && Room(b, pos, c, e).Some?
    requires (|b| - (pos + c)) % SFPLOG_ENTRY_SIZE == 0 && forall k :: pos + c <= k < |b| ==> b[k] == 0
    ensures var r := Room(b, pos, c, e).value; c <= r && pos + r <= |b| && (|b| - (pos + r)) % SFPLOG_ENTRY_SIZE == 0
    decreases |b| - (pos + c)
  {
    if !Enough(c, e) {
      assert SizeAt(b, pos + c) == SFPLOG_ENTRY_SIZE;
      FreshRoom(b, pos, c + SFPLOG_ENTRY_SIZE, e);
    }
  }

  /** From the place of the next entry on, it does so too, and behind the filler there. */
  lemma RoomOfAFreshLog(l: Log, e: nat)
    requires Inv(l) && Fresh(l) && 2 <= e && l.delta + e <= |l.buf| && Room(l.buf, l.delta, 0, e).Some?
    ensures var end := l.delta + Room(l.buf, l.delta, 0, e).value;
            EntriesEnd(l) <= end <= |l.buf| && (|l.buf| - end) % SFPLOG_ENTRY_SIZE == 0
  {
    var b, d := l.buf, l.delta;
    if IsFiller(b[d]) {
      assert Room(b, d, 0, e) == Room(b, d, SizeAt(b, d), e);
      FreshRoom(b, d, SizeAt(b, d), e);
    } else {
      FreshRoom(b, d, 0, e);
    }
  }

  /** The bytes behind the room stay as they are. */
  lemma BehindTheRoom(b: seq<Byte>, pos: nat, c: nat, entry: seq<Byte>)
    requires pos + c <= |b| && pos + |entry| <= |b| && Enough(c, |entry|)
    ensures var r := Placed(b, pos, c, entry);
            && |r| == |b| && (forall k :: pos + c <= k < |b| ==> r[k] == b[k])
            && (c != |entry| && c - |entry| < 0x1000 ==>
                  IsFiller(r[pos + |entry|]) && SizeAt(r, pos + |entry|) == c - |entry|)
  {
    var e := pos + |entry|;
    var m := if c != |entry| then Mark(b, e, c - |entry|) else b;
    OverwrittenBytes(m, pos, entry);
    var r := Overwritten(m, pos, entry);
    forall k | e <= k < |b|
      ensures r[k] == m[k]
    {
      assert r[e..|r|][k - e] == m[e..|m|][k - e];
    }
    if c != |entry| && c - |entry| < 0x1000 {
      MarkReadsBack(b, e, c - |entry|);
    }
  }

  /** Without a wrap, the log stays fresh and holds one entry more. */
  lemma FreshAppend(l: Log, entry: seq<Byte>) returns (l': Log)
    requires Inv(l) && Fresh(l) && IsEntry(entry) && l.delta + |entry| <= |l.buf| && Append(l, entry).Some?
    ensures Append(l, entry) == Some(l') && Inv(l') && |l'.buf| == |l.buf| && Fresh(l')
    ensures Entries(l'.buf, 0, l'.delta) == Entries(l.buf, 0, l.delta) + [entry]
  {
    hide Append, Placed, Room, Tiled, Entries, Small, SmallButFirst;
    var c;
    l', c := AppendInPlace(l, entry);
    RoomOfAFreshLog(l, |entry|);
    BehindTheRoom(l.buf, l.delta, c, entry);
    EndOfFresh(l', c - |entry|, l.buf, l.delta + c);
  }

  lemma AppendInPlace(l: Log, entry: seq<Byte>) returns (l': Log, c: nat)
    requires Inv(l) && IsEntry(entry) && l.delta + |entry| <= |l.buf| && Append(l, entry).Some?
    ensures Append(l, entry) == Some(l') && Inv(l') && Room(l.buf, l.delta, 0, |entry|) == Some(c)
    ensures l.delta + c <= |l.buf| && Enough(c, |entry|) && c <= |entry| + 1 + LONGEST_ENTRY
    ensures l' == Log(Placed(l.buf, l.delta, c, entry), l.delta + |entry|) && |l'.buf| == |l.buf|
    ensures Entries(l'.buf, 0, l'.delta) == Entries(l.buf, 0, l.delta) + [entry]
  {
    AppendIsPlacing(l, entry, l.buf, l.delta);
    l', c := Placing(l.buf, l.delta, entry);
    var _ := RoomOfALog(l.buf, l.delta, |entry|);
  }

  lemma EndOfFresh(l: Log, left: nat, b: seq<Byte>, end: nat)
    requires Inv(l) && |b| == |l.buf| && l.delta + left == end <= |b|
    requires left != 0 ==> l.delta < |b| && IsFiller(l.buf[l.delta]) && SizeAt(l.buf, l.delta) == left
    requires (|b| - end) % SFPLOG_ENTRY_SIZE == 0
    requires forall k :: end <= k < |b| ==> l.buf[k] == b[k] == 0
    ensures Fresh(l)
  {
    assert EntriesEnd(l) == end;
  }

  // ----- Any append

  lemma MoreLogged<T>(all: seq<T>, gone: seq<T>, kept: seq<T>, entry: T)
    requires IsSuffix(all, gone + kept)
    ensures IsSuffix(all + [entry], kept + [entry])
  {
    var d := |all| - |kept|;
    assert all[d..] == (gone + kept)[|gone|..] == kept;
    assert (all + [entry])[d..] == all[d..] + [entry];
  }

  /** When the log wraps, what was never written is gone for good. */
  lemma FreshWraps(l: Log, entry: seq<Byte>) returns (l': Log)
    requires Inv(l) && IsEntry(entry) && |entry| <= |l.buf| < l.delta + |entry| && Append(l, entry).Some?
    ensures Append(l, entry) == Some(l') && Inv(l') && |l'.buf| == |l.buf|
    ensures IsSuffix(Entries(l.buf, 0, l.delta) + [entry], Contents(l'))
  {
    var b := WrapKeepsInv(l, |entry|);
    AppendIsPlacing(l, entry, b, 0);
    var c, gone, kept;
    l', c, gone, kept := PlaceIsFifo(b, 0, entry);
    Empty(Entries(b, 0, |b|));
    assert Contents(Log(b, 0)) == Entries(l.buf, 0, l.delta);
    MoreLogged(Entries(l.buf, 0, l.delta), gone, kept, entry);
  }

  lemma AppendLogs(l: Log, all: seq<seq<Byte>>, entry: seq<Byte>) returns (l': Log)
    requires Inv(l) && Logged(l, all) && IsEntry(entry) && |entry| <= |l.buf| && Append(l, entry).Some?
    ensures Append(l, entry) == Some(l') && Inv(l') && |l'.buf| == |l.buf| && Logged(l', all + [entry])
  {
    if Fresh(l) && Entries(l.buf, 0, l.delta) == all {
      if l.delta + |entry| <= |l.buf| {
        l' := FreshAppend(l, entry);
      } else {
        l' := FreshWraps(l, entry);
      }
    } else {
      var gone, kept;
      l', gone, kept := AppendIsFifo(l, entry);
      MoreLogged(all, gone, kept, entry);
    }
  }

  lemma {:induction false} RunLogs(l: Log, all: seq<seq<Byte>>, entries: seq<seq<Byte>>) returns (l': Log)
    requires Inv(l) && Logged(l, all)
    requires forall i :: 0 <= i < |entries| ==> IsEntry(entries[i]) && |entries[i]| <= |l.buf|
    requires Run(l, entries).Some?
    ensures Run(l, entries) == Some(l') && Inv(l') && |l'.buf| == |l.buf| && Logged(l', all + entries)
    decreases |entries|
  {
    hide Append, Logged, Inv;
    if entries == [] {
      l' := l;
      Empty(all);
    } else {
      var m := AppendLogs(l, all, entries[0]);
      l' := RunLogs(m, all + [entries[0]], entries[1..]);
      assert all + [entries[0]] + entries[1..] == all + entries;
    }
  }

  // ----- What a print shows

  /** Of all that was logged, what the log still holds. */
  function Holds(l: Log, all: seq<seq<Byte>>): seq<seq<Byte>>
    requires Inv(l)
  {
    if IsAllThere(l, all) then all else Contents(l)
  }

  /** Nothing is lost yet, and there is still room that was never written. */
  predicate IsAllThere(l: Log, all: seq<seq<Byte>>)
    requires Inv(l)
  {
    Young(l) && Entries(l.buf, 0, l.delta) == all
  }

  /** A fresh log is young, or full. */
  lemma FreshIsYoung(l: Log, all: seq<seq<Byte>>)
    requires Inv(l) && Logged(l, all)
    ensures IsSuffix(all, Holds(l, all))
  {
    var b, d, f := l.buf, l.delta, EntriesEnd(l);
    if Fresh(l) && Entries(b, 0, d) == all && f == |b| {
      assert Entries(b, d, |b|) == [];
      Empty(all);
    }
  }

  /** Whatever is logged from a zeroed buffer on: the log holds the latest entries, all of
      them as long as some of the buffer was never written, and a print shows exactly these,
      oldest first, if and only if none of them starts with two zero bytes and, in a log
      that is not young, the oldest is found or the order does not show. */
  lemma PrintShowsTheLogExactlyWhen(n: nat, entries: seq<seq<Byte>>) returns (l: Log, held: seq<seq<Byte>>)
    requires forall i :: 0 <= i < |entries| ==> IsEntry(entries[i]) && |entries[i]| <= SFPLOG_ENTRY_SIZE * n
    requires var r := Run(NewLog(n), entries); r.Some? && r.value.delta < |r.value.buf|
    ensures Run(NewLog(n), entries) == Some(l) && Inv(l)
    ensures l.delta < |l.buf| && held == Holds(l, entries) && IsSuffix(entries, held)
    ensures var s := Earliest(l); s <= |l.buf| && Tiled(l.buf, 0, s) && Tiled(l.buf, s, |l.buf|)
    ensures var newest, oldest := Entries(l.buf, 0, l.delta), Entries(l.buf, l.delta, |l.buf|);
            Walk(l.buf, Earliest(l)) == held <==>
            && (forall e :: e in held ==> !EndsPrint(e))
            && (IsAllThere(l, entries) || StartsRight(l) || newest + oldest == oldest + newest)
  {
    NothingLogged(n);
    l := RunLogs(NewLog(n), [], entries);
    Empty(entries);
    held := Holds(l, entries);
    FreshIsYoung(l, entries);
    var b, d := l.buf, l.delta;
    PrintShowsTheBufferExactlyWhen(l);
    NoEmptyExactlyWhen(b, 0, d);
    NoEmptyExactlyWhen(b, d, |b|);
    FirstOrRest(Entries(b, d, |b|), Entries(b, 0, d));
    if IsAllThere(l, entries) {
      PrintShowsTheStart(l);
    }
  }
}
