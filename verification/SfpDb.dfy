/** The log database with its buffer in place: sfpdb.c, and the append and print halves of
    sfplogger.c. */
module SfpDb {
  import opened Common
  import opened SfpTiles
  import opened SfpLog

  // ----- What a print shows

  /** Two zero bytes at the start of an entry end a print. */
  predicate IsEmpty(b: seq<Byte>, i: nat)
    requires i + 1 < |b|
  {
    b[i] == 0 && b[i + 1] == 0
  }

  /** The entries printed from `i` up to `j` or to the first empty one. */
  function Printed(b: seq<Byte>, i: nat, j: nat): seq<seq<Byte>>
    requires Tiled(b, i, j)
    decreases j - i
  {
    if i == j || IsEmpty(b, i) then [] else
    var next := i + SizeAt(b, i);
    (if IsFiller(b[i]) then [] else [b[i..next]]) + Printed(b, next, j)
  }

  predicate NoEmpty(b: seq<Byte>, i: nat, j: nat)
    requires Tiled(b, i, j)
    decreases j - i
  {
    i == j || (!IsEmpty(b, i) && NoEmpty(b, i + SizeAt(b, i), j))
  }

  /** print_db_buffer from `start` on: to the end and then from the start of the buffer,
      or to the first empty entry. */
  function Walk(b: seq<Byte>, start: nat): seq<seq<Byte>>
    requires start <= |b| && Tiled(b, start, |b|) && Tiled(b, 0, start)
  {
    Printed(b, start, |b|) + (if NoEmpty(b, start, |b|) then Printed(b, 0, start) else [])
  }

  /** sfpdb_get_earliest_entry. */
  function Earliest(l: Log): nat
    requires Inv(l) && l.delta < |l.buf|
  {
    var b, d := l.buf, l.delta;
    if b[d] == 0 then 0
    else if IsFiller(b[d]) then
      var next := d + SizeAt(b, d);
      if next >= |b| || b[next] == 0 then 0 else next
    else d
  }

  lemma EarliestIsABoundary(l: Log)
    requires Inv(l) && l.delta < |l.buf|
    ensures var s := Earliest(l); s < |l.buf| && Tiled(l.buf, 0, s) && Tiled(l.buf, s, |l.buf|)
  {
    var b, d := l.buf, l.delta;
    TilesJoin(b, 0, d, |b|);
    NextIsABoundary(b, d);
  }

  lemma NextIsABoundary(b: seq<Byte>, d: nat)
    requires d < |b| && Tiled(b, 0, d) && Tiled(b, d, |b|)
    ensures var next := d + SizeAt(b, d); next <= |b| && Tiled(b, 0, next) && Tiled(b, next, |b|)
  {
    var next := d + SizeAt(b, d);
    OneTile(b, d, next);
    TilesJoin(b, 0, d, next);
  }

  lemma {:induction false} AllPrinted(b: seq<Byte>, i: nat, j: nat)
    requires Tiled(b, i, j) && NoEmpty(b, i, j)
    ensures Printed(b, i, j) == Entries(b, i, j)
    decreases j - i
  {
    if i != j {
      AllPrinted(b, i + SizeAt(b, i), j);
    }
  }

  /** Where sfpdb_get_earliest_entry looks, there is no zero byte: neither at the place of
      the next entry nor, if that is a filler, behind it. */
  predicate StartsRight(l: Log)
    requires Inv(l) && l.delta < |l.buf|
  {
    var b, d := l.buf, l.delta;
    && b[d] != 0
    && (IsFiller(b[d]) && d + SizeAt(b, d) < |b| ==> b[d + SizeAt(b, d)] != 0)
  }

  /** Once the log has gone round, a print shows all its entries, oldest first, if none of
      them starts like an empty one and the oldest does not start with a zero byte. */
  lemma PrintShowsTheLog(l: Log)
    requires Inv(l) && l.delta < |l.buf|
    requires NoEmpty(l.buf, 0, l.delta) && NoEmpty(l.buf, l.delta, |l.buf|)
    requires StartsRight(l)
    ensures var s := Earliest(l);
            && s <= |l.buf| && Tiled(l.buf, 0, s) && Tiled(l.buf, s, |l.buf|) && Walk(l.buf, s) == Contents(l)
  {
    var b, d, n := l.buf, l.delta, |l.buf|;
    var s := Earliest(l);
    EarliestIsABoundary(l);
    AllPrinted(b, d, n);
    AllPrinted(b, 0, d);
    if IsFiller(b[d]) {
      var next := d + SizeAt(b, d);
      FillerIsSkipped(b, d, next);
      AllPrinted(b, 0, next);
      AllPrinted(b, next, n);
      if next == n {
        assert Walk(b, 0) == Entries(b, 0, n) + [];
      }
    }
  }

  lemma FillerIsSkipped(b: seq<Byte>, d: nat, next: nat)
    requires d < next <= |b| && Tiled(b, 0, d) && Tiled(b, d, |b|) && IsFiller(b[d]) && next == d + SizeAt(b, d)
    requires NoEmpty(b, 0, d) && NoEmpty(b, d, |b|)
    ensures Tiled(b, 0, next) && Tiled(b, next, |b|) && NoEmpty(b, 0, next) && NoEmpty(b, next, |b|)
    ensures Entries(b, 0, next) == Entries(b, 0, d) && Entries(b, d, |b|) == Entries(b, next, |b|)
  {
    OneTile(b, d, next);
    TilesJoin(b, 0, d, next);
    NoEmptyJoin(b, 0, d, next);
    Empty(Entries(b, 0, d));
    FirstTile(b, d, |b|, next);
    Empty(Entries(b, next, |b|));
  }

  lemma {:induction false} NoEmptyJoin(b: seq<Byte>, i: nat, j: nat, k: nat)
    requires Tiled(b, i, j) && Tiled(b, j, k) && i <= j <= k <= |b| && Tiled(b, i, k)
    ensures NoEmpty(b, i, k) <==> NoEmpty(b, i, j) && NoEmpty(b, j, k)
    decreases j - i
  {
    if i < j {
      var s := i + SizeAt(b, i);
      TilesJoin(b, s, j, k);
      NoEmptyJoin(b, s, j, k);
    }
  }

  lemma {:induction false} PrintedInParts(b: seq<Byte>, i: nat, j: nat, k: nat)
    requires Tiled(b, i, j) && Tiled(b, j, k) && i <= j <= k <= |b| && NoEmpty(b, i, j)
    ensures Tiled(b, i, k) && Printed(b, i, k) == Printed(b, i, j) + Printed(b, j, k)
    decreases j - i
  {
    if i == j {
      Empty(Printed(b, j, k));
    } else {
      var s := i + SizeAt(b, i);
      PrintedInParts(b, s, j, k);
      FirstTile(b, i, k, s);
      Associative(if IsFiller(b[i]) then [] else [b[i..s]], Printed(b, s, j), Printed(b, j, k));
    }
  }

  /** But a regular entry may start with a zero byte. When that is the oldest one, a print
      starts at the wrong place and shows the newest entries before the oldest. */
  lemma PrintMayStartWrong(l: Log)
    requires Inv(l) && l.delta < |l.buf| && !StartsRight(l)
    requires NoEmpty(l.buf, 0, l.delta) && NoEmpty(l.buf, l.delta, |l.buf|)
    ensures Earliest(l) == 0 && Tiled(l.buf, 0, |l.buf|)
    ensures Walk(l.buf, 0) == Entries(l.buf, 0, l.delta) + Entries(l.buf, l.delta, |l.buf|)
  {
    var b, d, n := l.buf, l.delta, |l.buf|;
    TilesJoin(b, 0, d, n);
    NoEmptyJoin(b, 0, d, n);
    AllPrinted(b, 0, n);
    assert Walk(b, 0) == Entries(b, 0, n) + [];
  }

  /** An empty entry is one, so a print that stops at it shows fewer than there are. */
  lemma {:induction false} StopsShort(b: seq<Byte>, i: nat, j: nat)
    requires Tiled(b, i, j)
    ensures |Printed(b, i, j)| <= |Entries(b, i, j)|
    ensures !NoEmpty(b, i, j) ==> |Printed(b, i, j)| < |Entries(b, i, j)|
    decreases j - i
  {
    if i != j {
      StopsShort(b, i + SizeAt(b, i), j);
    }
  }

  lemma WalkStopsShort(b: seq<Byte>, s: nat)
    requires s <= |b| && Tiled(b, 0, s) && Tiled(b, s, |b|)
    requires !NoEmpty(b, 0, s) || !NoEmpty(b, s, |b|)
    ensures |Walk(b, s)| < |Entries(b, s, |b|)| + |Entries(b, 0, s)|
  {
    StopsShort(b, s, |b|);
    StopsShort(b, 0, s);
  }

  /** A boundary splits the entries, and the empty ones, of the whole buffer. */
  lemma Splits(b: seq<Byte>, i: nat)
    requires i <= |b| && Tiled(b, 0, i) && Tiled(b, i, |b|)
    ensures Tiled(b, 0, |b|)
    ensures |Entries(b, 0, |b|)| == |Entries(b, 0, i)| + |Entries(b, i, |b|)|
    ensures NoEmpty(b, 0, |b|) <==> NoEmpty(b, 0, i) && NoEmpty(b, i, |b|)
  {
    TilesJoin(b, 0, i, |b|);
    NoEmptyJoin(b, 0, i, |b|);
  }

  /** A print shows all entries in the buffer, oldest first, if and only if none of them
      starts with two zero bytes, and the oldest is found or the order does not show. */
  lemma PrintShowsTheBufferExactlyWhen(l: Log)
    requires Inv(l) && l.delta < |l.buf|
    ensures var s := Earliest(l); s <= |l.buf| && Tiled(l.buf, 0, s) && Tiled(l.buf, s, |l.buf|)
    ensures var newest, oldest := Entries(l.buf, 0, l.delta), Entries(l.buf, l.delta, |l.buf|);
            Walk(l.buf, Earliest(l)) == Contents(l) <==>
            && NoEmpty(l.buf, 0, l.delta) && NoEmpty(l.buf, l.delta, |l.buf|)
            && (StartsRight(l) || newest + oldest == oldest + newest)
  {
    var b, d, n := l.buf, l.delta, |l.buf|;
    var s := Earliest(l);
    EarliestIsABoundary(l);
    if !NoEmpty(b, 0, d) || !NoEmpty(b, d, n) {
      Splits(b, d);
      Splits(b, s);
      WalkStopsShort(b, s);
    } else if StartsRight(l) {
      PrintShowsTheLog(l);
    } else {
      PrintMayStartWrong(l);
    }
  }

  // ----- Young logs

  /** Behind the entries logged so far, and a filler if there is one. */
  function EntriesEnd(l: Log): nat
    requires Inv(l)
  {
    var b, d := l.buf, l.delta;
    if d < |b| && IsFiller(b[d]) then d + SizeAt(b, d) else d
  }

  /** There is an empty entry. */
  predicate Young(l: Log)
    requires Inv(l)
  {
    EntriesEnd(l) + 1 < |l.buf| && IsEmpty(l.buf, EntriesEnd(l))
  }

  /** Printing to a boundary is printing in front of it when there is an empty entry there. */
  lemma {:induction false} StopsInFront(b: seq<Byte>, i: nat, j: nat, k: nat)
    requires Tiled(b, i, j) && Tiled(b, j, k) && Tiled(b, i, k) && i <= j <= k <= |b| && !NoEmpty(b, i, j)
    ensures Printed(b, i, k) == Printed(b, i, j)
    decreases j - i
  {
    if !IsEmpty(b, i) {
      var s := i + SizeAt(b, i);
      TilesJoin(b, s, j, k);
      StopsInFront(b, s, j, k);
    }
  }

  /** A print of a young log starts at the start and shows its entries, if and only if none
      of them starts with two zero bytes. */
  lemma PrintShowsTheStart(l: Log)
    requires Inv(l) && l.delta < |l.buf| && Young(l)
    ensures Earliest(l) == 0 && Tiled(l.buf, 0, |l.buf|)
    ensures Walk(l.buf, 0) == Entries(l.buf, 0, l.delta) <==> NoEmpty(l.buf, 0, l.delta)
  {
    var b, d, n := l.buf, l.delta, |l.buf|;
    TilesJoin(b, 0, d, n);
    assert Printed(b, 0, 0) == [];
    Empty(Printed(b, 0, n));
    if NoEmpty(b, 0, d) {
      PrintedInParts(b, 0, d, n);
      AllPrinted(b, 0, d);
      NothingBehind(l);
      Empty(Printed(b, 0, d));
    } else {
      StopsInFront(b, 0, d, n);
      StopsShort(b, 0, d);
    }
  }

  lemma NothingBehind(l: Log)
    requires Inv(l) && l.delta < |l.buf| && Young(l)
    ensures Printed(l.buf, l.delta, |l.buf|) == []
  {
    var b, d := l.buf, l.delta;
    if IsFiller(b[d]) {
      assert Printed(b, EntriesEnd(l), |b|) == [];
    }
  }

  // ----- The entries that end a print

  /** It starts with two zero bytes. */
  predicate EndsPrint(entry: seq<Byte>) {
    |entry| >= 2 && entry[0] == 0 && entry[1] == 0
  }

  lemma {:induction false} NoEmptyExactlyWhen(b: seq<Byte>, i: nat, j: nat)
    requires Tiled(b, i, j) && i <= j <= |b|
    ensures NoEmpty(b, i, j) <==> forall e :: e in Entries(b, i, j) ==> !EndsPrint(e)
    decreases j - i
  {
    if i < j {
      var s := i + SizeAt(b, i);
      NoEmptyExactlyWhen(b, s, j);
      assert b[i..s][0] == b[i] && b[i..s][1] == b[i + 1];
      var first := if IsFiller(b[i]) then [] else [b[i..s]];
      assert IsEmpty(b, i) ==> !IsFiller(b[i]);
      assert (forall e :: e in first ==> !EndsPrint(e)) <==> !IsEmpty(b, i) by {
        assert !IsFiller(b[i]) ==> b[i..s] in first;
      }
      FirstOrRest(first, Entries(b, s, j));
    }
  }

  lemma FirstOrRest(first: seq<seq<Byte>>, rest: seq<seq<Byte>>)
    ensures (forall e :: e in first + rest ==> !EndsPrint(e)) <==>
            (forall e :: e in first ==> !EndsPrint(e)) && (forall e :: e in rest ==> !EndsPrint(e))
  {
    assert forall e :: e in first + rest <==> e in first || e in rest;
  }

  // ----- Logs that are not printed right

  /** A regular entry that starts with these two bytes. */
  function Regular(b0: Byte, b1: Byte): (e: seq<Byte>)
    ensures |e| == SFPLOG_ENTRY_SIZE && e[0] == b0 && e[1] == b1
    ensures b0 < 0x80 ==> IsEntry(e)
  {
    [b0, b1] + seq(SFPLOG_ENTRY_SIZE - 2, _ => 1)
  }

  lemma RegularTile(b: seq<Byte>, i: nat, b0: Byte, b1: Byte)
    requires i + SFPLOG_ENTRY_SIZE <= |b| && b[i..i + SFPLOG_ENTRY_SIZE] == Regular(b0, b1) && b0 < 0x80
    ensures var j := i + SFPLOG_ENTRY_SIZE;
            && Tiled(b, i, j) && Small(b, i, j) && b[i] == b0 && b[i + 1] == b1
            && Entries(b, i, j) == [Regular(b0, b1)] && (NoEmpty(b, i, j) <==> b0 != 0 || b1 != 0)
  {
    assert b[i] == Regular(b0, b1)[0] && b[i + 1] == Regular(b0, b1)[1];
    OneTile(b, i, i + SFPLOG_ENTRY_SIZE);
  }

  /** A regular entry takes the place of one, at the end of the buffer that at its start. */
  lemma RegularReplacesRegular(l: Log, b0: Byte, b1: Byte) returns (l': Log)
    requires Inv(l) && b0 < 0x80 && (l.delta == |l.buf| || l.delta + SFPLOG_ENTRY_SIZE <= |l.buf|)
    requires |l.buf| >= SFPLOG_ENTRY_SIZE
    requires SizeAt(l.buf, if l.delta == |l.buf| then 0 else l.delta) == SFPLOG_ENTRY_SIZE
    ensures Append(l, Regular(b0, b1)) == Some(l') && Inv(l')
    ensures var pos := if l.delta == |l.buf| then 0 else l.delta;
            var e := pos + SFPLOG_ENTRY_SIZE;
            l' == Log(l.buf[..pos] + Regular(b0, b1) + l.buf[e..], e)
  {
    var pos := if l.delta == |l.buf| then 0 else l.delta;
    var e, entry := pos + SFPLOG_ENTRY_SIZE, Regular(b0, b1);
    l' := Log(l.buf[..pos] + entry + l.buf[e..], e);
    StartKeepsInv(l, |entry|);
    assert Start(l, |entry|) == (l.buf, pos);
    assert Room(l.buf, pos, SFPLOG_ENTRY_SIZE, |entry|) == Some(SFPLOG_ENTRY_SIZE);
    OverwrittenBytes(l.buf, pos, entry);
    var r := Overwritten(l.buf, pos, entry);
    assert r == r[0..pos] + r[pos..e] + r[e..|r|];
    assert l.buf[0..pos] == l.buf[..pos] && l.buf[e..|l.buf|] == l.buf[e..];
    AppendKeepsInv(l, entry);
  }

  /** Three regular entries in a new buffer for two, the second of which starts with a zero
      byte: it is the oldest one then. */
  lemma OldestStartsWithZero() returns (l: Log)
    ensures var l0 := Log(seq(2 * SFPLOG_ENTRY_SIZE, _ => 0), 0);
            Inv(l0) && Run(l0, [Regular(1, 1), Regular(0, 1), Regular(2, 2)]) == Some(l)
    ensures Inv(l) && l.delta < |l.buf| && Earliest(l) == 0 && Tiled(l.buf, 0, |l.buf|)
    ensures Walk(l.buf, 0) == [Regular(2, 2), Regular(0, 1)] && Contents(l) == [Regular(0, 1), Regular(2, 2)]
  {
    var l0 := Log(seq(2 * SFPLOG_ENTRY_SIZE, _ => 0), 0);
    ZeroedBufferIsALog(l0.buf, 2);
    var l1 := RegularReplacesRegular(l0, 1, 1);
    assert l1.buf[SFPLOG_ENTRY_SIZE] == 0;
    var l2 := RegularReplacesRegular(l1, 0, 1);
    assert l2.buf == l1.buf[..SFPLOG_ENTRY_SIZE] + Regular(0, 1);
    l := RegularReplacesRegular(l2, 2, 2);
    assert l.buf == Regular(2, 2) + Regular(0, 1) by {
      assert l2.buf[SFPLOG_ENTRY_SIZE..] == Regular(0, 1);
    }
    ThreeRun(l0, l1, l2, l, Regular(1, 1), Regular(0, 1), Regular(2, 2));
    TwoRegulars(l);
  }

  lemma TwoRegulars(l: Log)
    requires l == Log(Regular(2, 2) + Regular(0, 1), SFPLOG_ENTRY_SIZE)
    ensures Inv(l) && Earliest(l) == 0 && Tiled(l.buf, 0, |l.buf|)
    ensures Walk(l.buf, 0) == [Regular(2, 2), Regular(0, 1)] && Contents(l) == [Regular(0, 1), Regular(2, 2)]
  {
    RegularTile(l.buf, 0, 2, 2);
    RegularTile(l.buf, SFPLOG_ENTRY_SIZE, 0, 1);
    PrintMayStartWrong(l);
  }

  lemma ThreeRun(l0: Log, l1: Log, l2: Log, l3: Log, a: seq<Byte>, b: seq<Byte>, c: seq<Byte>)
    requires Inv(l0) && Inv(l1) && Inv(l2) && |l0.buf| == |l1.buf| == |l2.buf|
    requires IsEntry(a) && IsEntry(b) && IsEntry(c)
    requires |a| <= |l0.buf| && |b| <= |l0.buf| && |c| <= |l0.buf|
    requires Append(l0, a) == Some(l1) && Append(l1, b) == Some(l2) && Append(l2, c) == Some(l3)
    ensures Run(l0, [a, b, c]) == Some(l3)
  {
    assert [a, b, c][1..] == [b, c] && [b, c][1..] == [c] && [c][1..] == [];
    AppendKeepsInv(l2, c);
    assert Run(l2, [c]) == Some(l3);
    assert Run(l1, [b, c]) == Run(l2, [c]);
  }

  /** The place of the next entry holds a filler, and the oldest entry behind it starts with
      a zero byte. */
  lemma OldestStartsWithZeroBehindFiller()
    ensures var l := Log(Regular(2, 2) + [0xE0, 2] + Regular(0, 1), SFPLOG_ENTRY_SIZE);
            && Inv(l) && Earliest(l) == 0 && Tiled(l.buf, 0, |l.buf|)
            && Walk(l.buf, 0) == [Regular(2, 2), Regular(0, 1)] && Contents(l) == [Regular(0, 1), Regular(2, 2)]
  {
    var l := Log(Regular(2, 2) + [0xE0, 2] + Regular(0, 1), SFPLOG_ENTRY_SIZE);
    var next := SFPLOG_ENTRY_SIZE + 2;
    assert l.buf[next..next + SFPLOG_ENTRY_SIZE] == Regular(0, 1);
    RegularTile(l.buf, 0, 2, 2);
    RegularTile(l.buf, next, 0, 1);
    assert l.buf[SFPLOG_ENTRY_SIZE] == 0xE0 && l.buf[SFPLOG_ENTRY_SIZE + 1] == 2;
    FirstTile(l.buf, SFPLOG_ENTRY_SIZE, |l.buf|, next);
    Empty(Entries(l.buf, next, |l.buf|));
    PrintMayStartWrong(l);
  }

  /** An entry starts with two zero bytes, and the print ends before it. */
  lemma PrintEndsEarly()
    ensures var l := Log(Regular(2, 2) + Regular(0, 0) + Regular(3, 3), 2 * SFPLOG_ENTRY_SIZE);
            && Inv(l) && StartsRight(l) && Earliest(l) == l.delta && Tiled(l.buf, l.delta, |l.buf|)
            && Walk(l.buf, l.delta) == [Regular(3, 3), Regular(2, 2)]
            && Contents(l) == [Regular(3, 3), Regular(2, 2), Regular(0, 0)]
  {
    var l := Log(Regular(2, 2) + Regular(0, 0) + Regular(3, 3), 2 * SFPLOG_ENTRY_SIZE);
    var b, d := l.buf, 2 * SFPLOG_ENTRY_SIZE;
    assert b[d..d + SFPLOG_ENTRY_SIZE] == Regular(3, 3);
    TwoTiles(b);
    RegularTile(b, d, 3, 3);
    AllPrinted(b, d, |b|);
  }

  lemma TwoTiles(b: seq<Byte>)
    requires |b| >= 2 * SFPLOG_ENTRY_SIZE && b[..SFPLOG_ENTRY_SIZE] == Regular(2, 2)
    requires b[SFPLOG_ENTRY_SIZE..2 * SFPLOG_ENTRY_SIZE] == Regular(0, 0)
    ensures var d := 2 * SFPLOG_ENTRY_SIZE;
            && Tiled(b, 0, d) && Small(b, 0, d) && Entries(b, 0, d) == [Regular(2, 2), Regular(0, 0)]
            && Printed(b, 0, d) == [Regular(2, 2)]
  {
    var i, d := SFPLOG_ENTRY_SIZE, 2 * SFPLOG_ENTRY_SIZE;
    assert b[0..i] == b[..i];
    RegularTile(b, 0, 2, 2);
    RegularTile(b, i, 0, 0);
    TilesJoin(b, 0, i, d);
    PrintedInParts(b, 0, i, d);
    AllPrinted(b, 0, i);
    assert Printed(b, i, d) == [];
  }

  // ----- The entries that are logged

  /** The entry of sfp_log: its first bit is zero, or its first two are one and zero. */
  function NumberEntry(proto: seq<Byte>): (r: seq<Byte>)
    requires |proto| == SFPLOG_ENTRY_SIZE || |proto| == SFPLOG_EXTENDED_ENTRY_SIZE
    ensures IsEntry(r) && |r| == |proto| && r[1..] == proto[1..]
    ensures |r| == SFPLOG_ENTRY_SIZE ==> r[0] < 0x80 && r[0] % 0x80 == proto[0] % 0x80
    ensures |r| == SFPLOG_EXTENDED_ENTRY_SIZE ==> r[0] / 0x40 == 2 && r[0] % 0x40 == proto[0] % 0x40
  {
    if |proto| == SFPLOG_ENTRY_SIZE then proto[0 := proto[0] % 0x80] else proto[0 := 0x80 + proto[0] % 0x40]
  }

  /** The entry of sfp_log_str: type and severity, length, four bytes of time and the
      text. */
  function StringEntry(severity: Byte, time: seq<Byte>, text: seq<Byte>): (r: seq<Byte>)
    requires |time| == 4 && 0 < |text| <= 80
    ensures IsEntry(r) && |r| == |text| + SFPLOG_STRING_ENTRYHEADER_SIZE && r[SFPLOG_STRING_ENTRYHEADER_SIZE..] == text
    ensures r[0] / 8 == 0x18 && r[0] % 8 == severity % 8 && r[1] == |text| && r[2..6] == time
  {
    [0xC0 + severity % 8, |text|] + time + text
  }

  predicate TextPasses(n: nat, bufferSize: nat) {
    0 < n <= 80 && n <= bufferSize
  }

  predicate EntryFits(n: nat, bufferSize: nat) {
    n + SFPLOG_STRING_ENTRYHEADER_SIZE <= bufferSize
  }

  /** sfp_log_str checks the length of the text against the buffer, not that of the entry.
      The check is enough for all texts exactly when the longest entry fits. */
  lemma TextCheckIsEnoughExactlyWhen(bufferSize: nat)
    ensures (forall n :: TextPasses(n, bufferSize) ==> EntryFits(n, bufferSize)) <==>
            bufferSize == 0 || bufferSize >= 86
  {
    var n := if bufferSize < 80 then bufferSize else 80;
    assert bufferSize != 0 && bufferSize < 86 ==> TextPasses(n, bufferSize) && !EntryFits(n, bufferSize);
  }

  // ----- The database

  class Database {
    const buf: array<Byte>
    var nextEntryDelta: nat

    ghost function State(): Log
      reads this, buf
    {
      Log(buf[..], nextEntryDelta)
    }

    ghost predicate Valid()
      reads this, buf
    {
      Inv(State())
    }

    /** A zeroed buffer. */
    constructor (n: nat)
      ensures Valid() && fresh(buf) && buf.Length == SFPLOG_ENTRY_SIZE * n && nextEntryDelta == 0
      ensures forall k :: 0 <= k < buf.Length ==> buf[k] == 0
    {
      buf := new Byte[SFPLOG_ENTRY_SIZE * n](_ => 0);
      nextEntryDelta := 0;
      new;
      ZeroedBufferIsALog(buf[..], n);
    }

    method WriteFiller(at: nat, size: nat)
      requires at + 1 < buf.Length
      modifies buf
      ensures buf[..] == Mark(old(buf[..]), at, size)
    {
      buf[at] := 0xE0 + size / 256 % 16;
      buf[at + 1] := size % 256;
    }

    /** The do-while loop of sfpdb_get_next_entry. */
    method ClearRoom(pos: nat, e: nat) returns (lengthCleared: nat)
      requires Inv(Log(buf[..], pos)) && 2 <= e && pos + e <= buf.Length && pos + e + 1 != buf.Length
      ensures Room(buf[..], pos, 0, e) == Some(lengthCleared)
    {
      RoomRunsOffExactlyWhen(buf[..], pos, 0, e);
      lengthCleared := 0;
      var more := true;
      while more
        invariant pos + lengthCleared <= buf.Length && Tiled(buf[..], pos + lengthCleared, buf.Length)
        invariant Room(buf[..], pos, lengthCleared, e) == Room(buf[..], pos, 0, e)
        invariant more == !Enough(lengthCleared, e)
        decreases buf.Length - lengthCleared, more
      {
        var psearchroom := pos + lengthCleared;
        assert psearchroom != buf.Length;
        var roomForEntry := Size(buf[psearchroom], buf[psearchroom + 1]);
        lengthCleared := lengthCleared + roomForEntry;
        more := lengthCleared < e + SFPLOG_EMPTY_FILLER_MIN_SIZE && lengthCleared != e;
      }
    }

    method WrapIfNeeded(e: nat)
      requires Valid() && 2 <= e <= LONGEST_ENTRY && e <= buf.Length
      modifies this, buf
      ensures (buf[..], nextEntryDelta) == Start(old(State()), e)
      ensures Valid() && nextEntryDelta + e <= buf.Length
    {
      StartKeepsInv(State(), e);
      if nextEntryDelta + e > buf.Length {
        if buf.Length - nextEntryDelta >= SFPLOG_EMPTY_FILLER_MIN_SIZE {
          WriteFiller(nextEntryDelta, buf.Length - nextEntryDelta);
        }
        nextEntryDelta := 0;
      }
    }

    /** sfpdb_get_next_entry: the place for an entry of `e` bytes, with fillers written
        around it. */
    method GetNextEntry(e: nat) returns (pos: nat, ghost b: seq<Byte>, ghost c: nat)
      requires Valid() && 2 <= e <= LONGEST_ENTRY && e <= buf.Length
      requires Start(State(), e).1 + e + 1 != buf.Length
      modifies this, buf
      ensures (b, pos) == Start(old(State()), e) && nextEntryDelta == pos + e <= buf.Length == |b|
      ensures Inv(Log(b, pos)) && Room(b, pos, 0, e) == Some(c) && pos + c <= |b| && Enough(c, e)
      ensures buf[..] == if c != e then Mark(b, pos + e, c - e) else b
    {
      WrapIfNeeded(e);
      b := buf[..];
      pos := nextEntryDelta;
      nextEntryDelta := nextEntryDelta + e;
      var lengthCleared := ClearRoom(pos, e);
      RoomFound(b, pos, 0, e);
      c := lengthCleared;
      if lengthCleared != e {
        WriteFiller(pos + e, lengthCleared - e);
      }
    }

    /** The memcpy of the callers. */
    method CopyIn(pos: nat, data: seq<Byte>)
      requires pos + |data| <= buf.Length
      modifies buf
      ensures buf[..] == Overwritten(old(buf[..]), pos, data)
    {
      for i := 0 to |data|
        invariant Overwritten(buf[..], pos + i, data[i..]) == Overwritten(old(buf[..]), pos, data)
      {
        assert data[i..][1..] == data[i + 1..];
        buf[pos + i] := data[i];
      }
    }

    /** The append half of sfp_log and sfp_log_str, once their checks are passed. */
    method LogEntry(entry: seq<Byte>)
      requires Valid() && IsEntry(entry) && |entry| <= buf.Length
      requires Start(State(), |entry|).1 + |entry| + 1 != buf.Length
      modifies this, buf
      ensures Valid() && Append(old(State()), entry) == Some(State())
    {
      var pos, b, c := GetNextEntry(|entry|);
      ghost var l' := Appended(old(State()), entry, b, pos, c);
      CopyIn(pos, entry);
      assert State() == l';
    }

    /** The last part of sfp_log, for an entry of 20 or 24 bytes. */
    method LogNumbers(proto: seq<Byte>, preventEntries: bool) returns (ret: int)
      requires Valid() && (|proto| == SFPLOG_ENTRY_SIZE || |proto| == SFPLOG_EXTENDED_ENTRY_SIZE)
      requires |proto| <= buf.Length ==> Start(State(), |proto|).1 + |proto| + 1 != buf.Length
      modifies this, buf
      ensures Valid() && ret == if |proto| > buf.Length then -1 else 0
      ensures if ret == 0 && !preventEntries then Append(old(State()), NumberEntry(proto)) == Some(State())
              else State() == old(State())
    {
      var entry := NumberEntry(proto);
      if |entry| > buf.Length {
        return -1;
      }
      if !preventEntries {
        LogEntry(entry);
      }
      ret := 0;
    }

    /** The last part of sfp_log_str. Its own check is of the text, not of the entry: in a
        buffer of up to 85 bytes an entry that does not fit may pass it, and would be written
        over the end. Such a text is excluded here. */
    method LogString(severity: Byte, time: seq<Byte>, text: seq<Byte>, preventEntries: bool) returns (ret: int)
      requires Valid() && |time| == 4 && 0 < |text| <= 80
      requires TextPasses(|text|, buf.Length) ==> EntryFits(|text|, buf.Length)
      requires var e := |text| + SFPLOG_STRING_ENTRYHEADER_SIZE;
               e <= buf.Length ==> Start(State(), e).1 + e + 1 != buf.Length
      modifies this, buf
      ensures Valid() && ret == if |text| > buf.Length then -1 else 0
      ensures if ret == 0 && !preventEntries then
                Append(old(State()), StringEntry(severity, time, text)) == Some(State())
              else State() == old(State())
    {
      if |text| > buf.Length {
        return -1;
      }
      if !preventEntries {
        LogEntry(StringEntry(severity, time, text));
      }
      ret := 0;
    }

    /** sfpdb_get_earliest_entry. At the end of the buffer it would read the byte behind
        it. */
    method GetEarliestEntry() returns (start: nat)
      requires Valid() && nextEntryDelta < buf.Length
      ensures start == Earliest(State())
    {
      var d := nextEntryDelta;
      if buf[d] == 0 {
        return 0;
      }
      if IsFiller(buf[d]) {
        var fillerSize := Size(buf[d], buf[d + 1]);
        if d + fillerSize >= buf.Length {
          return 0;
        }
        if buf[d + fillerSize] == 0 {
          return 0;
        }
        return d + fillerSize;
      }
      start := d;
    }

    /** print_db_buffer. */
    method PrintDbBuffer() returns (printed: seq<seq<Byte>>)
      requires Valid() && nextEntryDelta < buf.Length
      ensures var s := Earliest(State());
              && s <= buf.Length && Tiled(buf[..], 0, s) && Tiled(buf[..], s, buf.Length)
              && printed == Walk(buf[..], s)
    {
      EarliestIsABoundary(State());
      var start := GetEarliestEntry();
      printed := WalkFrom(start);
    }

    method WalkFrom(start: nat) returns (printed: seq<seq<Byte>>)
      requires start < buf.Length && Tiled(buf[..], 0, start) && Tiled(buf[..], start, buf.Length)
      ensures printed == Walk(buf[..], start)
    {
      ghost var b := buf[..];
      printed := [];
      var entryp: nat, wrap := start, false;
      Empty(Walk(b, start));
      while if wrap then start > entryp else entryp < buf.Length
        invariant entryp <= End(b, start, wrap) && Tiled(b, entryp, End(b, start, wrap))
        invariant !wrap ==> entryp < buf.Length
        invariant printed + ToPrint(b, start, entryp, wrap) == Walk(b, start)
        decreases !wrap, buf.Length - entryp
      {
        if buf[entryp] == 0 && buf[entryp + 1] == 0 {
          NextPrinted(b, start, entryp, wrap, printed);
          return;
        }
        entryp, wrap, printed := Advance(b, start, entryp, wrap, printed);
      }
      Empty(printed);
    }

    /** Prints an entry and goes on to the next, from the end of the buffer to its start. */
    method Advance(ghost b: seq<Byte>, start: nat, i: nat, wrap: bool, sofar: seq<seq<Byte>>)
      returns (entryp: nat, wrapped: bool, printed: seq<seq<Byte>>)
      requires b == buf[..] && start < |b| && Tiled(b, 0, start)
      requires i < End(b, start, wrap) && Tiled(b, i, End(b, start, wrap)) && !IsEmpty(b, i)
      ensures entryp <= End(b, start, wrapped) && Tiled(b, entryp, End(b, start, wrapped))
      ensures !wrapped ==> entryp < |b|
      ensures printed + ToPrint(b, start, entryp, wrapped) == sofar + ToPrint(b, start, i, wrap)
      ensures (wrapped && !wrap) || (wrapped == wrap && entryp > i)
    {
      NextPrinted(b, start, i, wrap, sofar);
      var delta;
      printed, delta := PrintEntry(b, i, sofar);
      entryp, wrapped := i + delta, wrap;
      if entryp >= buf.Length {
        Wraps(b, start);
        entryp := 0;
        wrapped := true;
      }
    }

    method PrintEntry(ghost b: seq<Byte>, entryp: nat, sofar: seq<seq<Byte>>)
      returns (printed: seq<seq<Byte>>, delta: nat)
      requires b == buf[..] && entryp + 1 < |b| && entryp + SizeAt(b, entryp) <= |b|
      ensures delta == SizeAt(b, entryp)
      ensures printed == if IsFiller(b[entryp]) then sofar else sofar + [b[entryp..entryp + delta]]
    {
      printed := sofar;
      delta := Size(buf[entryp], buf[entryp + 1]);
      if !IsFiller(buf[entryp]) {
        printed := printed + [buf[entryp..entryp + delta]];
        assert buf[entryp..entryp + delta] == b[entryp..entryp + delta];
      }
    }
  }

  lemma Appended(l: Log, entry: seq<Byte>, b: seq<Byte>, pos: nat, c: nat) returns (l': Log)
    requires Inv(l) && IsEntry(entry) && |entry| <= |l.buf| && Start(l, |entry|).1 + |entry| + 1 != |l.buf|
    requires (b, pos) == Start(l, |entry|) && |b| == |l.buf| && pos + |entry| <= |b| && Inv(Log(b, pos))
    requires Room(b, pos, 0, |entry|) == Some(c) && pos + c <= |b| && Enough(c, |entry|)
    ensures l' == Log(Placed(b, pos, c, entry), pos + |entry|) && Append(l, entry) == Some(l') && Inv(l')
  {
    AppendRunsOffExactlyWhen(l, entry);
    AppendIsPlacing(l, entry, b, pos);
    AppendKeepsInv(l, entry);
    l' := Append(l, entry).value;
  }

  /** Where the walk goes to before and after it wraps. */
  function End(b: seq<Byte>, start: nat, wrap: bool): nat {
    if wrap then start else |b|
  }

  /** What is still to be printed at a point of the walk. */
  function ToPrint(b: seq<Byte>, start: nat, i: nat, wrap: bool): seq<seq<Byte>>
    requires start <= |b| && Tiled(b, 0, start) && Tiled(b, i, End(b, start, wrap))
  {
    Printed(b, i, End(b, start, wrap)) + (if !wrap && NoEmpty(b, i, |b|) then Printed(b, 0, start) else [])
  }

  lemma Wraps(b: seq<Byte>, start: nat)
    requires start <= |b| && Tiled(b, 0, start)
    ensures ToPrint(b, start, |b|, false) == ToPrint(b, start, 0, true)
  {
    assert [] + Printed(b, 0, start) == Printed(b, 0, start) + [];
  }

  lemma PrintedOneMore(b: seq<Byte>, i: nat, j: nat, sofar: seq<seq<Byte>>)
    requires i < j && Tiled(b, i, j) && !IsEmpty(b, i)
    ensures var next := i + SizeAt(b, i);
            && sofar + Printed(b, i, j)
               == (if IsFiller(b[i]) then sofar else sofar + [b[i..next]]) + Printed(b, next, j)
            && NoEmpty(b, i, j) == NoEmpty(b, next, j)
  {
    var next := i + SizeAt(b, i);
    var one := if IsFiller(b[i]) then [] else [b[i..next]];
    Associative(sofar, one, Printed(b, next, j));
    Empty(sofar);
  }

  /** A step of the walk. */
  lemma NextPrinted(b: seq<Byte>, start: nat, i: nat, wrap: bool, sofar: seq<seq<Byte>>)
    requires start <= |b| && Tiled(b, 0, start) && i < End(b, start, wrap) && Tiled(b, i, End(b, start, wrap))
    ensures IsEmpty(b, i) ==> sofar + ToPrint(b, start, i, wrap) == sofar
    ensures !IsEmpty(b, i) ==>
              var next := i + SizeAt(b, i);
              sofar + ToPrint(b, start, i, wrap)
                == (if IsFiller(b[i]) then sofar else sofar + [b[i..next]]) + ToPrint(b, start, next, wrap)
  {
    if IsEmpty(b, i) {
      Empty(sofar);
    } else {
      var next, end := i + SizeAt(b, i), End(b, start, wrap);
      PrintedOneMore(b, i, end, sofar);
      var rest := if !wrap && NoEmpty(b, i, |b|) then Printed(b, 0, start) else [];
      Associative(sofar, Printed(b, i, end), rest);
      Associative(if IsFiller(b[i]) then sofar else sofar + [b[i..next]], Printed(b, next, end), rest);
    }
  }
}
