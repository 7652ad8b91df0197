/** Uptime and system time kept from the RTOS tick (timex.c).

    Two 64-bit counters follow the tick: the tick count itself and the count up to
    which whole seconds have been added to the uptime. One tick is a millisecond. */
module Timex {
  const INT64_MAX: int := 0x7fff_ffff_ffff_ffff
  const SECOND: int := 1000

  /** What moves the clock: one tick, or a jump after a tickless sleep. */
  datatype Event = Tick | Jump(ticks: nat)

  function Elapsed(events: seq<Event>): (n: nat) {
    if events == [] then 0
    else Elapsed(events[..|events| - 1]) +
         match events[|events| - 1] { case Tick => 1 case Jump(t) => t }
  }

  function Jumps(events: seq<Event>): nat {
    if events == [] then 0
    else Jumps(events[..|events| - 1]) + if events[|events| - 1].Jump? then 1 else 0
  }

  datatype Clock = Clock(up: int, count: int, counted: int)

  const BOOT := Clock(0, 0, 0)

  /** Ticks since the last whole second was added; the counters wrap to zero after
      INT64_MAX. */
  function Diff(count: int, counted: int): int {
    if count >= counted then count - counted else INT64_MAX - counted + count
  }

  /** Moves the counter up to which seconds have been added. */
  function Advance(counted: int, step: int): int {
    if INT64_MAX - step >= counted then counted + step else step - (INT64_MAX - counted) - 1
  }

  /** Both counters run modulo 2 to the 63. The one moved over the end keeps step; the
      difference over the end comes out one short, so that a millisecond is lost there. */
  lemma OverTheEnd(count: int, counted: int, step: int)
    requires 0 <= count <= INT64_MAX && 0 <= counted <= INT64_MAX && 0 <= step <= INT64_MAX
    ensures Advance(counted, step) == (counted + step) % (INT64_MAX + 1)
    ensures Diff(count, counted) == (count - counted) % (INT64_MAX + 1) - if count < counted then 1 else 0
  {
    Residue(counted + step, counted + step - (INT64_MAX + 1));
    Residue(count - counted, count - counted + INT64_MAX + 1);
  }

  lemma Residue(n: int, other: int)
    requires other == n + INT64_MAX + 1 || other == n - (INT64_MAX + 1)
    ensures 0 <= n <= INT64_MAX ==> n % (INT64_MAX + 1) == n
    ensures 0 <= other <= INT64_MAX ==> n % (INT64_MAX + 1) == other
  {}

  function Step(c: Clock, e: Event): Clock {
    var ahead := match e { case Tick => 1 case Jump(t) => t };
    var count := if c.count == INT64_MAX then 0 else c.count + ahead;
    var diff := Diff(count, c.counted);
    if diff <= SECOND then c.(count := count)
    else match e
         case Tick => Clock(c.up + 1, count, Advance(c.counted, SECOND))
         case Jump(_) => Clock(c.up + diff / SECOND, count, Advance(c.counted, diff))
  }

  function Run(events: seq<Event>): Clock {
    if events == [] then BOOT else Step(Run(events[..|events| - 1]), events[|events| - 1])
  }

  /** Milliseconds that have passed and never reach the uptime. */
  function Lost(events: seq<Event>): int {
    var c := Run(events);
    Elapsed(events) - SECOND * c.up - (c.count - c.counted)
  }

  /** Before the 64-bit wrap every elapsed millisecond is in the uptime, in the part
      of a second not yet added, or lost; a tick loses none and a jump loses the
      part of a second it completes, at most 999 ms. */
  lemma {:induction false} Conservation(events: seq<Event>)
    requires Elapsed(events) <= INT64_MAX - SECOND
    ensures Run(events).count == Elapsed(events)
    ensures 0 <= Run(events).count - Run(events).counted <= SECOND
    ensures 0 <= Run(events).counted && 0 <= Run(events).up
    ensures SECOND * Run(events).up <= Elapsed(events)
    ensures 0 <= Lost(events) <= 999 * Jumps(events)
    decreases |events|
  {
    if events != [] {
      Conservation(events[..|events| - 1]);
      LostPerEvent(events[..|events| - 1], events[|events| - 1]);
    }
  }

  /** What one event loses, exactly, and the whole seconds it adds: none before the
      part still to be added exceeds a second. */
  lemma LostPerEvent(before: seq<Event>, e: Event)
    requires Elapsed(before + [e]) <= INT64_MAX - SECOND
    requires Run(before).count == Elapsed(before)
    requires 0 <= Run(before).count - Run(before).counted <= SECOND
    requires 0 <= Run(before).counted
    ensures Run(before + [e]) == Step(Run(before), e)
    ensures Elapsed(before + [e]) == Elapsed(before) + match e { case Tick => 1 case Jump(t) => t }
    ensures e.Tick? ==> Lost(before + [e]) == Lost(before)
    ensures e.Jump? ==>
              var d := Run(before).count + e.ticks - Run(before).counted;
              Lost(before + [e]) == Lost(before) + if d <= SECOND then 0 else d % SECOND
    ensures var d := Elapsed(before + [e]) - Run(before).counted;
            Run(before + [e]).up == Run(before).up + if d <= SECOND then 0 else d / SECOND
  {
    hide Step;
    assert (before + [e])[..|before|] == before;
    assert (before + [e])[|before|] == e;
    LostInStep(Run(before), e);
  }

  /** The same on the counters, which do not wrap here. */
  lemma LostInStep(c: Clock, e: Event)
    requires 0 <= c.counted <= c.count <= c.counted + SECOND
    requires c.count + (match e { case Tick => 1 case Jump(t) => t }) <= INT64_MAX - SECOND
    ensures var c' := Step(c, e);
            var ahead := match e { case Tick => 1 case Jump(t) => t };
            var d := c.count + ahead - c.counted;
            var lost := if e.Tick? || d <= SECOND then 0 else d % SECOND;
            && c'.count == c.count + ahead && c'.up == c.up + (if d <= SECOND then 0 else d / SECOND)
            && SECOND * c'.up + (c'.count - c'.counted) + lost == SECOND * c.up + (c.count - c.counted) + ahead
  {}

  /** The bound is reached: every jump of 1999 ms taken on a full second loses 999. */
  lemma {:induction false} LostIsTight(n: nat)
    requires 1999 * n <= INT64_MAX - SECOND
    ensures Lost(seq(n, _ => Jump(1999))) == 999 * n
    ensures Elapsed(seq(n, _ => Jump(1999))) == 1999 * n
    ensures Run(seq(n, _ => Jump(1999))) == Clock(n, 1999 * n, 1999 * n)
  {
    var all := seq(n, _ => Jump(1999));
    if n > 0 {
      LostIsTight(n - 1);
      assert all[..n - 1] == seq(n - 1, _ => Jump(1999));
    }
  }

  /** Without jumps nothing is lost, and a second reaches the uptime with the first
      tick after it is over. */
  lemma {:induction false} TicksAloneLoseNothing(events: seq<Event>)
    requires Elapsed(events) <= INT64_MAX - SECOND
    requires forall e :: e in events ==> e.Tick?
    ensures Lost(events) == 0
    ensures Run(events).up == if events == [] then 0 else (Elapsed(events) - 1) / SECOND
  {
    Conservation(events);
    NoJumps(events);
    if events != [] {
      NeverOnTheSecond(events);
    }
  }

  /** After a tick some part of a second is always still to be added. */
  lemma {:induction false} NeverOnTheSecond(events: seq<Event>)
    requires Elapsed(events) <= INT64_MAX - SECOND && events != []
    requires forall e :: e in events ==> e.Tick?
    ensures 0 < Run(events).count - Run(events).counted <= SECOND
  {
    var before := events[..|events| - 1];
    assert events[|events| - 1] in events;
    Conservation(before);
    Conservation(events);
  }

  lemma {:induction false} NoJumps(events: seq<Event>)
    requires forall e :: e in events ==> e.Tick?
    ensures Jumps(events) == 0
  {
    if events != [] {
      NoJumps(events[..|events| - 1]);
      assert events[|events| - 1] in events;
    }
  }

  /** The uptime never goes back, and neither does the time lost. */
  lemma {:induction false} UptimeIsMonotone(before: seq<Event>, after: seq<Event>)
    requires Elapsed(before + after) <= INT64_MAX - SECOND
    ensures Run(before).up <= Run(before + after).up
    ensures Lost(before) <= Lost(before + after)
    decreases |after|
  {
    if after == [] {
      assert before + after == before;
    } else {
      var last := |after| - 1;
      var all := before + after[..last];
      assert before + after == all + [after[last]];
      assert (all + [after[last]])[..|all|] == all;
      UptimeIsMonotone(before, after[..last]);
      Conservation(all);
      LostPerEvent(all, after[last]);
    }
  }

  lemma OneMoreEvent(atSet: seq<Event>, since: seq<Event>, e: Event)
    ensures Run(atSet + since + [e]) == Step(Run(atSet + since), e)
    ensures atSet + since + [e] == atSet + (since + [e])
  {
    assert (atSet + since + [e])[..|atSet + since|] == atSet + since;
  }

  /** What time() reads after stime(t) after `atSet` and the events `since`. */
  function TimeRead(t: int, atSet: seq<Event>, since: seq<Event>): int {
    var delta := t - Run(atSet).up;
    Run(atSet + since).up + delta
  }

  /** The static variables of timex.c and the functions that use them. At boot the system
      time is zero. */
  class TimeKeeper {
    var upTime: int
    var deltaSystemTime: int
    var x64TickCnt: int
    var x64PrevUpdateTickCnt: int
    ghost var history: seq<Event>
    ghost var setTo: int         // what the latest stime() set,
    ghost var atSet: seq<Event>  // when it did,
    ghost var since: seq<Event>  // and what has happened since

    ghost predicate Valid()
      reads this
    {
      && Clock(upTime, x64TickCnt, x64PrevUpdateTickCnt) == Run(history)
      && history == atSet + since && deltaSystemTime == setTo - Run(atSet).up
    }

    constructor ()
      ensures Valid() && atSet == since == [] && setTo == 0
    {
      upTime, deltaSystemTime, x64TickCnt, x64PrevUpdateTickCnt := 0, 0, 0, 0;
      history, setTo, atSet, since := [], 0, [], [];
    }

    method TickHook()
      requires Valid()
      modifies this
      ensures Valid() && history == old(history) + [Tick]
      ensures since == old(since) + [Tick] && atSet == old(atSet) && setTo == old(setTo)
    {
      hide Step, Run;
      OneMoreEvent(atSet, since, Tick);
      CountTick();
      history, since := history + [Tick], since + [Tick];
    }

    method CountTick()
      modifies this`upTime, this`x64TickCnt, this`x64PrevUpdateTickCnt
      ensures Clock(upTime, x64TickCnt, x64PrevUpdateTickCnt)
           == Step(old(Clock(upTime, x64TickCnt, x64PrevUpdateTickCnt)), Tick)
    {
      x64TickCnt := if INT64_MAX == x64TickCnt then 0 else x64TickCnt + 1;
      var diff := if x64TickCnt >= x64PrevUpdateTickCnt then x64TickCnt - x64PrevUpdateTickCnt
                  else INT64_MAX - x64PrevUpdateTickCnt + x64TickCnt;
      if diff > SECOND {
        upTime := upTime + 1;
        x64PrevUpdateTickCnt :=
          if INT64_MAX - SECOND >= x64PrevUpdateTickCnt then x64PrevUpdateTickCnt + SECOND
          else SECOND - (INT64_MAX - x64PrevUpdateTickCnt) - 1;
      }
    }

    method TraceTickCount(ticksToJump: nat)
      requires Valid()
      modifies this
      ensures Valid() && history == old(history) + [Jump(ticksToJump)]
      ensures since == old(since) + [Jump(ticksToJump)] && atSet == old(atSet) && setTo == old(setTo)
    {
      hide Step, Run;
      OneMoreEvent(atSet, since, Jump(ticksToJump));
      CountJump(ticksToJump);
      history, since := history + [Jump(ticksToJump)], since + [Jump(ticksToJump)];
    }

    method CountJump(ticksToJump: nat)
      modifies this`upTime, this`x64TickCnt, this`x64PrevUpdateTickCnt
      ensures Clock(upTime, x64TickCnt, x64PrevUpdateTickCnt)
           == Step(old(Clock(upTime, x64TickCnt, x64PrevUpdateTickCnt)), Jump(ticksToJump))
    {
      x64TickCnt := if INT64_MAX == x64TickCnt then 0 else x64TickCnt + ticksToJump;
      var diff := if x64TickCnt >= x64PrevUpdateTickCnt then x64TickCnt - x64PrevUpdateTickCnt
                  else INT64_MAX - x64PrevUpdateTickCnt + x64TickCnt;
      if diff > SECOND {
        upTime := upTime + diff / SECOND;
        x64PrevUpdateTickCnt :=
          if INT64_MAX - diff >= x64PrevUpdateTickCnt then x64PrevUpdateTickCnt + diff
          else diff - (INT64_MAX - x64PrevUpdateTickCnt) - 1;
      }
    }

    /** The time set and the seconds counted since. */
    method Time() returns (t: int)
      requires Valid()
      ensures t == TimeRead(setTo, atSet, since)
    {
      t := upTime + deltaSystemTime;
    }

    /** From the moment it is set the system time advances with the uptime. */
    method SetTime(t: int)
      requires Valid()
      modifies this`deltaSystemTime, this`setTo, this`atSet, this`since
      ensures Valid() && setTo == t && atSet == history && since == []
    {
      deltaSystemTime := t - upTime;
      setTo, atSet, since := t, history, [];
    }

    method Uptime() returns (t: int)
      requires Valid()
      ensures t == Run(history).up
    {
      t := upTime;
    }
  }

  /** The system time starts at the value set, never goes back before the next
      stime, and never runs ahead of the ticks by more than a second. */
  lemma SystemTime(t: int, atSet: seq<Event>, since: seq<Event>, more: seq<Event>)
    requires Elapsed(atSet + since + more) <= INT64_MAX - SECOND
    ensures TimeRead(t, atSet, []) == t
    ensures t <= TimeRead(t, atSet, since) <= TimeRead(t, atSet, since + more)
    ensures SECOND * (TimeRead(t, atSet, since) - t) <= Elapsed(atSet + since) - Elapsed(atSet) + SECOND
  {
    assert atSet + [] == atSet;
    assert atSet + (since + more) == atSet + since + more;
    ElapsedPrefix(atSet + since, more);
    ElapsedPrefix(atSet, since);
    Conservation(atSet);
    Conservation(atSet + since);
    UptimeIsMonotone(atSet, since);
    UptimeIsMonotone(atSet + since, more);
  }

  lemma {:induction false} ElapsedPrefix(before: seq<Event>, after: seq<Event>)
    ensures Elapsed(before) <= Elapsed(before + after)
    decreases |after|
  {
    if after == [] {
      assert before + after == before;
    } else {
      ElapsedPrefix(before, after[..|after| - 1]);
      assert (before + after)[..|before + after| - 1] == before + after[..|after| - 1];
    }
  }
}
