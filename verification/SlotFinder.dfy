/**
 The slot search: a cursor that jumps over nights, a cap on candidates, a score, a sort and a cut.
 Instants are microseconds since midnight of day 0; the cursor always stands on a whole minute and
 is counted in minutes.
 */
module SlotFinder {
  import opened Availability
  import Civil
  import Text

  const WORK_HOUR_START := 9
  const WORK_HOUR_END := 18
  const SLOT_INTERVAL := 30
  const MAX_SLOTS := 8
  const MINUTE := 60_000_000
  const DAY := 1440

  datatype Slot = Slot(start: nat, end: int, score: int)

  function HourOf(t: int): int {
    t % DAY / 60
  }

  function MinuteOf(t: int): int {
    t % 60
  }

  // ---------------------------------------------------------------- the cursor

  function NineOf(instant: nat): nat {
    instant / MINUTE / DAY * DAY + WORK_HOUR_START * 60
  }

  /** Nine o'clock of the first day or, when that is past, the half hour after now. */
  function FirstCursor(dateFrom: nat, now: nat): nat {
    if NineOf(dateFrom) * MINUTE < now then
      var minute := MinuteOf(now / MINUTE);
      now / MINUTE - minute + (minute / SLOT_INTERVAL + 1) * SLOT_INTERVAL
    else NineOf(dateFrom)
  }

  lemma FirstCursorIsLeast(dateFrom: nat, now: nat)
    ensures var first := FirstCursor(dateFrom, now);
            && first % SLOT_INTERVAL == 0
            && (NineOf(dateFrom) * MINUTE < now ==>
                  first * MINUTE > now && forall t: int | t % SLOT_INTERVAL == 0 && t * MINUTE > now :: first <= t)
            && (NineOf(dateFrom) * MINUTE >= now ==> first == NineOf(dateFrom))
  {
    NineIsAligned(dateFrom);
    if NineOf(dateFrom) * MINUTE < now {
      NextHalfHour(now / MINUTE);
      var first := FirstCursor(dateFrom, now);
      hide NineOf, FirstCursor, MinuteOf;
      LeastAfter(now, first);
    }
  }

  lemma NineIsAligned(dateFrom: nat)
    ensures NineOf(dateFrom) % SLOT_INTERVAL == 0
  {
  }

  lemma NextHalfHour(m: nat)
    ensures var next := m - MinuteOf(m) + (MinuteOf(m) / SLOT_INTERVAL + 1) * SLOT_INTERVAL;
            next % SLOT_INTERVAL == 0 && next - SLOT_INTERVAL <= m < next
  {
    var minute := MinuteOf(m);
    var half := if minute < SLOT_INTERVAL then 1 else 2;
    assert minute / SLOT_INTERVAL + 1 == half;
    assert m - minute + half * SLOT_INTERVAL == SLOT_INTERVAL * (2 * (m / 60) + half) + 0;
    Remainder(2 * (m / 60) + half, 0, SLOT_INTERVAL);
  }

  lemma LeastAfter(now: nat, first: nat)
    requires first % SLOT_INTERVAL == 0 && first - SLOT_INTERVAL <= now / MINUTE < first
    ensures first * MINUTE > now && forall t: int | t % SLOT_INTERVAL == 0 && t * MINUTE > now :: first <= t
  {
  }

  /** The only first cursors before nine come from a clock between 23:30 and 8:30. */
  lemma FirstCursorBeforeNine(dateFrom: nat, now: nat)
    ensures HourOf(FirstCursor(dateFrom, now)) < WORK_HOUR_START
            <==> NineOf(dateFrom) * MINUTE < now
                 && (now / MINUTE % DAY < 8 * 60 + 30 || now / MINUTE % DAY >= 23 * 60 + 30)
  {
    if NineOf(dateFrom) * MINUTE < now {
      HalfHourAfter(now / MINUTE);
    } else {
      assert NineOf(dateFrom) % DAY == WORK_HOUR_START * 60;
    }
  }

  lemma HalfHourAfter(m: nat)
    ensures var next := m - MinuteOf(m) + (MinuteOf(m) / SLOT_INTERVAL + 1) * SLOT_INTERVAL;
            HourOf(next) < WORK_HOUR_START <==> m % DAY < 8 * 60 + 30 || m % DAY >= 23 * 60 + 30
  {
    var next := m - MinuteOf(m) + (MinuteOf(m) / SLOT_INTERVAL + 1) * SLOT_INTERVAL;
    var past := m % SLOT_INTERVAL;
    assert next == m - past + SLOT_INTERVAL;
    HalfHoursOfDay(m, past);
  }

  lemma HalfHoursOfDay(m: nat, past: nat)
    requires past == m % SLOT_INTERVAL
    ensures HourOf(m - past + SLOT_INTERVAL) < WORK_HOUR_START <==> m % DAY < 8 * 60 + 30 || m % DAY >= 23 * 60 + 30
  {
    Aligned(m);
    var d := m % DAY;
    if d - past + SLOT_INTERVAL < DAY {
      Clock(m, SLOT_INTERVAL - past);
    } else {
      assert d - past == DAY - SLOT_INTERVAL;
      assert m - past + SLOT_INTERVAL == (m / DAY + 1) * DAY;
    }
  }

  /** Clock arithmetic within one day. */
  lemma Clock(t: nat, d: int)
    requires 0 <= t % DAY + d < DAY
    ensures (t + d) % DAY == t % DAY + d && (t + d) / DAY == t / DAY
  {
    assert t + d == t / DAY * DAY + (t % DAY + d);
  }

  lemma Aligned(t: int)
    ensures t % DAY % SLOT_INTERVAL == t % SLOT_INTERVAL && t % DAY % 60 == t % 60
  {
    var q, r := t / DAY, t % DAY;
    assert t == SLOT_INTERVAL * (48 * q) + r && t == 60 * (24 * q) + r;
    Remainder(48 * q, r, SLOT_INTERVAL);
    Remainder(24 * q, r, 60);
  }

  lemma Remainder(q: int, r: int, n: nat)
    requires n in {SLOT_INTERVAL, 60}
    ensures (n * q + r) % n == r % n
  {
  }

  predicate OutOfHours(t: int) {
    HourOf(t) < WORK_HOUR_START || HourOf(t) >= WORK_HOUR_END
  }

  /** The test the search makes on the clock time, without its day, at which the slot would end. */
  predicate EndsLate(t: int, duration: int) {
    HourOf(t + duration) > WORK_HOUR_END || (HourOf(t + duration) == WORK_HOUR_END && MinuteOf(t + duration) > 0)
  }

  function NextMorning(t: nat): nat {
    t - t % DAY + WORK_HOUR_START * 60 + DAY
  }

  predicate FreeAt(busy: seq<(int, int)>, t: nat, duration: int) {
    FreeOf(busy, t * MINUTE, (t + duration) * MINUTE)
  }

  /** The starts the loop accepts from a cursor on, with room for that many. */
  function Scan(t: nat, dateTo: nat, duration: int, busy: seq<(int, int)>, room: nat): seq<nat>
    decreases dateTo - t * MINUTE
  {
    if t * MINUTE >= dateTo || room == 0 then []
    else if OutOfHours(t) || EndsLate(t, duration) then Scan(NextMorning(t), dateTo, duration, busy, room)
    else if FreeAt(busy, t, duration) then [t] + Scan(t + SLOT_INTERVAL, dateTo, duration, busy, room - 1)
    else Scan(t + SLOT_INTERVAL, dateTo, duration, busy, room)
  }

  /** Every branch of the loop moves the cursor at least half an hour on. */
  lemma EveryBranchAdvances(t: nat)
    ensures NextMorning(t) >= t + SLOT_INTERVAL
    ensures NextMorning(t) / DAY == t / DAY + 1 && HourOf(NextMorning(t)) == WORK_HOUR_START
    ensures NextMorning(t) % SLOT_INTERVAL == 0
  {
    assert NextMorning(t) == (t / DAY + 1) * DAY + WORK_HOUR_START * 60;
  }

  // ---------------------------------------------------------------- the reference form

  /** A half hour from which the whole slot fits into the working day, before the limit and free. */
  predicate ValidStart(t: nat, dateTo: nat, duration: int, busy: seq<(int, int)>) {
    && t % SLOT_INTERVAL == 0
    && WORK_HOUR_START * 60 <= t % DAY < WORK_HOUR_END * 60
    && t % DAY + duration <= WORK_HOUR_END * 60
    && t * MINUTE < dateTo
    && FreeAt(busy, t, duration)
  }

  /** Every valid start from t on, looking at every half hour. */
  function ValidFrom(t: nat, dateTo: nat, duration: int, busy: seq<(int, int)>): seq<nat>
    decreases dateTo - t * MINUTE
  {
    if t * MINUTE >= dateTo then []
    else (if ValidStart(t, dateTo, duration, busy) then [t] else [])
         + ValidFrom(t + SLOT_INTERVAL, dateTo, duration, busy)
  }

  predicate Ascending(s: seq<nat>) {
    forall i, j | 0 <= i < j < |s| :: s[i] < s[j]
  }

  function Take(s: seq<nat>, n: nat): seq<nat> {
    if |s| <= n then s else s[..n]
  }

  /** The reference list holds exactly the valid starts, in order. */
  lemma {:induction false} ValidFromIsAll(t: nat, dateTo: nat, duration: int, busy: seq<(int, int)>)
    requires t % SLOT_INTERVAL == 0
    ensures Ascending(ValidFrom(t, dateTo, duration, busy))
    ensures forall x: nat :: x in ValidFrom(t, dateTo, duration, busy) <==> t <= x && ValidStart(x, dateTo, duration, busy)
    decreases dateTo - t * MINUTE
  {
    hide ValidStart;
    forall x: nat
      ensures x in ValidFrom(t, dateTo, duration, busy) <==> t <= x && ValidStart(x, dateTo, duration, busy)
    {
      ValidFromHas(t, dateTo, duration, busy, x);
    }
    if t * MINUTE < dateTo {
      ValidFromIsAll(t + SLOT_INTERVAL, dateTo, duration, busy);
      var rest := ValidFrom(t + SLOT_INTERVAL, dateTo, duration, busy);
      forall i | 0 <= i < |rest|
        ensures rest[i] >= t + SLOT_INTERVAL
      {
        assert rest[i] in rest;
      }
    }
  }

  lemma {:induction false} ValidFromHas(t: nat, dateTo: nat, duration: int, busy: seq<(int, int)>, x: nat)
    requires t % SLOT_INTERVAL == 0
    ensures x in ValidFrom(t, dateTo, duration, busy) <==> t <= x && ValidStart(x, dateTo, duration, busy)
    decreases dateTo - t * MINUTE
  {
    hide ValidStart;
    if ValidStart(x, dateTo, duration, busy) {
      OnTheGrid(t, dateTo, duration, busy, x);
    }
    if t * MINUTE < dateTo {
      ValidFromHas(t + SLOT_INTERVAL, dateTo, duration, busy, x);
    }
  }

  lemma OnTheGrid(t: nat, dateTo: nat, duration: int, busy: seq<(int, int)>, x: nat)
    requires t % SLOT_INTERVAL == 0 && ValidStart(x, dateTo, duration, busy)
    ensures x <= t || t + SLOT_INTERVAL <= x
    ensures x * MINUTE < dateTo
  {
    hide FreeAt;
  }

  /** A stretch without valid starts may be jumped over. */
  lemma {:induction false} JumpLosesNothing(t: nat, u: nat, dateTo: nat, duration: int, busy: seq<(int, int)>)
    requires t % SLOT_INTERVAL == 0 && u % SLOT_INTERVAL == 0 && t <= u
    requires forall x: nat | t <= x < u :: !ValidStart(x, dateTo, duration, busy)
    ensures ValidFrom(t, dateTo, duration, busy) == ValidFrom(u, dateTo, duration, busy)
    decreases u - t
  {
    if t < u {
      JumpLosesNothing(t + SLOT_INTERVAL, u, dateTo, duration, busy);
      assert !ValidStart(t, dateTo, duration, busy);
    }
  }

  /**
   The end test of the search is right for every start it can meet exactly for durations below 390
   minutes; from there on a slot from 17:30 ends after midnight, on an early clock time.
   */
  lemma EndTestExactIffShort(duration: nat)
    ensures (forall t: nat | t % SLOT_INTERVAL == 0 && !OutOfHours(t) ::
               EndsLate(t, duration) <==> t % DAY + duration > WORK_HOUR_END * 60)
            <==> duration < 390
  {
    if duration < 390 {
      forall t: nat | t % SLOT_INTERVAL == 0 && !OutOfHours(t)
        ensures EndsLate(t, duration) <==> t % DAY + duration > WORK_HOUR_END * 60
      {
        EndTestShort(t, duration);
      }
    } else {
      var t: nat := if duration % DAY < 390 then 540 else 1050;
      WrapsAround(duration);
      assert t % SLOT_INTERVAL == 0 && !OutOfHours(t) && t % DAY + duration > WORK_HOUR_END * 60;
      hide EndsLate, OutOfHours;
    }
  }

  /** A long slot from nine or from half past five ends on an early clock time. */
  lemma WrapsAround(duration: nat)
    requires duration >= 390
    ensures !EndsLate(if duration % DAY < 390 then 540 else 1050, duration)
  {
    var q, d := duration / DAY, duration % DAY;
    assert duration == q * DAY + d;
    hide EndsLate;
    if d < 390 {
      DaysApart(q, 540 + d);
      EarlyEnd(540, duration);
    } else {
      DaysApart(q + 1, 1050 + d - DAY);
      EarlyEnd(1050, duration);
    }
  }

  lemma EarlyEnd(t: nat, duration: nat)
    requires (t + duration) % DAY < WORK_HOUR_END * 60
    ensures !EndsLate(t, duration)
  {
  }

  /** On the day the slot starts the end test is exact. */
  lemma EndTestSameDay(t: nat, duration: nat)
    requires t % SLOT_INTERVAL == 0 && !OutOfHours(t) && t % DAY + duration < DAY
    ensures EndsLate(t, duration) <==> t % DAY + duration > WORK_HOUR_END * 60
  {
    Aligned(t + duration);
    Clock(t, duration);
  }

  lemma EndTestShort(t: nat, duration: nat)
    requires t % SLOT_INTERVAL == 0 && !OutOfHours(t) && duration < 390
    ensures EndsLate(t, duration) <==> t % DAY + duration > WORK_HOUR_END * 60
  {
    Aligned(t);
    assert t % DAY <= 1050;
    EndTestSameDay(t, duration);
  }

  /** The search is not deceived at t: it does not test t, or the slot ends the same day, or the test catches it anyway. */
  predicate EndSeen(t: int, duration: int) {
    OutOfHours(t) || t % DAY + duration < DAY || EndsLate(t, duration)
  }

  /** Only the time of day matters for the end test. */
  lemma SameTimeOfDay(t: nat, duration: nat)
    ensures EndSeen(NextMorning(t), duration) == EndSeen(WORK_HOUR_START * 60, duration)
  {
    var q, nine := t / DAY + 1, WORK_HOUR_START * 60;
    assert NextMorning(t) == q * DAY + nine;
    DaysApart(q, nine);
    DaysApart(q, nine + duration);
  }

  lemma DaysApart(q: nat, t: int)
    ensures (q * DAY + t) % DAY == t % DAY && MinuteOf(q * DAY + t) == MinuteOf(t)
  {
    assert q * DAY + t == 60 * (24 * q) + t;
    Remainder(24 * q, t, 60);
  }

  /** The jumping search finds the first starts of the reference list. */
  lemma {:induction false} ScanIsReference(t: nat, dateTo: nat, duration: nat, busy: seq<(int, int)>, room: nat)
    requires t % SLOT_INTERVAL == 0 && HourOf(t) >= WORK_HOUR_START
    requires EndSeen(t, duration) && EndSeen(WORK_HOUR_START * 60, duration)
    ensures Scan(t, dateTo, duration, busy, room) == Take(ValidFrom(t, dateTo, duration, busy), room)
    decreases dateTo - t * MINUTE
  {
    hide ValidStart, FreeAt, OutOfHours, EndsLate, EndSeen, NextMorning, HourOf;
    if t * MINUTE < dateTo && room > 0 {
      if OutOfHours(t) || EndsLate(t, duration) {
        RestOfDayIsVain(t, dateTo, duration, busy);
        EveryBranchAdvances(t);
        SameTimeOfDay(t, duration);
        JumpLosesNothing(t, NextMorning(t), dateTo, duration, busy);
        ScanIsReference(NextMorning(t), dateTo, duration, busy, room);
      } else {
        CursorInHours(t, dateTo, duration, busy);
        ScanIsReference(t + SLOT_INTERVAL, dateTo, duration, busy, if FreeAt(busy, t, duration) then room - 1 else room);
      }
    }
  }

  lemma CursorInHours(t: nat, dateTo: nat, duration: nat, busy: seq<(int, int)>)
    requires t % SLOT_INTERVAL == 0 && t * MINUTE < dateTo && EndSeen(t, duration)
    requires !OutOfHours(t) && !EndsLate(t, duration)
    ensures ValidStart(t, dateTo, duration, busy) <==> FreeAt(busy, t, duration)
    ensures HourOf(t + SLOT_INTERVAL) >= WORK_HOUR_START && EndSeen(t + SLOT_INTERVAL, duration)
  {
    hide FreeAt;
    EndTestSameDay(t, duration);
    Clock(t, SLOT_INTERVAL);
  }

  lemma RestOfDayIsVain(t: nat, dateTo: nat, duration: nat, busy: seq<(int, int)>)
    requires t % SLOT_INTERVAL == 0 && HourOf(t) >= WORK_HOUR_START
    requires OutOfHours(t) || EndsLate(t, duration)
    ensures forall x: nat | t <= x < NextMorning(t) :: !ValidStart(x, dateTo, duration, busy)
  {
    if !OutOfHours(t) && t % DAY + duration < DAY {
      EndTestSameDay(t, duration);
    }
    forall x: nat | t <= x < NextMorning(t) && WORK_HOUR_START * 60 <= x % DAY < WORK_HOUR_END * 60
      ensures x % DAY + duration > WORK_HOUR_END * 60
    {
      assert x / DAY == t / DAY;
      assert x % DAY >= t % DAY;
    }
  }

  /** The search from t equals the reference, for every limit and every schedule. */
  ghost predicate Complete(t: nat, duration: nat, room: nat) {
    forall dateTo: nat, busy :: Scan(t, dateTo, duration, busy, room) == Take(ValidFrom(t, dateTo, duration, busy), room)
  }

  /**
   A condition to check before the call. Before nine: no slot fits into a day anyway. From nine on: neither the
   cursor nor a later nine o'clock deceives the end test.
   */
  predicate CompleteFrom(t: nat, duration: nat) {
    && EndSeen(WORK_HOUR_START * 60, duration)
    && if HourOf(t) < WORK_HOUR_START then duration > (WORK_HOUR_END - WORK_HOUR_START) * 60 else EndSeen(t, duration)
  }

  lemma CompleteWhenSeen(t: nat, dateTo: nat, duration: nat, busy: seq<(int, int)>, room: nat)
    requires t % SLOT_INTERVAL == 0 && CompleteFrom(t, duration)
    ensures Scan(t, dateTo, duration, busy, room) == Take(ValidFrom(t, dateTo, duration, busy), room)
  {
    if HourOf(t) >= WORK_HOUR_START {
      ScanIsReference(t, dateTo, duration, busy, room);
    } else {
      EveryBranchAdvances(t);
      SameTimeOfDay(t, duration);
      NothingFits(t, NextMorning(t), dateTo, duration, busy);
      JumpLosesNothing(t, NextMorning(t), dateTo, duration, busy);
      ScanIsReference(NextMorning(t), dateTo, duration, busy, room);
      ScanBeforeNine(t, dateTo, duration, busy, room);
      hide Scan, ValidFrom, CompleteFrom, NextMorning, HourOf;
      BeyondLimit(t, dateTo, duration, busy, room);
    }
  }

  lemma NothingFits(t: nat, u: nat, dateTo: nat, duration: nat, busy: seq<(int, int)>)
    requires duration > (WORK_HOUR_END - WORK_HOUR_START) * 60
    ensures forall x: nat | t <= x < u :: !ValidStart(x, dateTo, duration, busy)
  {
    hide FreeAt;
  }

  lemma ScanBeforeNine(t: nat, dateTo: nat, duration: int, busy: seq<(int, int)>, room: nat)
    requires HourOf(t) < WORK_HOUR_START
    ensures Scan(t, dateTo, duration, busy, room)
         == if t * MINUTE >= dateTo || room == 0 then [] else Scan(NextMorning(t), dateTo, duration, busy, room)
  {
    hide EndsLate, FreeAt, NextMorning;
  }

  lemma BeyondLimit(t: nat, dateTo: nat, duration: int, busy: seq<(int, int)>, room: nat)
    ensures t * MINUTE >= dateTo ==> ValidFrom(t, dateTo, duration, busy) == []
    ensures Take(ValidFrom(t, dateTo, duration, busy), 0) == []
  {
    hide ValidStart;
  }

  /** A day on which nothing is free is passed over. */
  lemma {:induction false} BusyDayPasses(t: nat, dateTo: nat, duration: int, busy: seq<(int, int)>, room: nat, nine: nat)
    requires t % SLOT_INTERVAL == 0 && nine == NextMorning(t) && nine * MINUTE < dateTo && room > 0
    requires forall x: nat | t <= x < nine :: !FreeAt(busy, x, duration)
    ensures Scan(t, dateTo, duration, busy, room) == Scan(nine, dateTo, duration, busy, room)
    decreases nine - t
  {
    hide FreeAt, EndsLate, OutOfHours, NextMorning;
    EveryBranchAdvances(t);
    if !OutOfHours(t) && !EndsLate(t, duration) {
      SameMorning(t);
      BusyDayPasses(t + SLOT_INTERVAL, dateTo, duration, busy, room, nine);
    }
  }

  lemma SameMorning(t: nat)
    requires !OutOfHours(t)
    ensures NextMorning(t + SLOT_INTERVAL) == NextMorning(t)
  {
    Clock(t, SLOT_INTERVAL);
  }

  /** At a cursor that deceives the end test an invalid start is taken. */
  lemma DeceivedAt(t: nat, duration: nat, busy: seq<(int, int)>, room: nat)
    requires !EndSeen(t, duration) && room > 0 && FreeAt(busy, t, duration)
    ensures Scan(t, t * MINUTE + 1, duration, busy, room) == [t]
    ensures !ValidStart(t, t * MINUTE + 1, duration, busy)
  {
    hide FreeAt, EndsLate;
    assert Scan(t + SLOT_INTERVAL, t * MINUTE + 1, duration, busy, room - 1) == [];
  }

  lemma NoInvalidStarts(t: nat, dateTo: nat, duration: nat, busy: seq<(int, int)>, room: nat, x: nat)
    requires t % SLOT_INTERVAL == 0 && !ValidStart(x, dateTo, duration, busy)
    ensures Take(ValidFrom(t, dateTo, duration, busy), room) != [x]
  {
    ValidFromIsAll(t, dateTo, duration, busy);
    hide ValidStart, ValidFrom;
    var valid := ValidFrom(t, dateTo, duration, busy);
    assert valid != [] ==> valid[0] in valid;
  }

  /** Where the end test is deceived the search is not complete. */
  lemma IncompleteWhenDeceived(t: nat, duration: nat, room: nat)
    requires t % SLOT_INTERVAL == 0 && room > 0 && !EndSeen(t, duration)
    ensures !Complete(t, duration, room)
  {
    DeceivedAt(t, duration, [], room);
    NoInvalidStarts(t, t * MINUTE + 1, duration, [], room, t);
    hide Scan, ValidFrom, EndSeen, ValidStart;
  }

  lemma IncompleteWhenDeceivedAtNine(t: nat, duration: nat, room: nat)
    requires t % SLOT_INTERVAL == 0 && room > 0 && !EndSeen(WORK_HOUR_START * 60, duration)
    ensures !Complete(t, duration, room)
  {
    var nine := NextMorning(t);
    var busy := [(t * MINUTE, nine * MINUTE)];
    var dateTo := nine * MINUTE + 1;
    EveryBranchAdvances(t);
    SameTimeOfDay(t, duration);
    assert duration > 0;
    BlockedUntil(t, nine, duration);
    hide EndSeen, NextMorning, OutOfHours, EndsLate, FreeAt, Scan, ValidFrom, ValidStart;
    BusyDayPasses(t, dateTo, duration, busy, room, nine);
    DeceivedAt(nine, duration, busy, room);
    NoInvalidStarts(t, dateTo, duration, busy, room, nine);
  }

  lemma BlockedUntil(t: nat, nine: nat, duration: nat)
    requires duration > 0 && t <= nine
    ensures forall x: nat | t <= x < nine :: !FreeAt([(t * MINUTE, nine * MINUTE)], x, duration)
    ensures FreeAt([(t * MINUTE, nine * MINUTE)], nine, duration)
  {
    var busy := [(t * MINUTE, nine * MINUTE)];
    forall x: nat | t <= x < nine
      ensures !FreeAt(busy, x, duration)
    {
      assert Overlaps(x * MINUTE, (x + duration) * MINUTE, busy[0].0, busy[0].1);
    }
  }

  /** Before nine the whole day is lost, so any slot that fits into it is. */
  lemma IncompleteBeforeNine(t: nat, duration: nat, room: nat)
    requires t % SLOT_INTERVAL == 0 && room > 0 && HourOf(t) < WORK_HOUR_START
    requires duration <= (WORK_HOUR_END - WORK_HOUR_START) * 60
    ensures !Complete(t, duration, room)
  {
    var nine: nat := t - t % DAY + WORK_HOUR_START * 60;
    var dateTo: nat := nine * MINUTE + 1;
    NineIsValid(t, duration);
    ScanBeforeNine(t, dateTo, duration, [], room);
    assert Scan(NextMorning(t), dateTo, duration, [], room) == [];
    ValidFromHas(t, dateTo, duration, [], nine);
    hide Scan, ValidFrom, ValidStart, NextMorning, HourOf;
    assert nine in ValidFrom(t, dateTo, duration, []);
    assert Take(ValidFrom(t, dateTo, duration, []), room) != [];
  }

  lemma NineIsValid(t: nat, duration: nat)
    requires t % SLOT_INTERVAL == 0 && HourOf(t) < WORK_HOUR_START
    requires duration <= (WORK_HOUR_END - WORK_HOUR_START) * 60
    ensures var nine: nat := t - t % DAY + WORK_HOUR_START * 60;
            t <= nine < NextMorning(t) && ValidStart(nine, nine * MINUTE + 1, duration, [])
  {
    NineOfDay(t);
    hide HourOf, NextMorning;
  }

  lemma NineOfDay(t: nat)
    requires HourOf(t) < WORK_HOUR_START
    ensures var nine: nat := t - t % DAY + WORK_HOUR_START * 60;
            t <= nine < NextMorning(t) && nine % SLOT_INTERVAL == 0 && nine % DAY == WORK_HOUR_START * 60
  {
    var q := t / DAY;
    assert t - t % DAY == q * DAY;
    DaysApart(q, WORK_HOUR_START * 60);
    Remainder(48 * q + 18, 0, SLOT_INTERVAL);
    hide MinuteOf;
  }

  /**
   The search from a half hour equals the reference, for every limit and every schedule, exactly under
   CompleteFrom: before nine it goes straight to nine of the NEXT day, and from 390 minutes on a slot that
   ends after midnight may end on an early clock time.
   */
  lemma SearchCompleteIff(t: nat, duration: nat, room: nat)
    requires t % SLOT_INTERVAL == 0 && room > 0
    ensures Complete(t, duration, room) <==> CompleteFrom(t, duration)
  {
    hide Scan, ValidFrom, EndSeen, HourOf;
    if CompleteFrom(t, duration) {
      forall dateTo: nat, busy
        ensures Scan(t, dateTo, duration, busy, room) == Take(ValidFrom(t, dateTo, duration, busy), room)
      {
        CompleteWhenSeen(t, dateTo, duration, busy, room);
      }
    } else if !EndSeen(WORK_HOUR_START * 60, duration) {
      IncompleteWhenDeceivedAtNine(t, duration, room);
    } else if HourOf(t) < WORK_HOUR_START {
      IncompleteBeforeNine(t, duration, room);
    } else {
      IncompleteWhenDeceived(t, duration, room);
    }
  }

  /** The condition in minutes: with a cursor not before nine every duration below 390 is safe. */
  lemma ShortIsComplete(t: nat, duration: nat)
    requires t % SLOT_INTERVAL == 0 && HourOf(t) >= WORK_HOUR_START && duration < 390
    ensures CompleteFrom(t, duration)
  {
    Aligned(t);
  }

  /** From 390 minutes to a day and a half hour, a search from 17:30 takes a slot that ends on the next day. */
  lemma LateSlotFound(duration: nat)
    requires 390 <= duration <= DAY + 30
    ensures Scan(1050, 1051 * MINUTE, duration, [], MAX_SLOTS * 3) == [1050]
    ensures !ValidStart(1050, 1051 * MINUTE, duration, []) && 1050 + duration >= DAY
  {
    assert FreeAt([], 1050, duration);
    assert Scan(1080, 1051 * MINUTE, duration, [], MAX_SLOTS * 3 - 1) == [];
  }

  // ---------------------------------------------------------------- score, order and cut

  predicate Preferred(t: int, prefFrom: int, prefTo: int) {
    prefFrom <= HourOf(t) < prefTo
  }

  function Score(t: int, prefFrom: int, prefTo: int): int {
    (if Preferred(t, prefFrom, prefTo) then 10 else 0)
    + if HourOf(t) <= 12 then 2 else if HourOf(t) <= 15 then 1 else 0
  }

  function SlotAt(t: nat, duration: int, prefFrom: int, prefTo: int): Slot {
    Slot(t, t + duration, Score(t, prefFrom, prefTo))
  }

  function SlotsAt(starts: seq<nat>, duration: int, prefFrom: int, prefTo: int): seq<Slot> {
    seq(|starts|, i requires 0 <= i < |starts| => SlotAt(starts[i], duration, prefFrom, prefTo))
  }

  /** The ISO text of an instant on a whole minute. */
  function StartText(t: nat): string {
    Civil.DateText(Civil.DateOf(t / DAY)) + "T" + Text.Pad(t % DAY / 60, 2) + ":" + Text.Pad(t % 60, 2) + ":00"
  }

  /** The order of the sort key: higher score first, then the start text. */
  predicate SortsBefore(a: Slot, b: Slot) {
    a.score > b.score || (a.score == b.score && Text.TextLess(StartText(a.start), StartText(b.start)))
  }

  /** A stable sort by that key. */
  function Sorted(slots: seq<Slot>): seq<Slot> {
    if slots == [] then [] else Inserted(Sorted(slots[..|slots| - 1]), slots[|slots| - 1])
  }

  function Inserted(slots: seq<Slot>, s: Slot): seq<Slot> {
    if slots == [] || !SortsBefore(s, slots[|slots| - 1]) then slots + [s]
    else Inserted(slots[..|slots| - 1], s) + [slots[|slots| - 1]]
  }

  /** What the search offers on these schedules. */
  function Offered(schedules: seq<Schedule>, dateFrom: nat, dateTo: nat, now: nat, duration: int,
                   prefFrom: int, prefTo: int): seq<Slot> {
    var starts := Scan(FirstCursor(dateFrom, now), dateTo, duration, AllBusy(schedules), MAX_SLOTS * 3);
    var sorted := Sorted(SlotsAt(starts, duration, prefFrom, prefTo));
    if |sorted| <= MAX_SLOTS then sorted else sorted[..MAX_SLOTS]
  }

  lemma SlotsAtNext(t: nat, rest: seq<nat>, duration: int, prefFrom: int, prefTo: int)
    ensures SlotsAt([t] + rest, duration, prefFrom, prefTo)
         == [SlotAt(t, duration, prefFrom, prefTo)] + SlotsAt(rest, duration, prefFrom, prefTo)
  {
  }

  method FindSlots(hasCalendars: bool, schedules: seq<Schedule>, dateFrom: nat, dateTo: nat, now: nat, duration: int,
                   prefFrom: int, prefTo: int)
    returns (slots: seq<Slot>)
    ensures slots == if hasCalendars then Offered(schedules, dateFrom, dateTo, now, duration, prefFrom, prefTo) else []
  {
    hide AllBusy, FreeOf, NextMorning, HourOf, MinuteOf, SlotsAt, Sorted, NineOf;
    if !hasCalendars {
      return [];
    }
    var busy := CollectBusy(schedules);
    var current := NineOf(dateFrom);
    if current * MINUTE < now {
      var whole := now / MINUTE;
      current := whole - MinuteOf(whole) + (MinuteOf(whole) / SLOT_INTERVAL + 1) * SLOT_INTERVAL;
    }
    var found := ScanLoop(current, dateTo, duration, prefFrom, prefTo, busy);
    slots := Sorted(found);
    if |slots| > MAX_SLOTS {
      slots := slots[..MAX_SLOTS];
    }
  }

  /** The loop of the search, from its first cursor. */
  method ScanLoop(first: nat, dateTo: nat, duration: int, prefFrom: int, prefTo: int, busy: seq<(int, int)>)
    returns (found: seq<Slot>)
    ensures found == SlotsAt(Scan(first, dateTo, duration, busy, MAX_SLOTS * 3), duration, prefFrom, prefTo)
  {
    hide FreeOf, NextMorning, HourOf, MinuteOf, SlotsAt;
    found := [];
    var current := first;
    ghost var starts := Scan(first, dateTo, duration, busy, MAX_SLOTS * 3);
    while current * MINUTE < dateTo && |found| < MAX_SLOTS * 3
      invariant |found| <= MAX_SLOTS * 3
      invariant found + SlotsAt(Scan(current, dateTo, duration, busy, MAX_SLOTS * 3 - |found|), duration, prefFrom, prefTo)
                == SlotsAt(starts, duration, prefFrom, prefTo)
      decreases dateTo - current * MINUTE
    {
      EveryBranchAdvances(current);
      var hour := HourOf(current);
      if hour < WORK_HOUR_START || hour >= WORK_HOUR_END {
        current := NextMorning(current);
        continue;
      }
      var end := current + duration;
      if HourOf(end) > WORK_HOUR_END || (HourOf(end) == WORK_HOUR_END && MinuteOf(end) > 0) {
        current := NextMorning(current);
        continue;
      }
      if FreeOf(busy, current * MINUTE, end * MINUTE) {
        var score := 0;
        if prefFrom <= hour < prefTo {
          score := score + 10;
        }
        if hour <= 12 {
          score := score + 2;
        } else if hour <= 15 {
          score := score + 1;
        }
        SlotsAtNext(current, Scan(current + SLOT_INTERVAL, dateTo, duration, busy, MAX_SLOTS * 3 - |found| - 1),
                    duration, prefFrom, prefTo);
        found := found + [Slot(current, end, score)];
      }
      current := current + SLOT_INTERVAL;
    }
    NoMoreSlots(current, dateTo, duration, busy, MAX_SLOTS * 3 - |found|, prefFrom, prefTo);
  }

  lemma NoMoreSlots(t: nat, dateTo: nat, duration: int, busy: seq<(int, int)>, room: nat, prefFrom: int, prefTo: int)
    requires t * MINUTE >= dateTo || room == 0
    ensures SlotsAt(Scan(t, dateTo, duration, busy, room), duration, prefFrom, prefTo) == []
  {
  }
}
