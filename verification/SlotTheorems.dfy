/** What the offered slots are: the best candidates, in order, and all of them free. */
module SlotTheorems {
  import opened Availability
  import opened Basics
  import Civil
  import opened SlotFinder
  import Text

  // ---------------------------------------------------------------- text order is time order

  /** Years above 9999 cannot be represented. */
  predicate Datable(t: nat) {
    Civil.DateOf(t / DAY).y <= 9999
  }

  function ClockText(t: nat): string {
    Text.Pad(t % DAY / 60, 2) + ":" + Text.Pad(t % 60, 2)
  }

  lemma StartTextParts(a: nat, b: nat)
    ensures var da, db := Civil.DateText(Civil.DateOf(a / DAY)), Civil.DateText(Civil.DateOf(b / DAY));
            |da| == |db| ==>
              (Text.TextLess(StartText(a), StartText(b))
               <==> Text.TextLess(da, db) || (da == db && Text.TextLess(ClockText(a), ClockText(b))))
  {
    var da, db := Civil.DateText(Civil.DateOf(a / DAY)), Civil.DateText(Civil.DateOf(b / DAY));
    ThreeParts(a);
    ThreeParts(b);
    hide Civil.DateText, Civil.DateOf, StartText, Text.TextLess, Text.Pad;
    if |da| == |db| {
      OrderBeforeTail(da, db, "T", ClockText(a), ClockText(b), ":00");
    }
  }

  lemma ThreeParts(a: nat)
    ensures StartText(a) == Civil.DateText(Civil.DateOf(a / DAY)) + "T" + ClockText(a) + ":00" && |ClockText(a)| == 5
  {
    hide Civil.DateText, Civil.DateOf, Text.Pad;
  }

  /** The key compares starts as time does. */
  lemma StartTextOrder(a: nat, b: nat)
    requires Datable(a) && Datable(b)
    ensures Text.TextLess(StartText(a), StartText(b)) <==> a < b
  {
    var da, db := Civil.DateOf(a / DAY), Civil.DateOf(b / DAY);
    Civil.DateTextOrder(da, db);
    Civil.DayOrder(a / DAY, b / DAY);
    ClockTextOrder(a, b);
    StartTextParts(a, b);
    assert |Civil.DateText(da)| == |Civil.DateText(db)|;
    DayThenClock(a, b);
    hide Text.TextLess, ClockText, Civil.DateText, Civil.DateOf, StartText;
  }

  lemma DayThenClock(a: nat, b: nat)
    ensures a < b <==> a / DAY < b / DAY || (a / DAY == b / DAY && a % DAY < b % DAY)
  {
    assert a == a / DAY * DAY + a % DAY && b == b / DAY * DAY + b % DAY;
  }

  lemma ClockTextOrder(a: nat, b: nat)
    ensures Text.TextLess(ClockText(a), ClockText(b)) <==> a % DAY < b % DAY
    ensures ClockText(a) == ClockText(b) <==> a % DAY == b % DAY
  {
    assert Text.Pow10(2) == 100;
    Aligned(a);
    Aligned(b);
    Text.PadOrder(a % DAY / 60, b % DAY / 60, 2);
    Text.PadOrder(a % 60, b % 60, 2);
    var ha, hb, ma, mb := Text.Pad(a % DAY / 60, 2), Text.Pad(b % DAY / 60, 2), Text.Pad(a % 60, 2), Text.Pad(b % 60, 2);
    Text.JoinedOrder(ha, hb, ":", ma, mb);
    Text.JoinedSame(ha, hb, ":", ma, mb);
  }

  lemma OrderBeforeTail(a: string, b: string, mid: string, x: string, y: string, tail: string)
    requires |a| == |b| && |x| == |y|
    ensures Text.TextLess(a + mid + x + tail, b + mid + y + tail) <==> Text.TextLess(a, b) || (a == b && Text.TextLess(x, y))
  {
    hide Text.TextLess;
    Text.TextLessConcat(a + mid + x, b + mid + y, tail, tail);
    Text.Irreflexive(tail);
    Text.JoinedOrder(a, b, mid, x, y);
  }

  // ---------------------------------------------------------------- the best candidates

  /** The order of the final sort, read off times instead of texts. */
  predicate Better(a: Slot, b: Slot) {
    a.score > b.score || (a.score == b.score && a.start < b.start)
  }

  predicate AllDatable(slots: seq<Slot>) {
    forall s | s in slots :: Datable(s.start)
  }

  predicate DistinctStarts(slots: seq<Slot>) {
    forall i, j | 0 <= i < j < |slots| :: slots[i].start != slots[j].start
  }

  predicate Ranked(slots: seq<Slot>) {
    forall i, j | 0 <= i < j < |slots| :: Better(slots[i], slots[j])
  }

  /**
   The n best candidates, best first: ranked, taken from the candidates, as many as there are up to
   n, and nothing left out beats anything taken.
   */
  predicate IsBest(best: seq<Slot>, candidates: seq<Slot>, n: nat) {
    && Ranked(best)
    && (forall s | s in best :: s in candidates)
    && |best| == (if |candidates| <= n then |candidates| else n)
    && forall s, b | s in candidates && s !in best && b in best :: Better(b, s)
  }

  /** Appending a slot that everything beats keeps the ranking. */
  lemma AppendedKeepsRanked(slots: seq<Slot>, s: Slot)
    requires Ranked(slots) && AllDatable(slots) && Datable(s.start) && forall x | x in slots :: Better(x, s)
    ensures Ranked(slots + [s]) && AllDatable(slots + [s]) && multiset(slots + [s]) == multiset(slots) + multiset{s}
  {
    hide Better, Datable;
    assert forall i | 0 <= i < |slots| :: slots[i] in slots;
  }

  lemma LastIsWorst(slots: seq<Slot>, s: Slot)
    requires slots != [] && Ranked(slots) && Better(slots[|slots| - 1], s)
    ensures forall x | x in slots :: Better(x, s)
  {
    forall x | x in slots
      ensures Better(x, s)
    {
      assert x == slots[|slots| - 1] || Better(x, slots[|slots| - 1]);
    }
  }

  lemma {:induction false} InsertedKeepsRanked(slots: seq<Slot>, s: Slot)
    requires Ranked(slots) && AllDatable(slots) && Datable(s.start)
    requires forall x | x in slots :: x.start != s.start
    ensures Ranked(Inserted(slots, s)) && AllDatable(Inserted(slots, s))
    ensures multiset(Inserted(slots, s)) == multiset(slots) + multiset{s} && |Inserted(slots, s)| == |slots| + 1
  {
    if slots == [] {
      AppendedKeepsRanked(slots, s);
    } else {
      var before, last := slots[..|slots| - 1], slots[|slots| - 1];
      assert slots == before + [last];
      assert last in slots;
      StartTextOrder(s.start, last.start);
      if SortsBefore(s, last) {
        assert Better(s, last);
        hide Better, SortsBefore, Datable;
        InsertedKeepsRanked(before, s);
        BetterThanLast(Inserted(before, s), before, s, last);
        AppendedKeepsRanked(Inserted(before, s), last);
      } else {
        assert Better(last, s);
        hide Better, SortsBefore, Datable;
        LastIsWorst(slots, s);
        AppendedKeepsRanked(slots, s);
      }
    }
  }

  lemma BetterThanLast(inner: seq<Slot>, before: seq<Slot>, s: Slot, last: Slot)
    requires multiset(inner) == multiset(before) + multiset{s} && Better(s, last)
    requires Ranked(before + [last])
    ensures forall x | x in inner :: Better(x, last)
  {
    hide Better;
    forall x | x in inner
      ensures Better(x, last)
    {
      assert x in multiset(inner);
      if x != s {
        assert x in before;
        var i :| 0 <= i < |before| && before[i] == x;
        assert (before + [last])[i] == x && (before + [last])[|before|] == last;
      }
    }
  }

  lemma {:induction false} SortedIsRanked(slots: seq<Slot>)
    requires DistinctStarts(slots) && AllDatable(slots)
    ensures Ranked(Sorted(slots)) && AllDatable(Sorted(slots))
    ensures multiset(Sorted(slots)) == multiset(slots) && |Sorted(slots)| == |slots|
  {
    if slots != [] {
      var before, last := slots[..|slots| - 1], slots[|slots| - 1];
      assert slots == before + [last];
      SortedIsRanked(before);
      forall x | x in Sorted(before)
        ensures x.start != last.start
      {
        assert x in multiset(before);
      }
      InsertedKeepsRanked(Sorted(before), last);
    }
  }

  lemma CutIsBest(candidates: seq<Slot>, n: nat)
    requires DistinctStarts(candidates) && AllDatable(candidates)
    ensures IsBest(if |Sorted(candidates)| <= n then Sorted(candidates) else Sorted(candidates)[..n], candidates, n)
  {
    SortedIsRanked(candidates);
    hide Sorted, Better, AllDatable, DistinctStarts;
    BestOfRanked(candidates, Sorted(candidates), n);
  }

  lemma BestOfRanked(candidates: seq<Slot>, all: seq<Slot>, n: nat)
    requires Ranked(all) && multiset(all) == multiset(candidates) && |all| == |candidates|
    ensures IsBest(if |all| <= n then all else all[..n], candidates, n)
  {
    hide Better;
    var best := if |all| <= n then all else all[..n];
    forall s | s in best
      ensures s in candidates
    {
      assert s in multiset(all);
    }
    forall s, b | s in candidates && s !in best && b in best
      ensures Better(b, s)
    {
      assert s in multiset(all);
      LeftOutIsWorse(all, |best|, b, s);
    }
  }

  lemma LeftOutIsWorse(all: seq<Slot>, m: nat, b: Slot, s: Slot)
    requires Ranked(all) && m <= |all| && b in all[..m] && s in all && s !in all[..m]
    ensures Better(b, s)
  {
    hide Better;
    var i :| 0 <= i < m && all[..m][i] == b;
    var j :| 0 <= j < |all| && all[j] == s;
    assert forall k | 0 <= k < m :: all[k] == all[..m][k] && all[..m][k] in all[..m];
  }

  // ---------------------------------------------------------------- the offer as a whole

  /** The candidates of a search: the first 24 starts its loop finds, scored. */
  function Candidates(schedules: seq<Schedule>, dateFrom: nat, dateTo: nat, now: nat, duration: int,
                      prefFrom: int, prefTo: int): seq<Slot> {
    SlotsAt(Scan(FirstCursor(dateFrom, now), dateTo, duration, AllBusy(schedules), MAX_SLOTS * 3),
            duration, prefFrom, prefTo)
  }

  lemma {:induction false} ScanAscends(t: nat, dateTo: nat, duration: int, busy: seq<(int, int)>, room: nat)
    ensures Ascending(Scan(t, dateTo, duration, busy, room))
    ensures forall x | x in Scan(t, dateTo, duration, busy, room) ::
              t <= x && x * MINUTE < dateTo && !OutOfHours(x) && !EndsLate(x, duration) && FreeAt(busy, x, duration)
    decreases dateTo - t * MINUTE
  {
    hide FreeAt, OutOfHours, EndsLate, NextMorning;
    EveryBranchAdvances(t);
    if t * MINUTE < dateTo && room > 0 {
      if OutOfHours(t) || EndsLate(t, duration) {
        ScanAscends(NextMorning(t), dateTo, duration, busy, room);
      } else {
        var rest := Scan(t + SLOT_INTERVAL, dateTo, duration, busy, if FreeAt(busy, t, duration) then room - 1 else room);
        ScanAscends(t + SLOT_INTERVAL, dateTo, duration, busy, if FreeAt(busy, t, duration) then room - 1 else room);
        assert forall i | 0 <= i < |rest| :: rest[i] in rest;
      }
    }
  }

  lemma CandidatesAreDistinct(schedules: seq<Schedule>, dateFrom: nat, dateTo: nat, now: nat, duration: int,
                              prefFrom: int, prefTo: int)
    requires Datable(dateTo / MINUTE)
    ensures var slots := Candidates(schedules, dateFrom, dateTo, now, duration, prefFrom, prefTo);
            DistinctStarts(slots) && AllDatable(slots)
  {
    hide Scan, FirstCursor, AllBusy, OutOfHours, EndsLate, FreeAt;
    var slots := Candidates(schedules, dateFrom, dateTo, now, duration, prefFrom, prefTo);
    var starts := Scan(FirstCursor(dateFrom, now), dateTo, duration, AllBusy(schedules), MAX_SLOTS * 3);
    ScanAscends(FirstCursor(dateFrom, now), dateTo, duration, AllBusy(schedules), MAX_SLOTS * 3);
    forall s | s in slots
      ensures Datable(s.start)
    {
      var i :| 0 <= i < |slots| && slots[i] == s;
      assert starts[i] in starts;
      Civil.DayOrder(dateTo / MINUTE / DAY, s.start / DAY);
    }
  }

  /** For every input, the offer is the best eight of the candidates. */
  lemma OfferedIsBest(schedules: seq<Schedule>, dateFrom: nat, dateTo: nat, now: nat, duration: int,
                      prefFrom: int, prefTo: int)
    requires Datable(dateTo / MINUTE)
    ensures IsBest(Offered(schedules, dateFrom, dateTo, now, duration, prefFrom, prefTo),
                   Candidates(schedules, dateFrom, dateTo, now, duration, prefFrom, prefTo), MAX_SLOTS)
  {
    CandidatesAreDistinct(schedules, dateFrom, dateTo, now, duration, prefFrom, prefTo);
    CutIsBest(Candidates(schedules, dateFrom, dateTo, now, duration, prefFrom, prefTo), MAX_SLOTS);
  }

  // ---------------------------------------------------------------- the reference form

  /** Nine o'clock of the day of an instant, in minutes. */
  function NineOnDayOf(instant: nat): nat {
    instant / 86_400_000_000 * 1440 + 540
  }

  /** Where a search begins: at nine o'clock of the first day or, when that is past, at the next half hour. */
  predicate Begins(first: nat, dateFrom: nat, now: nat) {
    if NineOnDayOf(dateFrom) * 60_000_000 >= now then first == NineOnDayOf(dateFrom)
    else first % 30 == 0 && (first - 30) * 60_000_000 <= now < first * 60_000_000
  }

  lemma NineIs(instant: nat)
    ensures NineOf(instant) == NineOnDayOf(instant)
    ensures NineOf(instant) / 1440 == instant / 86_400_000_000 && NineOf(instant) % 1440 == 540
  {
    var q := instant / 86_400_000_000;
    DayOfInstant(instant);
    assert q * 1440 + 540 == NineOf(instant);
  }

  lemma DayOfInstant(instant: nat)
    ensures instant / MINUTE / DAY == instant / 86_400_000_000
  {
    var m, q := instant / 60_000_000, instant / 60_000_000 / 1440;
    assert instant == m * 60_000_000 + instant % 60_000_000 && m == q * 1440 + m % 1440;
    assert instant - q * 86_400_000_000 == (m % 1440) * 60_000_000 + instant % 60_000_000;
  }

  /** The first cursor is the one place where the search may begin. */
  lemma FirstCursorIs(first: nat, dateFrom: nat, now: nat)
    ensures Begins(first, dateFrom, now) <==> first == FirstCursor(dateFrom, now)
  {
    FirstCursorIsLeast(dateFrom, now);
    NineIs(dateFrom);
    if NineOf(dateFrom) * MINUTE < now {
      var cursor := FirstCursor(dateFrom, now);
      hide FirstCursor, NineOf, NineOnDayOf;
      CursorWithin(now, cursor);
      if Begins(first, dateFrom, now) {
        OneHalfHour(now, first, cursor);
      }
    }
  }

  lemma CursorWithin(now: nat, cursor: nat)
    requires cursor % 30 == 0 && cursor * 60_000_000 > now && forall t: int | t % 30 == 0 && t * 60_000_000 > now :: cursor <= t
    ensures (cursor - 30) * 60_000_000 <= now
  {
    assert (cursor - 30) % 30 == 0;
  }

  lemma OneHalfHour(now: nat, a: nat, b: nat)
    requires a % 30 == 0 && (a - 30) * 60_000_000 <= now < a * 60_000_000
    requires b % 30 == 0 && (b - 30) * 60_000_000 <= now < b * 60_000_000
    ensures a == b
  {
  }

  /** Nothing on the schedules that counts as busy meets a slot at x. */
  ghost predicate Uninterrupted(schedules: seq<Schedule>, x: nat, duration: int) {
    forall i: nat, k: nat | Holds(schedules, i, k) ::
      var item := schedules[i].items[k];
      item.status != Some("free") && item.start.Some? && item.end.Some? ==>
        item.end.value <= x * 60_000_000 || (x + duration) * 60_000_000 <= item.start.value
  }

  /** A start that a search over this range may offer: a half hour of the working day with room before six, in the range, free. */
  ghost predicate MayOffer(schedules: seq<Schedule>, dateFrom: nat, dateTo: nat, now: nat, duration: int, x: nat) {
    && x % 30 == 0 && 540 <= x % 1440 < 1080 && x % 1440 + duration <= 1080 && x * 60_000_000 < dateTo
    && (if NineOnDayOf(dateFrom) * 60_000_000 >= now then NineOnDayOf(dateFrom) <= x else now < x * 60_000_000)
    && Uninterrupted(schedules, x, duration)
  }

  lemma FreeMeans(schedules: seq<Schedule>, x: nat, duration: int)
    ensures FreeAt(AllBusy(schedules), x, duration) <==> Uninterrupted(schedules, x, duration)
  {
    FreeOfSchedules(schedules, x * MINUTE, (x + duration) * MINUTE);
    hide AllBusy, FreeOf, Holds;
  }

  lemma MayOfferIs(schedules: seq<Schedule>, dateFrom: nat, dateTo: nat, now: nat, duration: int, first: nat, x: nat)
    requires Begins(first, dateFrom, now)
    ensures MayOffer(schedules, dateFrom, dateTo, now, duration, x)
            <==> first <= x && ValidStart(x, dateTo, duration, AllBusy(schedules))
  {
    FreeMeans(schedules, x, duration);
    hide NineOnDayOf, FreeAt, AllBusy, Uninterrupted;
  }

  lemma SameAscending(a: seq<nat>, b: seq<nat>)
    requires Ascending(a) && Ascending(b) && forall x: nat :: x in a <==> x in b
    ensures a == b
  {
    assert (a != [] ==> a[0] in a) && (b != [] ==> b[0] in b);
    if a != [] {
      assert a[0] == b[0];
      SameTails(a, b);
      SameAscending(a[1..], b[1..]);
      assert a == [a[0]] + a[1..] && b == [b[0]] + b[1..];
    }
  }

  lemma SameTails(a: seq<nat>, b: seq<nat>)
    requires Ascending(a) && Ascending(b) && a != [] && b != [] && a[0] == b[0] && forall x: nat :: x in a <==> x in b
    ensures Ascending(a[1..]) && Ascending(b[1..]) && forall x: nat :: x in a[1..] <==> x in b[1..]
  {
    forall x: nat
      ensures x in a[1..] <==> x in a && x != a[0]
      ensures x in b[1..] <==> x in b && x != b[0]
    {
      TailOf(a, x);
      TailOf(b, x);
    }
  }

  lemma TailOf(a: seq<nat>, x: nat)
    requires Ascending(a) && a != []
    ensures x in a[1..] <==> x in a && x != a[0]
  {
    assert a == [a[0]] + a[1..];
    if x in a[1..] {
      var i :| 0 <= i < |a[1..]| && a[1..][i] == x;
      assert a[i + 1] == x;
    }
  }

  /**
   The reference form: if the search is complete from where it begins, the offer is the best eight of the first 24
   starts of the range that may be offered at all.
   */
  lemma OfferedIsReference(schedules: seq<Schedule>, dateFrom: nat, dateTo: nat, now: nat, duration: nat,
                           prefFrom: int, prefTo: int, first: nat, starts: seq<nat>)
    requires Datable(dateTo / MINUTE) && Begins(first, dateFrom, now) && CompleteFrom(first, duration)
    requires Ascending(starts) && forall x: nat :: x in starts <==> MayOffer(schedules, dateFrom, dateTo, now, duration, x)
    ensures IsBest(Offered(schedules, dateFrom, dateTo, now, duration, prefFrom, prefTo),
                   SlotsAt(Take(starts, 24), duration, prefFrom, prefTo), 8)
  {
    hide MayOffer, CompleteFrom, Offered, Candidates, IsBest, Begins, ValidStart, AllBusy, FirstCursor, Scan;
    FirstCursorIs(first, dateFrom, now);
    FirstCursorIsLeast(dateFrom, now);
    ValidFromIsAll(first, dateTo, duration, AllBusy(schedules));
    forall x: nat
      ensures x in starts <==> x in ValidFrom(first, dateTo, duration, AllBusy(schedules))
    {
      MayOfferIs(schedules, dateFrom, dateTo, now, duration, first, x);
    }
    SameAscending(starts, ValidFrom(first, dateTo, duration, AllBusy(schedules)));
    OfferedIsBest(schedules, dateFrom, dateTo, now, duration, prefFrom, prefTo);
    CompleteWhenSeen(first, dateTo, duration, AllBusy(schedules), 24);
    CandidatesAre(schedules, dateFrom, dateTo, now, duration, prefFrom, prefTo);
  }

  lemma CandidatesAre(schedules: seq<Schedule>, dateFrom: nat, dateTo: nat, now: nat, duration: int, prefFrom: int, prefTo: int)
    ensures Candidates(schedules, dateFrom, dateTo, now, duration, prefFrom, prefTo)
         == SlotsAt(Scan(FirstCursor(dateFrom, now), dateTo, duration, AllBusy(schedules), 24), duration, prefFrom, prefTo)
  {
  }

  /** In particular for every duration below 390 minutes, unless nine is past and the clock stands between 23:30 and 8:30. */
  lemma ShortOfferIsReference(schedules: seq<Schedule>, dateFrom: nat, dateTo: nat, now: nat, duration: nat,
                              prefFrom: int, prefTo: int, starts: seq<nat>)
    requires Datable(dateTo / MINUTE) && duration < 390
    requires NineOnDayOf(dateFrom) * 60_000_000 < now ==> 510 <= now / 60_000_000 % 1440 < 1410
    requires Ascending(starts) && forall x: nat :: x in starts <==> MayOffer(schedules, dateFrom, dateTo, now, duration, x)
    ensures IsBest(Offered(schedules, dateFrom, dateTo, now, duration, prefFrom, prefTo),
                   SlotsAt(Take(starts, 24), duration, prefFrom, prefTo), 8)
  {
    var first := FirstCursor(dateFrom, now);
    NineIs(dateFrom);
    FirstCursorIs(first, dateFrom, now);
    FirstCursorIsLeast(dateFrom, now);
    FirstCursorBeforeNine(dateFrom, now);
    hide MayOffer, CompleteFrom, Offered, IsBest, Begins, FirstCursor, NineOf, NineOnDayOf, HourOf;
    ShortIsComplete(first, duration);
    OfferedIsReference(schedules, dateFrom, dateTo, now, duration, prefFrom, prefTo, first, starts);
  }

  /** At ten past five with nothing busy, a search for 390 minutes or more offers a slot from 17:30 into the next day. */
  lemma LateSlotOffered(duration: nat, prefFrom: int, prefTo: int)
    requires 390 <= duration <= DAY + 30
    ensures Offered([], 0, 1051 * MINUTE, 1030 * MINUTE, duration, prefFrom, prefTo) == [SlotAt(1050, duration, prefFrom, prefTo)]
    ensures SlotAt(1050, duration, prefFrom, prefTo).end >= DAY
  {
    LateSlotFound(duration);
    assert FirstCursor(0, 1030 * MINUTE) == 1050;
    hide Scan, Score, HourOf;
    var slot := SlotAt(1050, duration, prefFrom, prefTo);
    assert SlotsAt([1050], duration, prefFrom, prefTo) == [slot];
    assert Sorted([slot]) == [slot] by {
      assert [slot][..0] == [];
    }
  }

  /** Until one o'clock, until four, later. */
  function PartOfDay(t: int): int {
    if t % DAY < 13 * 60 then 0 else if t % DAY < 16 * 60 then 1 else 2
  }

  /** What the score means for the order: preferred hours first, then the earlier part of the day, then the earlier start. */
  lemma BetterMeans(a: nat, b: nat, duration: int, prefFrom: int, prefTo: int)
    ensures Better(SlotAt(a, duration, prefFrom, prefTo), SlotAt(b, duration, prefFrom, prefTo))
            <==> if Preferred(a, prefFrom, prefTo) != Preferred(b, prefFrom, prefTo) then Preferred(a, prefFrom, prefTo)
                 else if PartOfDay(a) != PartOfDay(b) then PartOfDay(a) < PartOfDay(b)
                 else a < b
  {
    assert HourOf(a) <= 12 <==> a % DAY < 13 * 60;
    assert HourOf(b) <= 12 <==> b % DAY < 13 * 60;
  }

  /**
   What an offered slot says: its start, its end after the duration, and its score, which is ten in the preferred hours
   and zero outside them, and two more until one o'clock or one more until four.
   */
  lemma SlotIs(t: nat, duration: int, prefFrom: int, prefTo: int)
    ensures var slot := SlotAt(t, duration, prefFrom, prefTo);
            && slot.start == t && slot.end == t + duration
            && slot.score == (if prefFrom * 60 <= t % 1440 < prefTo * 60 then 10 else 0)
                             + (if t % 1440 < 780 then 2 else if t % 1440 < 960 then 1 else 0)
  {
  }

  /** Every offered slot is one of these, for a start the search found. */
  lemma OfferedAreSlots(schedules: seq<Schedule>, dateFrom: nat, dateTo: nat, now: nat, duration: int, prefFrom: int, prefTo: int, slot: Slot)
    requires Datable(dateTo / MINUTE) && slot in Offered(schedules, dateFrom, dateTo, now, duration, prefFrom, prefTo)
    ensures slot == SlotAt(slot.start, duration, prefFrom, prefTo)
  {
    OfferedIsBest(schedules, dateFrom, dateTo, now, duration, prefFrom, prefTo);
    hide Offered, Scan, Score, DistinctStarts;
  }

  function PreferredStarts(starts: seq<nat>, prefFrom: int, prefTo: int): set<nat> {
    set t | t in starts && Preferred(t, prefFrom, prefTo)
  }

  /**
   Slots in the preferred hours come first, and another slot is offered only when fewer than eight
   candidates are preferred, all of which are then offered.
   */
  lemma PreferredComeFirst(best: seq<Slot>, starts: seq<nat>, duration: int, prefFrom: int, prefTo: int)
    requires IsBest(best, SlotsAt(starts, duration, prefFrom, prefTo), MAX_SLOTS)
    ensures forall i, j | 0 <= i < |best| && 0 <= j < |best|
                          && Preferred(best[i].start, prefFrom, prefTo) && !Preferred(best[j].start, prefFrom, prefTo) :: i < j
    ensures (exists s :: s in best && !Preferred(s.start, prefFrom, prefTo)) ==>
              && (forall t | t in starts && Preferred(t, prefFrom, prefTo) :: SlotAt(t, duration, prefFrom, prefTo) in best)
              && |PreferredStarts(starts, prefFrom, prefTo)| < MAX_SLOTS
  {
    var slots := SlotsAt(starts, duration, prefFrom, prefTo);
    forall s | s in best
      ensures s.score == Score(s.start, prefFrom, prefTo)
    {
      assert s in slots;
    }
    hide HourOf;
    forall i, j | 0 <= i < |best| && 0 <= j < |best|
                  && Preferred(best[i].start, prefFrom, prefTo) && !Preferred(best[j].start, prefFrom, prefTo)
      ensures i < j
    {
      assert best[i] in best && best[j] in best;
      assert !Better(best[j], best[i]);
    }
    if s :| s in best && !Preferred(s.start, prefFrom, prefTo) {
      forall t | t in starts && Preferred(t, prefFrom, prefTo)
        ensures SlotAt(t, duration, prefFrom, prefTo) in best
      {
        var k :| 0 <= k < |starts| && starts[k] == t;
        assert slots[k] == SlotAt(t, duration, prefFrom, prefTo);
      }
      FewerPreferred(best, s, PreferredStarts(starts, prefFrom, prefTo));
    }
  }

  function StartsOf(slots: seq<Slot>): set<nat> {
    if slots == [] then {} else {slots[0].start} + StartsOf(slots[1..])
  }

  lemma {:induction false} StartsOfSlots(slots: seq<Slot>)
    ensures |StartsOf(slots)| <= |slots|
    ensures forall s | s in slots :: s.start in StartsOf(slots)
  {
    if slots != [] {
      StartsOfSlots(slots[1..]);
    }
  }

  lemma FewerPreferred(best: seq<Slot>, other: Slot, preferred: set<nat>)
    requires other in best && other.start !in preferred
    requires forall t | t in preferred :: exists s :: s in best && s.start == t
    ensures |preferred| < |best|
  {
    StartsOfSlots(best);
    Fewer(preferred + {other.start}, StartsOf(best));
  }

  lemma Fewer(a: set<nat>, b: set<nat>)
    requires a <= b
    ensures |a| <= |b|
  {
    assert b == a + (b - a);
  }

  // ---------------------------------------------------------------- search against check

  /** Every offered slot is one the availability check calls available on the same schedules. */
  lemma OfferedAreAvailable(schedules: seq<Schedule>, dateFrom: nat, dateTo: nat, now: nat, duration: int,
                            prefFrom: int, prefTo: int)
    requires Datable(dateTo / MINUTE)
    ensures forall s | s in Offered(schedules, dateFrom, dateTo, now, duration, prefFrom, prefTo) ::
              s.end == s.start + duration && AllConflicts(schedules, s.start * MINUTE, s.end * MINUTE) == []
  {
    var best := Offered(schedules, dateFrom, dateTo, now, duration, prefFrom, prefTo);
    var slots := Candidates(schedules, dateFrom, dateTo, now, duration, prefFrom, prefTo);
    var starts := Scan(FirstCursor(dateFrom, now), dateTo, duration, AllBusy(schedules), MAX_SLOTS * 3);
    OfferedIsBest(schedules, dateFrom, dateTo, now, duration, prefFrom, prefTo);
    ScanAscends(FirstCursor(dateFrom, now), dateTo, duration, AllBusy(schedules), MAX_SLOTS * 3);
    hide Offered, Scan, FirstCursor, AllBusy, AllConflicts, OutOfHours, EndsLate;
    forall s | s in best
      ensures s.end == s.start + duration && AllConflicts(schedules, s.start * MINUTE, s.end * MINUTE) == []
    {
      var k :| 0 <= k < |slots| && slots[k] == s;
      assert starts[k] in starts;
      SearchAgreesWithCheck(schedules, s.start * MINUTE, s.end * MINUTE);
    }
  }

  /** With the four usual statuses, the half hours of the working day that pass the check are exactly the valid starts. */
  lemma AvailableStartsAreValid(schedules: seq<Schedule>, t: nat, dateTo: nat, duration: int)
    requires forall i: nat, k: nat | Holds(schedules, i, k) ::
               schedules[i].items[k].status.Some? && schedules[i].items[k].status.value in ["free", "busy", "tentative", "oof"]
    ensures ValidStart(t, dateTo, duration, AllBusy(schedules))
            <==> && t % SLOT_INTERVAL == 0 && !OutOfHours(t) && t % DAY + duration <= WORK_HOUR_END * 60
                 && t * MINUTE < dateTo && AllConflicts(schedules, t * MINUTE, (t + duration) * MINUTE) == []
  {
    UsualStatusesAgree(schedules, t * MINUTE, (t + duration) * MINUTE);
  }
}
