/** Which calendars a new event reaches, and what its copies say. */
module CreateTheorems {
  import opened Basics
  import opened SyncModel

  /** The copies of a new event: its row first, then one mirror row per calendar. */
  lemma {:induction false} CopiesAre(st: State, primary: Row, item: Item, body: Content, cs: seq<nat>)
    ensures var s := AddCopies(st, primary, item, body, cs);
            var n := |st.rows|;
            && |s.rows| == n + 1 + |cs| && s.nextItem == st.nextItem + 1 + |cs|
            && s.rows[..n] == st.rows && s.rows[n] == primary
            && (forall i | n < i < |s.rows| :: s.rows[i] == MirrorRow(primary, cs[i - n - 1], st.nextItem + i - n, body))
  {
    if cs != [] {
      var before := cs[..|cs| - 1];
      hide MirrorRow, MirrorItem;
      CopiesAre(st, primary, item, body, before);
      var s, t := AddCopies(st, primary, item, body, cs), AddCopies(st, primary, item, body, before);
      assert s.rows == t.rows + [MirrorRow(primary, cs[|cs| - 1], st.nextItem + |cs|, body)];
      assert s.rows[..|st.rows|] == t.rows[..|st.rows|];
    }
  }

  /** Each copy gets a fresh item; the items there were stay as they are. */
  lemma {:induction false} ItemsAre(st: State, primary: Row, item: Item, body: Content, cs: seq<nat>)
    requires Wf(st)
    ensures var s := AddCopies(st, primary, item, body, cs);
            && (forall x | x in st.exchange :: x in s.exchange && s.exchange[x] == st.exchange[x])
            && st.nextItem in s.exchange && s.exchange[st.nextItem] == item
            && (forall i | |st.rows| < i < |s.rows| ::
                  s.rows[i].item in s.exchange
                  && s.exchange[s.rows[i].item] == MirrorItem(s.rows[i].calendar, body, primary.master))
  {
    if cs != [] {
      var before := cs[..|cs| - 1];
      hide MirrorItem;
      CopiesAre(st, primary, item, body, cs);
      CopiesAre(st, primary, item, body, before);
      ItemsAre(st, primary, item, body, before);
      var s, t := AddCopies(st, primary, item, body, cs), AddCopies(st, primary, item, body, before);
      assert s.exchange == t.exchange[st.nextItem + |cs| := MirrorItem(cs[|cs| - 1], body, primary.master)];
    }
  }

  /** Row i of the new state is a mirror of the new event in calendar c that blocks its slot and invites nobody. */
  predicate Blocks(s: State, i: nat, c: nat, draft: Draft) {
    && i < |s.rows| && s.rows[i].role.Mirror? && s.rows[i].calendar == c && s.rows[i].deleted.None?
    && s.rows[i].title == BUSY + draft.title && s.rows[i].start == draft.start && s.rows[i].end == draft.end
    && s.rows[i].item in s.exchange
    && var copy := s.exchange[s.rows[i].item];
       && copy.calendar == c && copy.attendees == [] && copy.recurring == draft.recurring
       && copy.content.subject == BUSY + draft.title && copy.content.start == draft.start && copy.content.end == draft.end
  }

  /**
   A successful creation keeps every earlier row and item, puts one blocking mirror into exactly the
   other active, mirror-enabled calendars of the user whose call did not fail, reports exactly the
   others, and marks the group ACTIVE exactly if there are none.
   */
  lemma CreateReachesEligibleCalendars(st: State, user: nat, cal: nat, draft: Draft, failCals: set<nat>, now: Time)
    requires Wf(st) && cal < |st.calendars| && st.calendars[cal].user == user && st.calendars[cal].active
    ensures var (s, result) := CreateTx(st, user, cal, draft, false, failCals, now);
            var n, g := |st.rows|, |st.groups|;
            && n < |s.rows| && s.rows[..n] == st.rows && s.groups[..g] == st.groups && |s.groups| == g + 1
            && (forall x | x in st.exchange :: x in s.exchange && s.exchange[x] == st.exchange[x])
            && s.rows[n].role.Primary? && s.rows[n].calendar == cal && s.groups[g].primary == n
            && (forall i | n <= i < |s.rows| :: s.rows[i].group == g)
            && (forall c: nat | c < |st.calendars| ::
                  (exists i: nat :: i > n && Blocks(s, i, c, draft)) <==> Eligible(st.calendars, user, cal, c) && c !in failCals)
            && |s.rows| == n + 1 + |MirrorCalendars(st.calendars, user, cal, failCals, false, |st.calendars|)|
            && (forall c: nat | c < |st.calendars| ::
                  (result.MirrorsMissing? && c in result.failed) <==> Eligible(st.calendars, user, cal, c) && c in failCals)
            && (s.groups[g].state.Active? <==> result == Created(n))
  {
    CreatePlaces(st, user, cal, draft, failCals, now);
    MirrorCalendarsAre(st.calendars, user, cal, failCals, false, |st.calendars|);
    MirrorCalendarsAre(st.calendars, user, cal, failCals, true, |st.calendars|);
    var cs := MirrorCalendars(st.calendars, user, cal, failCals, false, |st.calendars|);
    hide MirrorCalendars, AddCopies, Wf, Eligible, CreateTx, Blocks;
    var s := CreateTx(st, user, cal, draft, false, failCals, now).0;
    forall c: nat | c < |st.calendars|
      ensures (exists i: nat :: i > |st.rows| && Blocks(s, i, c, draft)) <==> Eligible(st.calendars, user, cal, c) && c !in failCals
    {
      MirrorsReach(st, user, cal, draft, failCals, now, c);
      assert c in cs <==> Eligible(st.calendars, user, cal, c) && c !in failCals;
    }
  }

  lemma MirrorsReach(st: State, user: nat, cal: nat, draft: Draft, failCals: set<nat>, now: Time, c: nat)
    requires Wf(st) && cal < |st.calendars| && st.calendars[cal].user == user && st.calendars[cal].active
    ensures var s := CreateTx(st, user, cal, draft, false, failCals, now).0;
            (exists i: nat :: i > |st.rows| && Blocks(s, i, c, draft))
            <==> c in MirrorCalendars(st.calendars, user, cal, failCals, false, |st.calendars|)
  {
    var primary := PrimaryRow(user, cal, st.nextItem, |st.groups|, draft, now);
    var body := MirrorBody(primary, st.calendars[cal].name);
    var cs := MirrorCalendars(st.calendars, user, cal, failCals, false, |st.calendars|);
    CopiesAre(st, primary, PrimaryItem(cal, draft), body, cs);
    ItemsAre(st, primary, PrimaryItem(cal, draft), body, cs);
    hide MirrorCalendars, AddCopies, Wf, Eligible, Blocks;
    var s := CreateTx(st, user, cal, draft, false, failCals, now).0;
    MirrorPerCalendar(st, s, primary, body, cs, draft, c);
  }

  /** The tables after a successful creation. */
  lemma CreatePlaces(st: State, user: nat, cal: nat, draft: Draft, failCals: set<nat>, now: Time)
    requires Wf(st) && cal < |st.calendars| && st.calendars[cal].user == user && st.calendars[cal].active
    ensures var (s, result) := CreateTx(st, user, cal, draft, false, failCals, now);
            var n, g := |st.rows|, |st.groups|;
            var failed := MirrorCalendars(st.calendars, user, cal, failCals, true, |st.calendars|);
            && |s.rows| == n + 1 + |MirrorCalendars(st.calendars, user, cal, failCals, false, |st.calendars|)|
            && s.rows[..n] == st.rows && s.groups[..g] == st.groups && |s.groups| == g + 1
            && (forall x | x in st.exchange :: x in s.exchange && s.exchange[x] == st.exchange[x])
            && s.rows[n].role.Primary? && s.rows[n].calendar == cal && s.groups[g].primary == n
            && (forall i | n <= i < |s.rows| :: s.rows[i].group == g)
            && result == (if failed == [] then Created(n) else MirrorsMissing(failed))
            && (s.groups[g].state.Active? <==> failed == [])
  {
    var primary := PrimaryRow(user, cal, st.nextItem, |st.groups|, draft, now);
    var item, body := PrimaryItem(cal, draft), MirrorBody(primary, st.calendars[cal].name);
    var cs := MirrorCalendars(st.calendars, user, cal, failCals, false, |st.calendars|);
    CopiesAre(st, primary, item, body, cs);
    ItemsAre(st, primary, item, body, cs);
    hide MirrorCalendars, AddCopies, Wf, MirrorBody;
  }

  lemma MirrorPerCalendar(st: State, s: State, primary: Row, body: Content, cs: seq<nat>, draft: Draft, c: nat)
    requires |s.rows| == |st.rows| + 1 + |cs|
    requires forall i | |st.rows| < i < |s.rows| ::
               s.rows[i] == MirrorRow(primary, cs[i - |st.rows| - 1], st.nextItem + i - |st.rows|, body)
    requires forall i | |st.rows| < i < |s.rows| ::
               s.rows[i].item in s.exchange
               && s.exchange[s.rows[i].item] == MirrorItem(s.rows[i].calendar, body, primary.master)
    requires primary.title == draft.title && primary.start == draft.start && primary.end == draft.end
    requires primary.master == draft.recurring && body.subject == BUSY + draft.title
    requires body.start == draft.start && body.end == draft.end
    ensures (exists i: nat :: i > |st.rows| && Blocks(s, i, c, draft)) <==> c in cs
  {
    var n := |st.rows|;
    if c in cs {
      var k :| 0 <= k < |cs| && cs[k] == c;
      assert s.rows[n + 1 + k].calendar == c;
      assert Blocks(s, n + 1 + k, c, draft);
    }
    if i: nat :| i > n && Blocks(s, i, c, draft) {
      assert s.rows[i].calendar == cs[i - n - 1];
    }
  }
}
