/** Polling reaches a fixed point, and what it ignores. */
module PollTheorems {
  import opened Basics
  import opened SyncModel
  import opened SyncInvariants
  import opened Polling
  import opened SyncRuns

  /** Every primary a poll of calendar cal looks at is listed under the key already seen. */
  ghost predicate Settled(st: State, cal: nat, w: Window) {
    forall i | 0 <= i < |st.rows| && Polled(st.rows[i], cal, w) ::
      st.rows[i].item in View(st, cal, w) && st.rows[i].seenKey == Some(View(st, cal, w)[st.rows[i].item])
  }

  /** The calendars a poll over these accounts visits. */
  predicate Visited(st: State, accounts: seq<nat>, c: nat) {
    c < |st.calendars| && st.calendars[c].account in accounts && st.calendars[c].active
  }

  // ---------------------------------------------------------------- polling a settled state

  lemma {:induction false} SettledRows(st: State, cal: nat, w: Window, faults: set<ItemId>, now: Time, k: nat)
    requires Wf(st) && Settled(st, cal, w) && k <= |st.rows|
    ensures PollRows(st, cal, w, View(st, cal, w), faults, now, k) == (st, false)
  {
    if k > 0 {
      SettledRows(st, cal, w, faults, now, k - 1);
    }
  }

  lemma {:induction false} SettledAccount(st: State, account: nat, w: Window, faults: set<ItemId>, now: Time, k: nat)
    requires Wf(st) && k <= |st.calendars|
    requires forall c: nat | Visited(st, [account], c) :: Settled(st, c, w)
    ensures PollAccount(st, account, w, {}, faults, now, k) == (st, false)
  {
    hide Settled, Wf, PollRows, View;
    if k > 0 {
      SettledAccount(st, account, w, faults, now, k - 1);
      if st.calendars[k - 1].account == account && st.calendars[k - 1].active {
        assert Visited(st, [account], k - 1);
        SettledRows(st, k - 1, w, faults, now, |st.rows|);
      }
    }
  }

  /** Polling settled calendars changes nothing and calls for no Exchange update or delete. */
  lemma {:induction false} SettledPoll(st: State, accounts: seq<nat>, w: Window, faults: set<ItemId>, now: Time)
    requires Wf(st) && forall c: nat | Visited(st, accounts, c) :: Settled(st, c, w)
    ensures PollTx(st, accounts, w, {}, faults, now) == (st, [])
  {
    if accounts != [] {
      var before, a := accounts[..|accounts| - 1], accounts[|accounts| - 1];
      assert forall c: nat | Visited(st, before, c) || Visited(st, [a], c) :: Visited(st, accounts, c);
      SettledPoll(st, before, w, faults, now);
      SettledAccount(st, a, w, faults, now, |st.calendars|);
    }
  }

  // ---------------------------------------------------------------- what polling one row leaves alone

  /** Row j and its item are as in st. */
  predicate SameCopy(st: State, s: State, j: nat) {
    && j < |st.rows| && j < |s.rows| && s.rows[j] == st.rows[j]
    && (st.rows[j].item in s.exchange <==> st.rows[j].item in st.exchange)
    && (st.rows[j].item in st.exchange ==> s.exchange[st.rows[j].item] == st.exchange[st.rows[j].item])
  }

  lemma SyncSparesPrimaries(st: State, p: nat, faults: set<ItemId>, now: Time, j: nat)
    requires Good(st) && p < |st.rows| && j < |st.rows| && st.rows[j].role.Primary?
    ensures SameCopy(st, SyncTx(st, p, faults, now), j)
  {
    SavedItem(st, p, faults, now, j);
  }

  lemma DeleteSparesPrimaries(st: State, user: nat, e: nat, all: bool, faults: set<ItemId>, now: Time, j: nat)
    requires Good(st) && j < |st.rows| && st.rows[j].role.Primary? && j != e
    ensures SameCopy(st, DeleteTx(st, user, e, all, faults, now), j)
  {
  }

  lemma ExternalDeleteSpares(s: State, i: nat, faults: set<ItemId>, now: Time, j: nat)
    requires Good(s) && i < |s.rows| && j < |s.rows| && i != j
    requires s.rows[i].role.Primary? && s.rows[j].role.Primary?
    ensures SameCopy(s, ExternalDeleteTx(s, s.rows[i].item, faults, now), j)
  {
    var e := RowOfItem(s.rows, s.rows[i].item, None, true);
    if e.Some? {
      assert e.value == i;
      DeleteSparesPrimaries(s, s.rows[i].user, i, true, faults, now, j);
    }
    hide DeleteTx, RepairTx, Good;
  }

  /** Polling row i: every other primary keeps its copy. */
  lemma PollRowSpares(s: State, i: nat, r: Row, view: map<ItemId, nat>, faults: set<ItemId>, now: Time, j: nat)
    requires Good(s) && i < |s.rows| && j < |s.rows| && i != j
    requires s.rows[i].role.Primary? && s.rows[j].role.Primary? && r.item == s.rows[i].item
    ensures SameCopy(s, PollRow(s, i, r, view, faults, now).0, j)
  {
    hide ExternalDeleteTx, SyncTx, Failures, MarkSeen, SameCopy, Wf, OnePrimary, OneCopyPerCalendar, OneOwner, DeletionComplete,
         DistinctItems;
    if r.item !in view {
      ExternalDeleteSpares(s, i, faults, now, j);
    } else if r.seenKey == Some(view[r.item]) {
      SameCopyReflexive(s, j);
    } else {
      SyncSparesPrimaries(s, i, faults, now, j);
      MarkSeenSparesRow(s, SyncTx(s, i, faults, now), i, view[r.item], j);
    }
  }

  lemma SameCopyReflexive(st: State, j: nat)
    requires j < |st.rows|
    ensures SameCopy(st, st, j)
  {
  }

  lemma MarkSeenSparesRow(st: State, s: State, i: nat, key: nat, j: nat)
    requires SameCopy(st, s, j) && i != j
    ensures SameCopy(st, MarkSeen(s, i, key), j)
  {
  }

  /** The polled row itself: gone if unlisted, otherwise marked with the listed key unless the sync raised. */
  lemma PollRowSettles(s: State, i: nat, view: map<ItemId, nat>, faults: set<ItemId>, now: Time)
    requires Good(s) && i < |s.rows| && s.rows[i].role.Primary? && s.rows[i].deleted.None?
    requires !PollRow(s, i, s.rows[i], view, faults, now).1
    ensures var t := PollRow(s, i, s.rows[i], view, faults, now).0; var x := s.rows[i].item;
            && |t.rows| == |s.rows|
            && t.rows[i] == (if x in view then s.rows[i].(seenKey := Some(view[x])) else s.rows[i].(deleted := Some(now)))
            && (x in view ==> (x in t.exchange <==> x in s.exchange) && (x in s.exchange ==> t.exchange[x] == s.exchange[x]))
  {
    if s.rows[i].item !in view {
      var e := RowOfItem(s.rows, s.rows[i].item, None, true);
      assert Matches(s.rows[i], s.rows[i].item, None, true);
      assert e.Some? && e.value == i;
    } else {
      SyncSparesPrimaries(s, i, faults, now, i);
    }
  }

  // ---------------------------------------------------------------- polling a calendar

  /** What the poll of calendar cal has made of primary j once it is past it (or has no business with it). */
  ghost predicate PolledTo(st: State, s: State, cal: nat, w: Window, j: nat, past: bool, now: Time)
    requires j < |st.rows| && j < |s.rows|
  {
    var x := st.rows[j].item;
    if !past || !Polled(st.rows[j], cal, w) then SameCopy(st, s, j)
    else if x in View(st, cal, w) then
      s.rows[j] == st.rows[j].(seenKey := Some(View(st, cal, w)[x])) && x in s.exchange && s.exchange[x] == st.exchange[x]
    else s.rows[j] == st.rows[j].(deleted := Some(now))
  }

  /** The poll of calendar cal has passed the first k rows. */
  ghost predicate PolledPast(st: State, s: State, cal: nat, w: Window, k: nat, now: Time) {
    |s.rows| == |st.rows|
    && forall j | 0 <= j < |st.rows| && st.rows[j].role.Primary? :: PolledTo(st, s, cal, w, j, j < k, now)
  }

  lemma PolledStart(st: State, cal: nat, w: Window, now: Time)
    ensures PolledPast(st, st, cal, w, 0, now)
  {
    hide Polled, View;
  }

  /** A row the poll has no business with. */
  lemma PolledSkip(st: State, s: State, cal: nat, w: Window, k: nat, now: Time)
    requires k < |st.rows| && PolledPast(st, s, cal, w, k, now) && !Polled(st.rows[k], cal, w)
    ensures PolledPast(st, s, cal, w, k + 1, now)
  {
    hide Polled, View, SameCopy;
    forall j | 0 <= j < |st.rows| && st.rows[j].role.Primary?
      ensures PolledTo(st, s, cal, w, j, j < k + 1, now)
    {
      assert PolledTo(st, s, cal, w, j, j < k, now);
    }
  }

  /** The polled row itself, among the others. */
  lemma PolledSelf(st: State, s: State, cal: nat, w: Window, faults: set<ItemId>, now: Time, k: nat)
    requires Good(st) && k < |st.rows| && Quiet(st, s) && Polled(st.rows[k], cal, w) && PolledPast(st, s, cal, w, k, now)
    requires !PollRow(s, k, st.rows[k], View(st, cal, w), faults, now).1
    ensures s.rows[k] == st.rows[k]
    ensures var t := PollRow(s, k, st.rows[k], View(st, cal, w), faults, now).0;
            |t.rows| == |st.rows| && PolledTo(st, t, cal, w, k, true, now)
  {
    assert PolledTo(st, s, cal, w, k, false, now);
    PollRowSettles(s, k, View(st, cal, w), faults, now);
    hide PollRow, Good;
  }

  lemma PolledNext(st: State, s: State, cal: nat, w: Window, faults: set<ItemId>, now: Time, k: nat)
    requires Good(st) && k < |st.rows| && Quiet(st, s) && Polled(st.rows[k], cal, w) && PolledPast(st, s, cal, w, k, now)
    requires !PollRow(s, k, st.rows[k], View(st, cal, w), faults, now).1
    ensures PolledPast(st, PollRow(s, k, st.rows[k], View(st, cal, w), faults, now).0, cal, w, k + 1, now)
  {
    var view := View(st, cal, w);
    var t := PollRow(s, k, st.rows[k], view, faults, now).0;
    PolledSelf(st, s, cal, w, faults, now, k);
    SameKinds(st, s);
    hide PollRow, Good, Wf, Quiet, PolledTo, SameCopy, View, Polled;
    forall j | 0 <= j < |st.rows| && st.rows[j].role.Primary?
      ensures PolledTo(st, t, cal, w, j, j < k + 1, now)
    {
      if j != k {
        PollRowSpares(s, k, st.rows[k], view, faults, now, j);
        StillPolledTo(st, s, t, cal, w, j, j < k, now);
      }
    }
  }

  lemma SameKinds(st: State, s: State)
    requires Wf(st) && Quiet(st, s)
    ensures Good(s) && |s.rows| == |st.rows|
    ensures forall j | 0 <= j < |st.rows| :: s.rows[j].role == st.rows[j].role && s.rows[j].item == st.rows[j].item
  {
  }

  lemma StillPolledTo(st: State, s: State, t: State, cal: nat, w: Window, j: nat, past: bool, now: Time)
    requires j < |st.rows| && j < |s.rows| && PolledTo(st, s, cal, w, j, past, now) && SameCopy(s, t, j)
    requires s.rows[j].item == st.rows[j].item
    ensures PolledTo(st, t, cal, w, j, past, now)
  {
  }

  lemma {:induction false} PolledSoFar(st: State, cal: nat, w: Window, faults: set<ItemId>, now: Time, k: nat)
    requires Good(st) && k <= |st.rows|
    requires !PollRows(st, cal, w, View(st, cal, w), faults, now, k).1
    ensures PolledPast(st, PollRows(st, cal, w, View(st, cal, w), faults, now, k).0, cal, w, k, now)
  {
    hide PolledPast, PollRow, View, Quiet, Polled, Wf, OnePrimary, OneCopyPerCalendar, OneOwner, DistinctItems, DeletionComplete;
    if k == 0 {
      PolledStart(st, cal, w, now);
    } else {
      PolledSoFar(st, cal, w, faults, now, k - 1);
      var s := PollRows(st, cal, w, View(st, cal, w), faults, now, k - 1).0;
      if Polled(st.rows[k - 1], cal, w) {
        QuietPollRows(st, cal, w, View(st, cal, w), faults, now, k - 1);
        PolledNext(st, s, cal, w, faults, now, k - 1);
      } else {
        PolledSkip(st, s, cal, w, k - 1, now);
      }
    }
  }

  /** A poll of a calendar that does not raise settles it, and unsettles no other calendar. */
  lemma CalendarSettles(st: State, cal: nat, w: Window, faults: set<ItemId>, now: Time)
    requires Good(st) && !PollCalendar(st, cal, w, faults, now).1
    ensures var s := PollCalendar(st, cal, w, faults, now).0;
            Settled(s, cal, w) && forall c: nat | Settled(st, c, w) :: Settled(s, c, w)
  {
    var s := PollCalendar(st, cal, w, faults, now).0;
    PolledSoFar(st, cal, w, faults, now, |st.rows|);
    QuietPollRows(st, cal, w, View(st, cal, w), faults, now, |st.rows|);
    forall i, c | 0 <= i < |s.rows| && Polled(s.rows[i], c, w) && (c == cal || Settled(st, c, w))
      ensures s.rows[i].item in View(s, c, w) && s.rows[i].seenKey == Some(View(s, c, w)[s.rows[i].item])
    {
      CopySettles(st, s, cal, w, now, i, c);
    }
  }

  lemma CopySettles(st: State, s: State, cal: nat, w: Window, now: Time, i: nat, c: nat)
    requires Good(st) && i < |st.rows| && |s.rows| == |st.rows| && Polled(s.rows[i], c, w) && (c == cal || Settled(st, c, w))
    requires st.rows[i].role.Primary? ==> PolledTo(st, s, cal, w, i, true, now)
    requires s.rows[i].role == st.rows[i].role
    ensures s.rows[i].item in View(s, c, w) && s.rows[i].seenKey == Some(View(s, c, w)[s.rows[i].item])
  {
  }

  // ---------------------------------------------------------------- polling everything

  /** From st to t: calendars stay, and the given ones are settled along with those that were. */
  ghost predicate Settling(st: State, t: State, account: nat, w: Window, k: nat) {
    && Good(t) && t.calendars == st.calendars
    && (forall c: nat | c < k && Visited(st, [account], c) :: Settled(t, c, w))
    && (forall c: nat | Settled(st, c, w) :: Settled(t, c, w))
  }

  lemma SettlingSkip(st: State, s: State, account: nat, w: Window, k: nat)
    requires Settling(st, s, account, w, k) && !Visited(st, [account], k)
    ensures Settling(st, s, account, w, k + 1)
  {
    hide Good, Settled, Visited;
  }

  lemma SettlingNext(st: State, s: State, t: State, account: nat, w: Window, k: nat)
    requires Settling(st, s, account, w, k) && Good(t) && t.calendars == s.calendars
    requires Settled(t, k, w) && forall c: nat | Settled(s, c, w) :: Settled(t, c, w)
    ensures Settling(st, t, account, w, k + 1)
  {
    hide Good, Settled, Visited;
  }

  lemma {:induction false} AccountSettles(st: State, account: nat, w: Window, unlisted: set<nat>, faults: set<ItemId>, now: Time, k: nat)
    requires Good(st) && k <= |st.calendars|
    requires !PollAccount(st, account, w, unlisted, faults, now, k).1
    ensures Settling(st, PollAccount(st, account, w, unlisted, faults, now, k).0, account, w, k)
  {
    hide Good, Wf, Settled, Settling, PollCalendar, Quiet;
    if k == 0 {
      SettlingStart(st, account, w);
    } else {
      AccountSettles(st, account, w, unlisted, faults, now, k - 1);
      AccountStep(st, account, w, unlisted, faults, now, k);
    }
  }

  lemma SettlingStart(st: State, account: nat, w: Window)
    requires Good(st)
    ensures Settling(st, st, account, w, 0)
  {
  }

  /** What the loop over an account's calendars does with the next one, when nothing raises. */
  lemma PollAccountNext(st: State, account: nat, w: Window, unlisted: set<nat>, faults: set<ItemId>, now: Time, k: nat)
    requires Wf(st) && 0 < k <= |st.calendars|
    requires !PollAccount(st, account, w, unlisted, faults, now, k).1
    ensures var s := PollAccount(st, account, w, unlisted, faults, now, k - 1).0;
            if Visited(st, [account], k - 1) then
              PollAccount(st, account, w, unlisted, faults, now, k) == PollCalendar(s, k - 1, w, faults, now)
            else PollAccount(st, account, w, unlisted, faults, now, k).0 == s
  {
    hide PollCalendar, Wf;
  }

  lemma AccountStep(st: State, account: nat, w: Window, unlisted: set<nat>, faults: set<ItemId>, now: Time, k: nat)
    requires Good(st) && 0 < k <= |st.calendars|
    requires !PollAccount(st, account, w, unlisted, faults, now, k).1
    requires Settling(st, PollAccount(st, account, w, unlisted, faults, now, k - 1).0, account, w, k - 1)
    ensures Settling(st, PollAccount(st, account, w, unlisted, faults, now, k).0, account, w, k)
  {
    hide PollAccount, PollCalendar, Settled, Settling, Visited, Wf,
         OnePrimary, OneCopyPerCalendar, OneOwner, DistinctItems, DeletionComplete;
    PollAccountNext(st, account, w, unlisted, faults, now, k);
    var s := PollAccount(st, account, w, unlisted, faults, now, k - 1).0;
    if Visited(st, [account], k - 1) {
      SettlingGood(st, s, account, w, k - 1);
      CalendarSettles(s, k - 1, w, faults, now);
      CalendarKeepsGood(s, k - 1, w, faults, now);
      SettlingNext(st, s, PollCalendar(s, k - 1, w, faults, now).0, account, w, k - 1);
    } else {
      SettlingSkip(st, s, account, w, k - 1);
    }
  }

  lemma CalendarKeepsGood(st: State, cal: nat, w: Window, faults: set<ItemId>, now: Time)
    requires Good(st)
    ensures var s := PollCalendar(st, cal, w, faults, now).0; Good(s) && s.calendars == st.calendars
  {
    hide PollRows, OnePrimary, OneCopyPerCalendar, OneOwner, DistinctItems, DeletionComplete;
    QuietPollRows(st, cal, w, View(st, cal, w), faults, now, |st.rows|);
  }

  lemma SettlingGood(st: State, s: State, account: nat, w: Window, k: nat)
    requires Settling(st, s, account, w, k)
    ensures Good(s) && s.calendars == st.calendars
  {
  }

  lemma {:induction false} PollSettles(st: State, accounts: seq<nat>, w: Window, unlisted: set<nat>, faults: set<ItemId>, now: Time)
    requires Good(st) && PollTx(st, accounts, w, unlisted, faults, now).1 == []
    ensures var s := PollTx(st, accounts, w, unlisted, faults, now).0;
            && Good(s) && s.calendars == st.calendars
            && (forall c: nat | Visited(s, accounts, c) :: Settled(s, c, w))
  {
    QuietPoll(st, accounts, w, unlisted, faults, now);
    if accounts != [] {
      var before, a := accounts[..|accounts| - 1], accounts[|accounts| - 1];
      PollSettles(st, before, w, unlisted, faults, now);
      var s := PollTx(st, before, w, unlisted, faults, now).0;
      QuietPoll(st, before, w, unlisted, faults, now);
      AccountSettles(s, a, w, unlisted, faults, now, |s.calendars|);
      assert forall c: nat | Visited(s, accounts, c) :: Visited(s, before, c) || Visited(s, [a], c);
    }
  }

  /**
   Polling reaches a fixed point: after a poll that no listing and no sync cut short, a second
   poll over the same window changes nothing at all.
   */
  lemma SecondPollIsIdle(st: State, accounts: seq<nat>, w: Window, unlisted: set<nat>, faults: set<ItemId>, now: Time,
                         laterFaults: set<ItemId>, later: Time)
    requires Good(st) && PollTx(st, accounts, w, unlisted, faults, now).1 == []
    ensures var s := PollTx(st, accounts, w, unlisted, faults, now).0;
            PollTx(s, accounts, w, {}, laterFaults, later) == (s, [])
  {
    PollSettles(st, accounts, w, unlisted, faults, now);
    SettledPoll(PollTx(st, accounts, w, unlisted, faults, now).0, accounts, w, laterFaults, later);
  }

  // ---------------------------------------------------------------- what a poll never looks at

  /** A mirror edited by hand stays edited: polls look at the change keys of primaries only. */
  lemma PollIgnoresMirrorEdits(st: State, accounts: seq<nat>, w: Window, faults: set<ItemId>, now: Time,
                               i: nat, content: Content, attendees: seq<string>)
    requires Good(st) && i < |st.rows| && st.rows[i].role.Mirror?
    requires forall c: nat | Visited(st, accounts, c) :: Settled(st, c, w)
    ensures var edited := Apply(st, OutlookEdit(st.rows[i].item, content, attendees));
            Good(edited) && PollTx(edited, accounts, w, {}, faults, now) == (edited, [])
  {
    var edited := Apply(st, OutlookEdit(st.rows[i].item, content, attendees));
    OutlookStep(st, OutlookEdit(st.rows[i].item, content, attendees));
    EditedTables(st, i, content, attendees);
    forall c: nat | Visited(edited, accounts, c)
      ensures Settled(edited, c, w)
    {
      assert Visited(st, accounts, c);
      EditKeepsSettled(st, w, i, content, attendees, c);
    }
    hide Good, Settled, Apply, Visited;
    SettledPoll(edited, accounts, w, faults, now);
  }

  lemma EditedTables(st: State, i: nat, content: Content, attendees: seq<string>)
    requires Wf(st) && i < |st.rows|
    ensures var edited := Apply(st, OutlookEdit(st.rows[i].item, content, attendees));
            && edited.rows == st.rows && edited.calendars == st.calendars
            && forall x | x in st.exchange && x != st.rows[i].item :: x in edited.exchange && edited.exchange[x] == st.exchange[x]
  {
  }

  lemma EditKeepsSettled(st: State, w: Window, i: nat, content: Content, attendees: seq<string>, c: nat)
    requires Wf(st) && DistinctItems(st) && i < |st.rows| && st.rows[i].role.Mirror? && Settled(st, c, w)
    ensures Settled(Apply(st, OutlookEdit(st.rows[i].item, content, attendees)), c, w)
  {
    EditedTables(st, i, content, attendees);
    var edited := Apply(st, OutlookEdit(st.rows[i].item, content, attendees));
    hide Apply;
    forall j | 0 <= j < |st.rows| && Polled(st.rows[j], c, w)
      ensures st.rows[j].item in View(edited, c, w) && View(edited, c, w)[st.rows[j].item] == View(st, c, w)[st.rows[j].item]
    {
      assert st.rows[j].item != st.rows[i].item;
    }
  }
}
