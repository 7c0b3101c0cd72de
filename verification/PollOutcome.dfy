/** What polling a row does to other groups, and what one calendar's poll restores, raises and deletes. */
module PollOutcome {
  import opened Basics
  import opened SyncModel
  import opened SyncInvariants
  import opened Polling
  import opened SyncRuns
  import opened RepairTheorems
  import opened PollTheorems

  // ---------------------------------------------------------------- groups a polled row leaves alone

  /** Group g is as in st. */
  predicate SameGroup(st: State, s: State, g: nat) {
    g < |st.groups| && g < |s.groups| && s.groups[g] == st.groups[g]
  }

  lemma SyncSparesOtherGroups(st: State, p: nat, faults: set<ItemId>, now: Time, g: nat)
    requires Wf(st) && p < |st.rows| && g < |st.groups| && st.rows[p].group != g
    ensures SameGroup(st, SyncTx(st, p, faults, now), g)
  {
    hide SyncedRows, SyncedItems, SavedExchange, MirrorBody, Failures;
  }

  lemma DeleteSparesOtherGroups(st: State, user: nat, e: nat, all: bool, faults: set<ItemId>, now: Time, g: nat)
    requires Wf(st) && e < |st.rows| && g < |st.groups| && st.rows[e].group != g
    ensures SameGroup(st, DeleteTx(st, user, e, all, faults, now), g)
  {
    hide DeletedRows, DeletedItems;
  }

  lemma SyncSparesOthers(st: State, p: nat, faults: set<ItemId>, now: Time, j: nat)
    requires Good(st) && p < |st.rows| && j < |st.rows| && !IsTarget(st, p, j)
    ensures SameCopy(st, SyncTx(st, p, faults, now), j)
  {
    SavedItem(st, p, faults, now, j);
  }

  lemma DeleteSparesOthers(st: State, user: nat, e: nat, all: bool, faults: set<ItemId>, now: Time, j: nat)
    requires Good(st) && e < |st.rows| && j < |st.rows| && st.rows[j].group != st.rows[e].group
    ensures SameCopy(st, DeleteTx(st, user, e, all, faults, now), j)
  {
  }

  lemma ExternalDeleteSparesOthers(s: State, i: nat, faults: set<ItemId>, now: Time, j: nat)
    requires Good(s) && i < |s.rows| && j < |s.rows| && s.rows[i].role.Primary? && s.rows[j].group != s.rows[i].group
    ensures SameCopy(s, ExternalDeleteTx(s, s.rows[i].item, faults, now), j)
    ensures SameGroup(s, ExternalDeleteTx(s, s.rows[i].item, faults, now), s.rows[j].group)
  {
    var e := RowOfItem(s.rows, s.rows[i].item, None, true);
    if e.Some? {
      assert e.value == i;
      DeleteSparesOthers(s, s.rows[i].user, i, true, faults, now, j);
      DeleteSparesOtherGroups(s, s.rows[i].user, i, true, faults, now, s.rows[j].group);
    }
    hide DeleteTx, RepairTx, OnePrimary, OneCopyPerCalendar, OneOwner, DeletionComplete, DistinctItems;
  }

  /** Polling primary i leaves every row and item of other groups as they are. */
  lemma PollRowSparesOthers(s: State, i: nat, r: Row, view: map<ItemId, nat>, faults: set<ItemId>, now: Time, j: nat)
    requires Good(s) && i < |s.rows| && j < |s.rows| && s.rows[i].role.Primary? && r.item == s.rows[i].item
    requires s.rows[j].group != s.rows[i].group
    ensures SameCopy(s, PollRow(s, i, r, view, faults, now).0, j)
    ensures SameGroup(s, PollRow(s, i, r, view, faults, now).0, s.rows[j].group)
  {
    GroupExists(s, j);
    hide ExternalDeleteTx, SyncTx, Failures, MarkSeen, SameCopy, Wf, OnePrimary, OneCopyPerCalendar, OneOwner, DeletionComplete,
         DistinctItems;
    if r.item !in view {
      ExternalDeleteSparesOthers(s, i, faults, now, j);
    } else if r.seenKey == Some(view[r.item]) {
      SameCopyReflexive(s, j);
    } else {
      NotTarget(s, i, j);
      SyncSparesOthers(s, i, faults, now, j);
      SyncSparesOtherGroups(s, i, faults, now, s.rows[j].group);
      MarkSeenSparesRow(s, SyncTx(s, i, faults, now), i, view[r.item], j);
      MarkSeenSparesGroups(SyncTx(s, i, faults, now), i, view[r.item]);
    }
  }

  lemma GroupExists(s: State, j: nat)
    requires Wf(s) && j < |s.rows|
    ensures s.rows[j].group < |s.groups|
  {
  }

  lemma MarkSeenSparesGroups(s: State, i: nat, key: nat)
    ensures MarkSeen(s, i, key).groups == s.groups
  {
  }

  lemma NotTarget(s: State, i: nat, j: nat)
    requires i < |s.rows| && j < |s.rows| && s.rows[j].group != s.rows[i].group
    ensures !IsTarget(s, i, j) && i != j
  {
  }

  lemma SameCopyTransitive(a: State, b: State, c: State, j: nat)
    requires SameCopy(a, b, j) && SameCopy(b, c, j)
    ensures SameCopy(a, c, j)
  {
  }

  lemma OtherGroups(st: State, i: nat, j: nat)
    requires Wf(st) && OnePrimary(st) && i < |st.rows| && j < |st.rows| && st.rows[i].role.Primary? && PrimaryOf(st, j) != i
    ensures st.rows[j].group != st.rows[i].group
  {
    assert PrimaryOf(st, i) == i;
  }

  /** Row j, its item and its group are as in st. */
  predicate Spared(st: State, s: State, j: nat) {
    SameCopy(st, s, j) && SameGroup(st, s, st.rows[j].group)
  }

  lemma SparedReflexive(st: State, j: nat)
    requires Wf(st) && j < |st.rows|
    ensures Spared(st, st, j)
  {
  }

  lemma SparedTransitive(a: State, b: State, c: State, j: nat)
    requires Spared(a, b, j) && Spared(b, c, j)
    ensures Spared(a, c, j)
  {
    SameCopyTransitive(a, b, c, j);
  }

  /** After k rows of a calendar's poll, groups whose primary has not been polled yet are as they were. */
  lemma {:induction false} PollRowsSpare(st: State, cal: nat, w: Window, view: map<ItemId, nat>, faults: set<ItemId>, now: Time, k: nat,
                                         j: nat)
    requires Good(st) && k <= |st.rows| && j < |st.rows|
    requires PrimaryOf(st, j) >= k || !Polled(st.rows[PrimaryOf(st, j)], cal, w)
    ensures Spared(st, PollRows(st, cal, w, view, faults, now, k).0, j)
  {
    hide PollRow, Quiet, Polled, Spared, Wf, OnePrimary, OneCopyPerCalendar, OneOwner, DeletionComplete, DistinctItems;
    if k == 0 {
      SparedReflexive(st, j);
    } else {
      PollRowsSpare(st, cal, w, view, faults, now, k - 1, j);
      var (s, raised) := PollRows(st, cal, w, view, faults, now, k - 1);
      if !raised && Polled(st.rows[k - 1], cal, w) {
        QuietPollRows(st, cal, w, view, faults, now, k - 1);
        StepSpares(st, s, cal, w, view, faults, now, k - 1, j);
        SparedTransitive(st, s, PollRow(s, k - 1, st.rows[k - 1], view, faults, now).0, j);
      }
    }
  }

  lemma StepSpares(st: State, s: State, cal: nat, w: Window, view: map<ItemId, nat>, faults: set<ItemId>, now: Time, i: nat, j: nat)
    requires Good(st) && Quiet(st, s) && i < |st.rows| && j < |st.rows| && Polled(st.rows[i], cal, w) && PrimaryOf(st, j) != i
    ensures Spared(s, PollRow(s, i, st.rows[i], view, faults, now).0, j)
  {
    SameKinds(st, s);
    OtherGroups(st, i, j);
    SameGroups(st, s);
    hide PollRow, Quiet, Good, Wf;
    PollRowSparesOthers(s, i, st.rows[i], view, faults, now, j);
  }

  lemma SameGroups(st: State, s: State)
    requires Wf(st) && Quiet(st, s)
    ensures Wf(s) && |s.rows| == |st.rows| && s.calendars == st.calendars
    ensures forall j | 0 <= j < |st.rows| ::
              s.rows[j].group == st.rows[j].group && s.rows[j].calendar == st.rows[j].calendar && PrimaryOf(s, j) == PrimaryOf(st, j)
  {
  }

  // ---------------------------------------------------------------- restoring an edited mirror

  /** Row and item of mirror j agree with its primary. */
  predicate Agrees(st: State, j: nat)
    requires Wf(st) && j < |st.rows|
  {
    RowAgrees(st, j) && ItemAgrees(st, j)
  }

  lemma MarkSeenKeepsAgreement(s: State, i: nat, key: nat, j: nat)
    requires Wf(s) && j < |s.rows|
    ensures |MarkSeen(s, i, key).rows| == |s.rows| && Agrees(MarkSeen(s, i, key), j) == Agrees(s, j)
  {
    MarkSeenSpares(s, i, key, j);
  }

  /**
   Polling a listed primary brings a live mirror of its group that disagreed back into agreement exactly
   if the primary's change key is new and the mirror can be reached.
   */
  lemma PollRestoresIff(st: State, i: nat, view: map<ItemId, nat>, faults: set<ItemId>, now: Time, j: nat)
    requires Good(st) && i < |st.rows| && st.rows[i].role.Primary? && st.rows[i].item in view
    requires j < |st.rows| && IsTarget(st, i, j) && !Agrees(st, j)
    ensures var t := PollRow(st, i, st.rows[i], view, faults, now).0;
            |t.rows| == |st.rows|
            && (Agrees(t, j) <==> st.rows[i].seenKey != Some(view[st.rows[i].item]) && Reachable(st, faults, j))
  {
    if st.rows[i].seenKey != Some(view[st.rows[i].item]) {
      SyncedMirrorAgrees(st, i, faults, now, j);
      MarkSeenKeepsAgreement(SyncTx(st, i, faults, now), i, view[st.rows[i].item], j);
    }
    hide SyncTx, MarkSeen, Agrees, Good, Failures, Reachable;
  }

  // ---------------------------------------------------------------- one calendar

  /** The primary is listed under a key not seen before. */
  predicate NewKey(st: State, i: nat, view: map<ItemId, nat>) {
    i < |st.rows| && st.rows[i].item in view && st.rows[i].seenKey != Some(view[st.rows[i].item])
  }

  /** Polling row i raises: its key is new and one of its live mirrors cannot be updated. */
  ghost predicate Raises(st: State, i: nat, view: map<ItemId, nat>, faults: set<ItemId>) {
    NewKey(st, i, view) && exists j: nat :: j < |st.rows| && Missed(st, i, faults, j)
  }

  lemma RowRaises(s: State, i: nat, view: map<ItemId, nat>, faults: set<ItemId>, now: Time)
    requires Wf(s) && i < |s.rows|
    ensures PollRow(s, i, s.rows[i], view, faults, now).1 <==> Raises(s, i, view, faults)
  {
    FailsIffMissed(s, i, faults);
    hide SyncTx, ExternalDeleteTx, MarkSeen, Missed, Failures, Wf;
  }

  lemma FailsIffMissed(s: State, i: nat, faults: set<ItemId>)
    requires i < |s.rows|
    ensures Failures(s, i, faults) != [] <==> exists j: nat :: j < |s.rows| && Missed(s, i, faults, j)
  {
    StaleMeansTarget(s, i, faults, |s.rows|);
    hide StaleCalendars, IsTarget, Reachable;
    if Failures(s, i, faults) != [] {
      var j :| 0 <= j < |s.rows| && IsTarget(s, i, j) && !Reachable(s, faults, j);
      assert Missed(s, i, faults, j);
    }
  }

  /** Every row and item of the group of primary i, and the group itself, is as in st. */
  ghost predicate GroupAsWas(st: State, s: State, i: nat)
    requires Wf(st)
  {
    && (forall j | 0 <= j < |st.rows| && PrimaryOf(st, j) == i :: SameCopy(st, s, j))
    && (i < |st.rows| && PrimaryOf(st, i) == i ==> SameGroup(st, s, st.rows[i].group))
  }

  /** The group of primary i, seen from two states with the same groups. */
  lemma GroupMembers(st: State, s: State, i: nat, j: nat)
    requires Good(st) && Quiet(st, s) && GroupAsWas(st, s, i)
    requires i < |st.rows| && st.rows[i].role.Primary? && j < |st.rows|
    ensures |s.rows| == |st.rows| && s.rows[i] == st.rows[i] && IsTarget(s, i, j) == IsTarget(st, i, j)
    ensures IsTarget(st, i, j) ==> PrimaryOf(st, j) == i && SameCopy(st, s, j)
  {
    SameGroups(st, s);
    assert PrimaryOf(st, i) == i;
    if st.rows[j].group == st.rows[i].group {
      assert PrimaryOf(st, j) == i;
    }
  }

  lemma GroupAsWasTransitive(a: State, b: State, d: State, i: nat)
    requires Good(a) && Quiet(a, b) && GroupAsWas(a, b, i) && GroupAsWas(b, d, i) && i < |a.rows| && a.rows[i].role.Primary?
    ensures GroupAsWas(a, d, i)
  {
    SameGroups(a, b);
    GroupMembers(a, b, i, i);
    forall j | 0 <= j < |a.rows| && PrimaryOf(a, j) == i
      ensures SameCopy(a, d, j)
    {
      SameCopyTransitive(a, b, d, j);
    }
    hide Quiet, SameCopy, Good;
  }

  lemma MissedAsBefore(st: State, s: State, i: nat, faults: set<ItemId>, j: nat)
    requires Good(st) && Quiet(st, s) && GroupAsWas(st, s, i)
    requires i < |st.rows| && st.rows[i].role.Primary? && j < |st.rows|
    ensures |s.rows| == |st.rows| && Missed(s, i, faults, j) == Missed(st, i, faults, j)
  {
    GroupMembers(st, s, i, j);
    hide Good, Quiet, GroupAsWas;
  }

  lemma RaisesAsBefore(st: State, s: State, i: nat, view: map<ItemId, nat>, faults: set<ItemId>)
    requires Good(st) && Quiet(st, s) && GroupAsWas(st, s, i) && i < |st.rows| && st.rows[i].role.Primary?
    ensures Wf(s) && |s.rows| == |st.rows| && s.rows[i] == st.rows[i] && Raises(s, i, view, faults) == Raises(st, i, view, faults)
  {
    SameKinds(st, s);
    GroupMembers(st, s, i, i);
    forall j: nat | j < |st.rows|
      ensures Missed(s, i, faults, j) == Missed(st, i, faults, j)
    {
      MissedAsBefore(st, s, i, faults, j);
    }
    hide Quiet, GroupAsWas, Missed, OnePrimary, OneCopyPerCalendar, OneOwner, DeletionComplete, DistinctItems;
  }

  /** Before its own turn a polled group is untouched. */
  lemma BeforeItsTurn(st: State, cal: nat, w: Window, view: map<ItemId, nat>, faults: set<ItemId>, now: Time, i: nat)
    requires Good(st) && i < |st.rows|
    ensures GroupAsWas(st, PollRows(st, cal, w, view, faults, now, i).0, i)
    ensures Quiet(st, PollRows(st, cal, w, view, faults, now, i).0)
  {
    QuietPollRows(st, cal, w, view, faults, now, i);
    forall j | 0 <= j < |st.rows| && PrimaryOf(st, j) == i
      ensures Spared(st, PollRows(st, cal, w, view, faults, now, i).0, j)
    {
      PollRowsSpare(st, cal, w, view, faults, now, i, j);
    }
    hide PollRows, Quiet, Good;
  }

  /** Some polled primary among the first k rows raises, judged by the state before the poll. */
  ghost predicate Blocked(st: State, cal: nat, w: Window, view: map<ItemId, nat>, faults: set<ItemId>, k: nat)
    requires k <= |st.rows|
  {
    exists i :: 0 <= i < k && Polled(st.rows[i], cal, w) && Raises(st, i, view, faults)
  }

  lemma BlockedGrows(st: State, cal: nat, w: Window, view: map<ItemId, nat>, faults: set<ItemId>, k: nat)
    requires k < |st.rows|
    ensures Blocked(st, cal, w, view, faults, k + 1)
            <==> Blocked(st, cal, w, view, faults, k) || (Polled(st.rows[k], cal, w) && Raises(st, k, view, faults))
  {
    hide Raises, Polled;
    if Blocked(st, cal, w, view, faults, k) {
      var i :| 0 <= i < k && Polled(st.rows[i], cal, w) && Raises(st, i, view, faults);
      assert i < k + 1;
    }
  }

  /** A calendar's poll raises exactly if, before the poll, a polled primary has a new key and a mirror that cannot be updated. */
  lemma {:induction false} CalendarRaisesIff(st: State, cal: nat, w: Window, view: map<ItemId, nat>, faults: set<ItemId>, now: Time, k: nat)
    requires Good(st) && k <= |st.rows|
    ensures PollRows(st, cal, w, view, faults, now, k).1 <==> Blocked(st, cal, w, view, faults, k)
  {
    hide PollRow, Quiet, GroupAsWas, Raises, Blocked, Wf, OnePrimary, OneCopyPerCalendar, OneOwner, DeletionComplete, DistinctItems;
    if k == 0 {
      NotBlockedYet(st, cal, w, view, faults);
    } else {
      CalendarRaisesIff(st, cal, w, view, faults, now, k - 1);
      BlockedGrows(st, cal, w, view, faults, k - 1);
      if Polled(st.rows[k - 1], cal, w) {
        var s := PollRows(st, cal, w, view, faults, now, k - 1).0;
        BeforeItsTurn(st, cal, w, view, faults, now, k - 1);
        RaisesAsBefore(st, s, k - 1, view, faults);
        RowRaises(s, k - 1, view, faults, now);
      }
    }
  }

  lemma NotBlockedYet(st: State, cal: nat, w: Window, view: map<ItemId, nat>, faults: set<ItemId>)
    ensures !Blocked(st, cal, w, view, faults, 0)
  {
  }

  /** After its own turn a polled group is left alone for the rest of the calendar's poll. */
  lemma {:induction false} AfterItsTurn(st: State, cal: nat, w: Window, view: map<ItemId, nat>, faults: set<ItemId>, now: Time, i: nat, k: nat,
                                        j: nat)
    requires Good(st) && i < k <= |st.rows| && j < |st.rows| && PrimaryOf(st, j) == i
    ensures Spared(PollRows(st, cal, w, view, faults, now, i + 1).0, PollRows(st, cal, w, view, faults, now, k).0, j)
  {
    hide PollRow, Quiet, Spared, Wf, OnePrimary, OneCopyPerCalendar, OneOwner, DeletionComplete, DistinctItems;
    var first := PollRows(st, cal, w, view, faults, now, i + 1).0;
    if k == i + 1 {
      QuietPollRows(st, cal, w, view, faults, now, k);
      SameKinds(st, first);
      SparedReflexive(first, j);
    } else {
      AfterItsTurn(st, cal, w, view, faults, now, i, k - 1, j);
      var (s, raised) := PollRows(st, cal, w, view, faults, now, k - 1);
      if !raised && Polled(st.rows[k - 1], cal, w) {
        QuietPollRows(st, cal, w, view, faults, now, k - 1);
        StepSpares(st, s, cal, w, view, faults, now, k - 1, j);
        SparedTransitive(first, s, PollRow(s, k - 1, st.rows[k - 1], view, faults, now).0, j);
      }
    }
  }

  lemma AgreesAsBefore(st: State, a: State, b: State, j: nat)
    requires Wf(st) && Quiet(st, a) && Quiet(st, b) && j < |st.rows|
    requires SameCopy(a, b, j) && SameCopy(a, b, PrimaryOf(st, j))
    ensures Wf(a) && Wf(b) && |a.rows| == |b.rows| == |st.rows| && Agrees(b, j) == Agrees(a, j)
  {
    SameGroups(st, a);
    SameGroups(st, b);
    hide Quiet, MirrorBody;
  }

  /** Row i's own turn in a calendar's poll. */
  lemma OwnTurn(st: State, cal: nat, w: Window, view: map<ItemId, nat>, faults: set<ItemId>, now: Time, i: nat, j: nat)
    requires Good(st) && i < |st.rows| && Polled(st.rows[i], cal, w) && st.rows[i].item in view
    requires j < |st.rows| && IsTarget(st, i, j) && !Agrees(st, j)
    ensures var t := PollRows(st, cal, w, view, faults, now, i + 1).0;
            && Wf(t) && |t.rows| == |st.rows|
            && (Agrees(t, j) <==> NewKey(st, i, view) && Reachable(st, faults, j) && !Blocked(st, cal, w, view, faults, i))
  {
    var s := PollRows(st, cal, w, view, faults, now, i).0;
    hide PollRow, Good, Agrees, Blocked, GroupAsWas, Quiet, Wf, IsTarget;
    BeforeItsTurn(st, cal, w, view, faults, now, i);
    QuietStart(st);
    SameKinds(st, s);
    IsPrimary(st, cal, w, i);
    TargetAsBefore(st, s, i, faults, j);
    CalendarRaisesIff(st, cal, w, view, faults, now, i);
    AgreesAsBefore(st, st, s, j);
    PollRestoresIff(s, i, view, faults, now, j);
  }

  lemma IsPrimary(st: State, cal: nat, w: Window, i: nat)
    requires i < |st.rows| && Polled(st.rows[i], cal, w)
    ensures st.rows[i].role.Primary?
  {
  }

  lemma TargetAsBefore(st: State, s: State, i: nat, faults: set<ItemId>, j: nat)
    requires Good(st) && Quiet(st, s) && GroupAsWas(st, s, i)
    requires i < |st.rows| && st.rows[i].role.Primary? && j < |st.rows| && IsTarget(st, i, j)
    ensures |s.rows| == |st.rows| && s.rows[i] == st.rows[i] && IsTarget(s, i, j) && PrimaryOf(st, j) == i
    ensures SameCopy(st, s, j) && SameCopy(st, s, i) && Reachable(s, faults, j) == Reachable(st, faults, j)
  {
    GroupMembers(st, s, i, j);
    PrimaryIsOwn(st, i);
    hide Good, Quiet;
  }

  /**
   A whole poll of a calendar restores a live mirror that disagreed with a listed, polled primary exactly
   if the primary's key is new, the mirror can be reached, and no earlier row of the poll raises.
   */
  lemma CalendarRestoresIff(st: State, cal: nat, w: Window, faults: set<ItemId>, now: Time, i: nat, j: nat)
    requires Good(st) && i < |st.rows| && Polled(st.rows[i], cal, w) && st.rows[i].item in View(st, cal, w)
    requires j < |st.rows| && IsTarget(st, i, j) && !Agrees(st, j)
    ensures var t := PollCalendar(st, cal, w, faults, now).0;
            && Wf(t) && |t.rows| == |st.rows|
            && (Agrees(t, j) <==> NewKey(st, i, View(st, cal, w)) && Reachable(st, faults, j)
                                  && !Blocked(st, cal, w, View(st, cal, w), faults, i))
  {
    var view := View(st, cal, w);
    hide PollRows, Agrees, Blocked, Quiet, Wf, View, Reachable, NewKey, OnePrimary, OneCopyPerCalendar, OneOwner,
         DeletionComplete, DistinctItems;
    OwnTurn(st, cal, w, view, faults, now, i, j);
    IsPrimary(st, cal, w, i);
    PrimaryIsOwn(st, i);
    TargetOf(st, i, j);
    QuietPollRows(st, cal, w, view, faults, now, i + 1);
    QuietPollRows(st, cal, w, view, faults, now, |st.rows|);
    AfterItsTurn(st, cal, w, view, faults, now, i, |st.rows|, j);
    AfterItsTurn(st, cal, w, view, faults, now, i, |st.rows|, i);
    AgreesAsBefore(st, PollRows(st, cal, w, view, faults, now, i + 1).0, PollCalendar(st, cal, w, faults, now).0, j);
  }

  lemma TargetOf(st: State, i: nat, j: nat)
    requires Good(st) && i < |st.rows| && st.rows[i].role.Primary? && j < |st.rows| && IsTarget(st, i, j)
    ensures PrimaryOf(st, j) == i
  {
    PrimaryIsOwn(st, i);
  }

  lemma PrimaryIsOwn(st: State, i: nat)
    requires Good(st) && i < |st.rows| && st.rows[i].role.Primary?
    ensures PrimaryOf(st, i) == i
  {
  }

  // ---------------------------------------------------------------- what a calendar's poll deletes

  /** At its own turn an unlisted primary is deleted, unless an earlier row raised. */
  lemma OwnTurnDeletes(st: State, cal: nat, w: Window, view: map<ItemId, nat>, faults: set<ItemId>, now: Time, i: nat)
    requires Good(st) && i < |st.rows| && Polled(st.rows[i], cal, w)
    ensures var t := PollRows(st, cal, w, view, faults, now, i + 1).0;
            && |t.rows| == |st.rows|
            && (t.rows[i].deleted.Some? <==> st.rows[i].item !in view && !Blocked(st, cal, w, view, faults, i))
  {
    var s := PollRows(st, cal, w, view, faults, now, i).0;
    hide PollRow, Blocked, GroupAsWas, Quiet, Wf, OnePrimary, OneCopyPerCalendar, OneOwner, DeletionComplete, DistinctItems;
    BeforeItsTurn(st, cal, w, view, faults, now, i);
    SameKinds(st, s);
    GroupMembers(st, s, i, i);
    CalendarRaisesIff(st, cal, w, view, faults, now, i);
    RowDeletes(s, i, view, faults, now);
  }

  lemma RowDeletes(s: State, i: nat, view: map<ItemId, nat>, faults: set<ItemId>, now: Time)
    requires Good(s) && i < |s.rows| && s.rows[i].role.Primary? && s.rows[i].deleted.None?
    ensures var t := PollRow(s, i, s.rows[i], view, faults, now).0;
            |t.rows| == |s.rows| && (t.rows[i].deleted.Some? <==> s.rows[i].item !in view)
  {
    if PollRow(s, i, s.rows[i], view, faults, now).1 {
      SyncSparesPrimaries(s, i, faults, now, i);
    } else {
      PollRowSettles(s, i, view, faults, now);
    }
    hide SyncTx, ExternalDeleteTx, MarkSeen, Failures, Good;
  }

  /**
   A calendar's poll deletes a polled primary exactly if Exchange does not list it and no earlier row raises,
   and then its whole group.
   */
  lemma PollDeletesTheUnlisted(st: State, cal: nat, w: Window, faults: set<ItemId>, now: Time, i: nat)
    requires Good(st) && i < |st.rows| && Polled(st.rows[i], cal, w)
    ensures var s := PollCalendar(st, cal, w, faults, now).0;
            && Wf(s) && |s.rows| == |st.rows|
            && (s.rows[i].deleted.Some? <==> st.rows[i].item !in View(st, cal, w) && !Blocked(st, cal, w, View(st, cal, w), faults, i))
            && (s.rows[i].deleted.Some? ==> GroupGone(s, st.rows[i].group))
  {
    var view := View(st, cal, w);
    hide PollRows, Blocked, Quiet, GroupGone, Wf, View, OnePrimary, OneCopyPerCalendar, OneOwner, DeletionComplete, DistinctItems;
    OwnTurnDeletes(st, cal, w, view, faults, now, i);
    IsPrimary(st, cal, w, i);
    PrimaryIsOwn(st, i);
    QuietPollRows(st, cal, w, view, faults, now, i + 1);
    QuietPollRows(st, cal, w, view, faults, now, |st.rows|);
    AfterItsTurn(st, cal, w, view, faults, now, i, |st.rows|, i);
    var s := PollCalendar(st, cal, w, faults, now).0;
    if s.rows[i].deleted.Some? {
      SameKinds(st, s);
      SameGroups(st, s);
      DeletedPrimary(s, i);
    }
  }

  /** The group is DELETED and all its rows are. */
  ghost predicate GroupGone(s: State, g: nat) {
    g < |s.groups| && s.groups[g].state.Deleted? && forall j | 0 <= j < |s.rows| && s.rows[j].group == g :: s.rows[j].deleted.Some?
  }

  lemma DeletedPrimary(s: State, i: nat)
    requires Good(s) && i < |s.rows| && s.rows[i].role.Primary? && s.rows[i].deleted.Some?
    ensures GroupGone(s, s.rows[i].group)
  {
    PrimaryIsOwn(s, i);
    forall j | 0 <= j < |s.rows| && s.rows[j].group == s.rows[i].group
      ensures s.rows[j].deleted.Some?
    {
      assert PrimaryOf(s, j) == i;
    }
  }

  /** The item of primary i exists in its calendar, unchanged and not hidden. */
  predicate Unchanged(st: State, cal: nat, w: Window, i: nat)
    requires i < |st.rows|
  {
    var x := st.rows[i].item;
    && st.rows[i].start < st.rows[i].end && x in st.exchange && x !in w.hidden && st.exchange[x].calendar == cal
    && st.exchange[x].content.start == st.rows[i].start && st.exchange[x].content.end == st.rows[i].end
  }

  /**
   The lookup of stored primaries has no upper bound on the start, the Exchange listing has one: an event whose
   item exists unchanged is deleted by a calendar's poll exactly if it starts at or after the end of the window
   and no earlier row raises.
   */
  lemma FarEventsAreDeleted(st: State, cal: nat, w: Window, faults: set<ItemId>, now: Time, i: nat)
    requires Good(st) && i < |st.rows| && Polled(st.rows[i], cal, w) && Unchanged(st, cal, w, i)
    ensures var s := PollCalendar(st, cal, w, faults, now).0;
            i < |s.rows|
            && (s.rows[i].deleted.Some? <==> w.end <= st.rows[i].start && !Blocked(st, cal, w, View(st, cal, w), faults, i))
  {
    PollDeletesTheUnlisted(st, cal, w, faults, now, i);
    FarMeansUnlisted(st, cal, w, i);
    hide PollCalendar, Blocked, Good, View, Unchanged;
  }

  lemma FarMeansUnlisted(st: State, cal: nat, w: Window, i: nat)
    requires i < |st.rows| && Polled(st.rows[i], cal, w) && Unchanged(st, cal, w, i)
    ensures st.rows[i].item !in View(st, cal, w) <==> w.end <= st.rows[i].start
  {
  }
}
