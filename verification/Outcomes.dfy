/** What each service call does, field by field: which rows, items and groups change, to what, and which result it returns. */
module Outcomes {
  import opened Basics
  import opened SyncModel
  import opened SyncInvariants
  import opened RepairTheorems
  import opened CreateTheorems
  import Text

  // ---------------------------------------------------------------- the words of these statements

  /** Row j is a live mirror of group g. */
  predicate LiveMirrorOf(st: State, g: nat, j: nat) {
    j < |st.rows| && st.rows[j].group == g && st.rows[j].role == Mirror && st.rows[j].deleted == None
  }

  /** The Exchange call for row j goes through. */
  predicate CallWorks(st: State, faults: set<ItemId>, j: nat)
    requires j < |st.rows|
  {
    st.rows[j].item in st.exchange && st.rows[j].item !in faults
  }

  /** The call for some live mirror of group g fails. */
  ghost predicate SomeMirrorFails(st: State, g: nat, faults: set<ItemId>) {
    exists j: nat :: LiveMirrorOf(st, g, j) && !CallWorks(st, faults, j)
  }

  /** The calendars of the live mirrors of group g whose call fails. */
  ghost predicate FailingCalendar(st: State, g: nat, faults: set<ItemId>, c: nat) {
    exists j: nat :: LiveMirrorOf(st, g, j) && !CallWorks(st, faults, j) && st.rows[j].calendar == c
  }

  lemma SameWords(st: State, p: nat, faults: set<ItemId>, j: nat)
    requires p < |st.rows| && j < |st.rows|
    ensures IsTarget(st, p, j) == LiveMirrorOf(st, st.rows[p].group, j) && Reachable(st, faults, j) == CallWorks(st, faults, j)
    ensures Missed(st, p, faults, j) == (LiveMirrorOf(st, st.rows[p].group, j) && !CallWorks(st, faults, j))
  {
  }

  /** The sync reports exactly the failing calendars. */
  lemma FailuresAre(st: State, p: nat, faults: set<ItemId>)
    requires p < |st.rows|
    ensures forall c: nat :: c in Failures(st, p, faults) <==> FailingCalendar(st, st.rows[p].group, faults, c)
    ensures Failures(st, p, faults) == [] <==> !SomeMirrorFails(st, st.rows[p].group, faults)
  {
    forall c: nat
      ensures c in Failures(st, p, faults) <==> FailingCalendar(st, st.rows[p].group, faults, c)
    {
      FailureIs(st, p, faults, c);
    }
    var failed := Failures(st, p, faults);
    hide Failures, LiveMirrorOf, CallWorks;
    if failed != [] {
      assert failed[0] in failed;
    }
    if j: nat :| LiveMirrorOf(st, st.rows[p].group, j) && !CallWorks(st, faults, j) {
      LiveMirrorIs(st, st.rows[p].group, j);
      assert FailingCalendar(st, st.rows[p].group, faults, st.rows[j].calendar);
    }
  }

  lemma LiveMirrorIs(st: State, g: nat, j: nat)
    requires LiveMirrorOf(st, g, j)
    ensures j < |st.rows|
  {
  }

  lemma FailureIs(st: State, p: nat, faults: set<ItemId>, c: nat)
    requires p < |st.rows|
    ensures c in Failures(st, p, faults) <==> FailingCalendar(st, st.rows[p].group, faults, c)
  {
    ReportHas(st, p, faults, |st.rows|, c);
    forall j: nat | j < |st.rows|
      ensures Missed(st, p, faults, j) == (LiveMirrorOf(st, st.rows[p].group, j) && !CallWorks(st, faults, j))
    {
      SameWords(st, p, faults, j);
    }
    hide Missed, CallWorks, StaleCalendars;
    if FailingCalendar(st, st.rows[p].group, faults, c) {
      var j: nat :| LiveMirrorOf(st, st.rows[p].group, j) && !CallWorks(st, faults, j) && st.rows[j].calendar == c;
      assert Missed(st, p, faults, j);
    }
  }

  // ---------------------------------------------------------------- sync

  /** The title a sync from row p puts behind the prefix of row j; a live mirror p reads its own new title after itself. */
  function TitleFrom(st: State, p: nat, faults: set<ItemId>, j: nat): string
    requires p < |st.rows|
  {
    if p < j && LiveMirrorOf(st, st.rows[p].group, p) && CallWorks(st, faults, p) then "[Занято] " + st.rows[p].title
    else st.rows[p].title
  }

  /** A sync from row p rewrites title and slot of the live mirrors of its group whose call works, and no other row. */
  lemma SyncedRowsAre(st: State, p: nat, faults: set<ItemId>, now: Time)
    requires Wf(st) && p < |st.rows|
    ensures var s := SyncTx(st, p, faults, now);
            && |s.rows| == |st.rows| && s.calendars == st.calendars && s.nextItem == st.nextItem
            && forall j: nat | j < |st.rows| ::
                 s.rows[j] == if LiveMirrorOf(st, st.rows[p].group, j) && CallWorks(st, faults, j) then
                                st.rows[j].(title := "[Занято] " + TitleFrom(st, p, faults, j),
                                            start := st.rows[p].start, end := st.rows[p].end, updated := now)
                              else st.rows[j]
  {
    hide Wf, MirrorBody, SavedExchange, SyncedItems;
  }

  /** It saves the mirror body in the items of those rows, and touches no other item. */
  lemma SyncedItemsAre(st: State, p: nat, faults: set<ItemId>, now: Time)
    requires Wf(st) && DistinctItems(st) && p < |st.rows|
    ensures var s := SyncTx(st, p, faults, now);
            && s.exchange.Keys == st.exchange.Keys
            && forall x | x in st.exchange ::
                 s.exchange[x] == if exists j: nat :: LiveMirrorOf(st, st.rows[p].group, j) && CallWorks(st, faults, j) && st.rows[j].item == x
                                  then st.exchange[x].(content := BodyOf(st, p), key := st.exchange[x].key + 1)
                                  else st.exchange[x]
  {
    forall x | x in st.exchange
      ensures x in SyncedItems(st, p, faults, |st.rows|)
              <==> exists j: nat :: LiveMirrorOf(st, st.rows[p].group, j) && CallWorks(st, faults, j) && st.rows[j].item == x
    {
      if j: nat :| LiveMirrorOf(st, st.rows[p].group, j) && CallWorks(st, faults, j) && st.rows[j].item == x {
        assert IsSynced(st, p, faults, j);
      }
    }
    hide Wf, MirrorBody, SyncedRows, SyncedItems, DistinctItems;
  }

  /**
   The group of row p is DEGRADED from then on if the call for one of its live mirrors fails, and is left exactly as it
   was otherwise; no other group changes.
   */
  lemma SyncedGroupsAre(st: State, p: nat, faults: set<ItemId>, now: Time)
    requires Wf(st) && p < |st.rows|
    ensures var s := SyncTx(st, p, faults, now); var g := st.rows[p].group;
            && |s.groups| == |st.groups|
            && (forall h | 0 <= h < |st.groups| && h != g :: s.groups[h] == st.groups[h])
            && s.groups[g] == if SomeMirrorFails(st, g, faults) then Group(st.groups[g].user, st.groups[g].primary, Degraded, now)
                              else st.groups[g]
  {
    FailuresAre(st, p, faults);
    hide SyncedRows, SavedExchange, SyncedItems, MirrorBody, Failures, SomeMirrorFails, FailingCalendar;
  }

  /** Repair changes the state of its group only, and only if the primary is live and the call for a mirror fails. */
  lemma RepairedGroupsAre(st: State, g: nat, faults: set<ItemId>, now: Time)
    requires Good(st) && g < |st.groups|
    ensures var s := RepairTx(st, g, faults, now);
            && |s.groups| == |st.groups|
            && (forall h | 0 <= h < |st.groups| && h != g :: s.groups[h] == st.groups[h])
            && s.groups[g] == if st.rows[st.groups[g].primary].deleted.None? && SomeMirrorFails(st, g, faults)
                              then Group(st.groups[g].user, st.groups[g].primary, Degraded, now) else st.groups[g]
  {
    LivePrimaryIs(st, g);
    if st.rows[st.groups[g].primary].deleted.None? {
      SyncedGroupsAre(st, st.groups[g].primary, faults, now);
    }
    hide SyncTx, OneCopyPerCalendar, OneOwner, DistinctItems, DeletionComplete, SomeMirrorFails;
  }

  // ---------------------------------------------------------------- update

  /** A field that goes to Exchange is given. */
  predicate Given(patch: Patch) {
    patch.title != None || patch.description != None || patch.start != None || patch.end != None
  }

  /** The user's live event e. */
  predicate LiveEvent(st: State, user: nat, e: nat) {
    e < |st.rows| && st.rows[e].user == user && st.rows[e].deleted == None
  }

  /**
   Which result an update returns: EventMissing exactly for events that are not the user's live ones; then UpdateFailed
   exactly if a field is to be sent and the call fails or the item is missing; then Updated exactly if every live mirror
   can be reached, and MirrorsStale with exactly the calendars of the others, each once, if not.
   */
  lemma UpdateResultIs(st: State, user: nat, e: nat, patch: Patch, failPrimary: bool, faults: set<ItemId>, now: Time)
    requires Good(st)
    ensures var (s, result) := UpdateTx(st, user, e, patch, failPrimary, faults, now);
            && (result.EventMissing? <==> !LiveEvent(st, user, e))
            && (result.EventMissing? || result.UpdateFailed? ==> s == st)
            && (LiveEvent(st, user, e) ==>
                  && (result.UpdateFailed? <==> Given(patch) && (failPrimary || st.rows[e].item !in st.exchange))
                  && (!result.UpdateFailed? ==>
                        && (result.Updated? <==> !SomeMirrorFails(st, st.rows[e].group, faults))
                        && (result.MirrorsStale? <==> SomeMirrorFails(st, st.rows[e].group, faults))
                        && (result.MirrorsStale? ==>
                              && EachOnce(result.failed)
                              && forall c: nat :: c in result.failed <==> FailingCalendar(st, st.rows[e].group, faults, c))))
  {
    hide PatchTx, SyncTx, Failures, FailingCalendar, SomeMirrorFails, Wf, OnePrimary, OneCopyPerCalendar, OneOwner, DistinctItems,
         DeletionComplete;
    if LiveEvent(st, user, e) && !(Given(patch) && (failPrimary || st.rows[e].item !in st.exchange)) {
      PatchedFailures(st, e, patch, faults, now);
    }
  }

  predicate EachOnce(cs: seq<nat>) {
    forall a, b | 0 <= a < b < |cs| :: cs[a] != cs[b]
  }

  /** What a sync after the patch reports, told by the state before it. */
  lemma PatchedFailures(st: State, e: nat, patch: Patch, faults: set<ItemId>, now: Time)
    requires Good(st) && e < |st.rows| && (Sends(patch) ==> st.rows[e].item in st.exchange)
    ensures var failed := Failures(PatchTx(st, e, patch, now), e, faults);
            && (forall c: nat :: c in failed <==> FailingCalendar(st, st.rows[e].group, faults, c))
            && (failed == [] <==> !SomeMirrorFails(st, st.rows[e].group, faults))
            && EachOnce(failed)
  {
    var patched := PatchTx(st, e, patch, now);
    hide PatchTx, StaleCalendars, FailingCalendar, SomeMirrorFails, Wf, OnePrimary, OneCopyPerCalendar, OneOwner, DistinctItems,
         DeletionComplete;
    PatchKeepsPlaces(st, e, patch, now);
    PatchKeepsStructure(st, e, patch, now);
    ReportedOnce(patched, e, faults, |patched.rows|);
    FailuresAre(patched, e, faults);
    SameFailing(st, patched, st.rows[e].group, faults, 0);
    forall c: nat
      ensures FailingCalendar(patched, st.rows[e].group, faults, c) == FailingCalendar(st, st.rows[e].group, faults, c)
    {
      SameFailing(st, patched, st.rows[e].group, faults, c);
    }
  }

  lemma PatchKeepsPlaces(st: State, e: nat, patch: Patch, now: Time)
    requires Wf(st) && e < |st.rows| && (Sends(patch) ==> st.rows[e].item in st.exchange)
    ensures SamePlaces(st, PatchTx(st, e, patch, now))
  {
  }

  /** Rows and items stand where they did. */
  ghost predicate SamePlaces(st: State, s: State) {
    && |s.rows| == |st.rows| && s.exchange.Keys == st.exchange.Keys
    && forall j | 0 <= j < |st.rows| ::
         s.rows[j].group == st.rows[j].group && s.rows[j].role == st.rows[j].role && s.rows[j].deleted == st.rows[j].deleted
         && s.rows[j].item == st.rows[j].item && s.rows[j].calendar == st.rows[j].calendar
  }

  lemma SameFailing(st: State, s: State, g: nat, faults: set<ItemId>, c: nat)
    requires SamePlaces(st, s)
    ensures FailingCalendar(s, g, faults, c) == FailingCalendar(st, g, faults, c)
    ensures SomeMirrorFails(s, g, faults) == SomeMirrorFails(st, g, faults)
  {
    forall j: nat | j < |st.rows|
      ensures LiveMirrorOf(s, g, j) == LiveMirrorOf(st, g, j) && CallWorks(s, faults, j) == CallWorks(st, faults, j)
    {
    }
    assert forall j: nat | LiveMirrorOf(s, g, j) :: j < |s.rows|;
    assert forall j: nat | LiveMirrorOf(st, g, j) :: j < |st.rows|;
    hide LiveMirrorOf, CallWorks;
  }

  /** The groups after an update: as after the sync it ends with. */
  lemma UpdatedGroupsAre(st: State, user: nat, e: nat, patch: Patch, failPrimary: bool, faults: set<ItemId>, now: Time)
    requires Good(st) && LiveEvent(st, user, e) && !(Given(patch) && (failPrimary || st.rows[e].item !in st.exchange))
    ensures var s := UpdateTx(st, user, e, patch, failPrimary, faults, now).0; var g := st.rows[e].group;
            && |s.groups| == |st.groups|
            && (forall h | 0 <= h < |st.groups| && h != g :: s.groups[h] == st.groups[h])
            && s.groups[g] == if SomeMirrorFails(st, g, faults) then Group(st.groups[g].user, st.groups[g].primary, Degraded, now)
                              else st.groups[g]
  {
    hide SyncTx, SomeMirrorFails, FailingCalendar, Failures, OnePrimary, OneCopyPerCalendar, OneOwner, DistinctItems, DeletionComplete;
    var patched := PatchTx(st, e, patch, now);
    PatchKeepsStructure(st, e, patch, now);
    PatchKeepsPlaces(st, e, patch, now);
    SameFailing(st, patched, st.rows[e].group, faults, 0);
    SyncedGroupsAre(patched, e, faults, now);
  }

  /** An update changes no row and no item but those of the event and of the live mirrors of its group that it reaches. */
  lemma UpdateTouchesOnlyItsGroup(st: State, user: nat, e: nat, patch: Patch, failPrimary: bool, faults: set<ItemId>, now: Time, j: nat)
    requires Good(st) && e < |st.rows| && j < |st.rows| && j != e
    requires !(LiveMirrorOf(st, st.rows[e].group, j) && CallWorks(st, faults, j))
    ensures var s := UpdateTx(st, user, e, patch, failPrimary, faults, now).0; var x := st.rows[j].item;
            && |s.rows| == |st.rows| && s.rows[j] == st.rows[j]
            && (x in s.exchange <==> x in st.exchange) && (x in st.exchange ==> s.exchange[x] == st.exchange[x])
  {
    hide PatchTx, SyncTx, Failures, LiveMirrorOf, Wf, OnePrimary, OneCopyPerCalendar, OneOwner, DeletionComplete, DistinctItems;
    if LiveEvent(st, user, e) && !(Given(patch) && (failPrimary || st.rows[e].item !in st.exchange)) {
      var patched := PatchTx(st, e, patch, now);
      PatchKeepsStructure(st, e, patch, now);
      PatchSparesRow(st, e, patch, now, j);
      SyncSparesRow(patched, e, faults, now, j);
    }
  }

  lemma SyncSparesRow(st: State, p: nat, faults: set<ItemId>, now: Time, j: nat)
    requires Wf(st) && DistinctItems(st) && p < |st.rows| && j < |st.rows|
    requires !(LiveMirrorOf(st, st.rows[p].group, j) && CallWorks(st, faults, j))
    ensures var s := SyncTx(st, p, faults, now); var x := st.rows[j].item;
            && |s.rows| == |st.rows| && s.rows[j] == st.rows[j]
            && (x in s.exchange <==> x in st.exchange) && (x in st.exchange ==> s.exchange[x] == st.exchange[x])
  {
    SavedItem(st, p, faults, now, j);
    SameWords(st, p, faults, j);
    hide Wf, MirrorBody, SyncedItems, LiveMirrorOf, CallWorks, IsTarget, Reachable;
  }

  lemma PatchSparesRow(st: State, e: nat, patch: Patch, now: Time, j: nat)
    requires Good(st) && e < |st.rows| && j < |st.rows| && j != e && (Sends(patch) ==> st.rows[e].item in st.exchange)
    ensures SamePlaces(st, PatchTx(st, e, patch, now))
    ensures LiveMirrorOf(PatchTx(st, e, patch, now), st.rows[e].group, j) == LiveMirrorOf(st, st.rows[e].group, j)
    ensures var s := PatchTx(st, e, patch, now); var x := st.rows[j].item;
            && |s.rows| == |st.rows| && s.rows[j] == st.rows[j] && s.rows[e].group == st.rows[e].group
            && (x in s.exchange <==> x in st.exchange) && (x in st.exchange ==> s.exchange[x] == st.exchange[x])
  {
  }

  // ---------------------------------------------------------------- create

  /** The calendar exists, is the user's and is active. */
  predicate Usable(st: State, user: nat, cal: nat) {
    cal < |st.calendars| && st.calendars[cal].user == user && st.calendars[cal].active
  }

  /** Which result a creation returns, and that nothing changes unless the event itself was created. */
  lemma CreateResultIs(st: State, user: nat, cal: nat, draft: Draft, failPrimary: bool, failCals: set<nat>, now: Time)
    requires Wf(st)
    ensures var (s, result) := CreateTx(st, user, cal, draft, failPrimary, failCals, now);
            && (result.CalendarMissing? <==> !Usable(st, user, cal))
            && (result.CreateFailed? <==> Usable(st, user, cal) && failPrimary)
            && (result.CalendarMissing? || result.CreateFailed? ==> s == st)
            && (result.Created? <==> Usable(st, user, cal) && !failPrimary && !SomeCopyFails(st, user, cal, failCals))
            && (result.MirrorsMissing? <==> Usable(st, user, cal) && !failPrimary && SomeCopyFails(st, user, cal, failCals))
            && (result.MirrorsMissing? ==>
                  && EachOnce(result.failed)
                  && forall c: nat :: c in result.failed <==> Receives(st, user, cal, c) && c in failCals)
  {
    MirrorCalendarsAre(st.calendars, user, cal, failCals, true, |st.calendars|);
    hide AddCopies, Wf, MirrorCalendars, MirrorBody;
    var failed := MirrorCalendars(st.calendars, user, cal, failCals, true, |st.calendars|);
    if failed != [] {
      assert Receives(st, user, cal, failed[0]) && failed[0] in failCals;
    }
    if c: nat :| Receives(st, user, cal, c) && c in failCals {
      assert c in failed;
    }
  }

  /** Calendar c is another active, mirror-enabled calendar of the user. */
  predicate Receives(st: State, user: nat, cal: nat, c: nat) {
    && c < |st.calendars| && c != cal && st.calendars[c].user == user && st.calendars[c].active && st.calendars[c].mirrorEnabled
  }

  ghost predicate SomeCopyFails(st: State, user: nat, cal: nat, failCals: set<nat>) {
    exists c: nat :: Receives(st, user, cal, c) && c in failCals
  }

  /**
   What a creation makes of the draft: a new item in the chosen calendar with the draft's fields, a live primary row
   that names it, and a group of the user that names the row, DEGRADED exactly if a copy could not be made.
   */
  lemma CreatedEventIs(st: State, user: nat, cal: nat, draft: Draft, failCals: set<nat>, now: Time)
    requires Wf(st) && Usable(st, user, cal)
    ensures var s := CreateTx(st, user, cal, draft, false, failCals, now).0;
            var n, g, x := |st.rows|, |st.groups|, st.nextItem;
            && x !in st.exchange && x in s.exchange && n < |s.rows| && |s.groups| == g + 1
            && s.exchange[x] == Item(cal, Content(draft.title, if draft.description.Some? then draft.description.value else "",
                                                  draft.start, draft.end), draft.attendees, draft.recurring, 0)
            && s.rows[n] == Row(user, cal, x, g, Primary, draft.title, draft.description, draft.start, draft.end, draft.attendees,
                                draft.recurring, None, now, None)
            && s.groups[g] == Group(user, n, if SomeCopyFails(st, user, cal, failCals) then Degraded else Active, now)
            && s.calendars == st.calendars
  {
    CreateResultIs(st, user, cal, draft, false, failCals, now);
    var primary := PrimaryRow(user, cal, st.nextItem, |st.groups|, draft, now);
    var body := MirrorBody(primary, st.calendars[cal].name);
    var mirrored := MirrorCalendars(st.calendars, user, cal, failCals, false, |st.calendars|);
    CopiesAre(st, primary, PrimaryItem(cal, draft), body, mirrored);
    ItemsAre(st, primary, PrimaryItem(cal, draft), body, mirrored);
    SameCalendars(st, primary, PrimaryItem(cal, draft), body, mirrored);
    hide AddCopies, MirrorCalendars, MirrorBody, SomeCopyFails;
  }

  lemma {:induction false} SameCalendars(st: State, primary: Row, item: Item, body: Content, cs: seq<nat>)
    ensures AddCopies(st, primary, item, body, cs).calendars == st.calendars
  {
    if cs != [] {
      SameCalendars(st, primary, item, body, cs[..|cs| - 1]);
    }
  }

  /**
   The copies: every row after the primary is a live mirror row of the new group in a receiving calendar, under an item
   of its own in that calendar that carries the mirror body, the draft's recurring flag and no attendees.
   */
  lemma CreatedCopiesAre(st: State, user: nat, cal: nat, draft: Draft, failCals: set<nat>, now: Time, i: nat)
    requires Wf(st) && Usable(st, user, cal)
    requires |st.rows| < i < |CreateTx(st, user, cal, draft, false, failCals, now).0.rows|
    ensures var s := CreateTx(st, user, cal, draft, false, failCals, now).0; var n, c := |st.rows|, s.rows[i].calendar;
            var body := MirrorBody(s.rows[n], st.calendars[cal].name);
            && Receives(st, user, cal, c) && c !in failCals
            && s.rows[i] == Row(user, c, st.nextItem + i - n, |st.groups|, Mirror, "[Занято] " + draft.title, Some(body.text),
                                draft.start, draft.end, [], draft.recurring, None, now, None)
            && s.rows[i].item in s.exchange && s.exchange[s.rows[i].item] == Item(c, body, [], draft.recurring, 0)
  {
    var primary := PrimaryRow(user, cal, st.nextItem, |st.groups|, draft, now);
    var body := MirrorBody(primary, st.calendars[cal].name);
    var mirrored := MirrorCalendars(st.calendars, user, cal, failCals, false, |st.calendars|);
    CopiesAre(st, primary, PrimaryItem(cal, draft), body, mirrored);
    ItemsAre(st, primary, PrimaryItem(cal, draft), body, mirrored);
    MirrorCalendarsAre(st.calendars, user, cal, failCals, false, |st.calendars|);
    assert mirrored[i - |st.rows| - 1] in mirrored;
    hide AddCopies, MirrorCalendars, AttendeeText;
  }

  // ---------------------------------------------------------------- delete

  /** A deletion takes effect on the user's own events; a recurring one only in mode "all". */
  predicate Deletes(st: State, user: nat, e: nat, all: bool) {
    e < |st.rows| && st.rows[e].user == user && (all || !st.rows[e].master)
  }

  /**
   A deletion marks the event and the live mirrors of its group, and no other row; it marks that group DELETED and
   leaves the others; without effect it changes nothing.
   */
  lemma DeletedTablesAre(st: State, user: nat, e: nat, all: bool, faults: set<ItemId>, now: Time)
    requires Wf(st)
    ensures var s := DeleteTx(st, user, e, all, faults, now);
            && (!Deletes(st, user, e, all) ==> s == st)
            && (Deletes(st, user, e, all) ==>
                  var g := st.rows[e].group;
                  && s.calendars == st.calendars && s.nextItem == st.nextItem
                  && |s.rows| == |st.rows| && |s.groups| == |st.groups|
                  && (forall j: nat | j < |st.rows| ::
                        s.rows[j] == if j == e || LiveMirrorOf(st, g, j) then st.rows[j].(deleted := Some(now)) else st.rows[j])
                  && (forall h | 0 <= h < |st.groups| && h != g :: s.groups[h] == st.groups[h])
                  && s.groups[g] == Group(st.groups[g].user, st.groups[g].primary, Deleted, now))
  {
    hide DeletedItems;
  }

  /** It removes from Exchange the items of those rows whose call works, and leaves every other item as it is. */
  lemma DeletedItemsAre(st: State, user: nat, e: nat, all: bool, faults: set<ItemId>, now: Time, x: ItemId)
    requires Good(st) && Deletes(st, user, e, all)
    ensures var s := DeleteTx(st, user, e, all, faults, now);
            && (x in s.exchange
                <==> x in st.exchange
                     && !exists j: nat :: j < |st.rows| && (j == e || LiveMirrorOf(st, st.rows[e].group, j)) && CallWorks(st, faults, j)
                                          && st.rows[j].item == x)
            && (x in s.exchange ==> s.exchange[x] == st.exchange[x])
  {
    hide Wf, OnePrimary, OneCopyPerCalendar, OneOwner, DeletionComplete, DistinctItems, DeletedRows;
    if x in DeletedItems(st, e, faults, |st.rows|) {
      var j :| 0 <= j < |st.rows| && Doomed(st, e, j) && Reachable(st, faults, j) && st.rows[j].item == x;
      assert (j == e || LiveMirrorOf(st, st.rows[e].group, j)) && CallWorks(st, faults, j);
    }
    if j: nat :| j < |st.rows| && (j == e || LiveMirrorOf(st, st.rows[e].group, j)) && CallWorks(st, faults, j) && st.rows[j].item == x {
      assert Doomed(st, e, j) && Reachable(st, faults, j);
    }
  }

  /**
   A request for one id: an id some row of the user holds is one deletion of that row in mode "single", counted whatever
   it does; another id is deleted directly exactly if its item exists and some account, the first or a later one, gets
   through; else it is an error.
   */
  lemma OneIdIs(st: State, user: nat, x: ItemId, accounts: seq<nat>, blocked: set<(nat, ItemId)>, faults: set<ItemId>, now: Time)
    requires Good(st)
    ensures var r := DeleteIdsTx(st, user, [x], accounts, blocked, faults, now);
            && (forall e: nat | e < |st.rows| && st.rows[e].user == user && st.rows[e].item == x ::
                  r == (DeleteTx(st, user, e, false, faults, now), 1, []))
            && ((forall e | 0 <= e < |st.rows| && st.rows[e].user == user :: st.rows[e].item != x) ==>
                  r == if x in st.exchange && exists i :: 0 <= i < |accounts| && (accounts[i], x) !in blocked
                       then (st.(exchange := st.exchange - {x}), 1, []) else (st, 0, [x]))
  {
    hide DeleteTx, DirectlyDeletable, DeleteIdsTx, Wf, OnePrimary, OneCopyPerCalendar, OneOwner, DeletionComplete;
    OneStep(st, user, [], x, accounts, blocked, faults, now);
    NoIds(st, user, accounts, blocked, faults, now);
    assert [] + [x] == [x];
    forall e: nat | e < |st.rows| && st.rows[e].user == user && st.rows[e].item == x
      ensures RowOfItem(st.rows, x, Some(user), false) == Some(e)
    {
      assert Matches(st.rows[e], x, Some(user), false);
    }
    DirectlyIs(st, x, accounts, blocked);
  }

  lemma NoIds(st: State, user: nat, accounts: seq<nat>, blocked: set<(nat, ItemId)>, faults: set<ItemId>, now: Time)
    requires Wf(st)
    ensures DeleteIdsTx(st, user, [], accounts, blocked, faults, now) == (st, 0, [])
  {
  }

  lemma DirectlyIs(st: State, x: ItemId, accounts: seq<nat>, blocked: set<(nat, ItemId)>)
    ensures DirectlyDeletable(st, x, accounts, blocked)
            <==> x in st.exchange && exists i :: 0 <= i < |accounts| && (accounts[i], x) !in blocked
  {
  }

  /** The last id of a request. */
  lemma OneStep(st: State, user: nat, ids: seq<ItemId>, x: ItemId, accounts: seq<nat>, blocked: set<(nat, ItemId)>,
                faults: set<ItemId>, now: Time)
    requires Wf(st)
    ensures var (s, deleted, errors) := DeleteIdsTx(st, user, ids, accounts, blocked, faults, now);
            var found := RowOfItem(s.rows, x, Some(user), false);
            DeleteIdsTx(st, user, ids + [x], accounts, blocked, faults, now)
            == if found.Some? then (DeleteTx(s, user, found.value, false, faults, now), deleted + 1, errors)
               else if DirectlyDeletable(s, x, accounts, blocked) then (s.(exchange := s.exchange - {x}), deleted + 1, errors)
               else (s, deleted, errors + [x])
  {
    hide DeleteTx, DirectlyDeletable, Wf, RowOfItem;
    var all := ids + [x];
    assert all[..|all| - 1] == ids && all[|all| - 1] == x;
  }

  /** A longer request handles its ids in order, each in the state the earlier ones left, and adds up their results. */
  lemma {:induction false} IdsInOrder(st: State, user: nat, ids: seq<ItemId>, more: seq<ItemId>, accounts: seq<nat>,
                                      blocked: set<(nat, ItemId)>, faults: set<ItemId>, now: Time)
    requires Wf(st)
    ensures var a := DeleteIdsTx(st, user, ids, accounts, blocked, faults, now);
            var b := DeleteIdsTx(a.0, user, more, accounts, blocked, faults, now);
            DeleteIdsTx(st, user, ids + more, accounts, blocked, faults, now) == (b.0, a.1 + b.1, a.2 + b.2)
  {
    hide DeleteTx, DirectlyDeletable, DeleteIdsTx, RowOfItem, Wf;
    var a := DeleteIdsTx(st, user, ids, accounts, blocked, faults, now);
    if more == [] {
      assert ids + more == ids && a.2 + [] == a.2;
      NoIds(a.0, user, accounts, blocked, faults, now);
    } else {
      var before, x := more[..|more| - 1], more[|more| - 1];
      IdsInOrder(st, user, ids, before, accounts, blocked, faults, now);
      OneStep(st, user, ids + before, x, accounts, blocked, faults, now);
      OneStep(a.0, user, before, x, accounts, blocked, faults, now);
      assert ids + before + [x] == ids + more && before + [x] == more;
      var b := DeleteIdsTx(a.0, user, before, accounts, blocked, faults, now);
      assert a.2 + b.2 + [x] == a.2 + (b.2 + [x]);
    }
  }

  // ---------------------------------------------------------------- the text of a mirror

  /** The attendees as the text names them: the addresses joined by commas, or a phrase for nobody. */
  lemma AttendeeTextIs(names: seq<string>, more: seq<string>)
    requires names != [] && more != [] && (forall i | 0 <= i < |names| :: names[i] != "") && forall i | 0 <= i < |more| :: more[i] != ""
    ensures AttendeeText([]) == "нет участников"
    ensures AttendeeText([names[0]]) == names[0]
    ensures AttendeeText(names + more) == AttendeeText(names) + ", " + AttendeeText(more)
  {
    JoinedIsNotEmpty(names);
    JoinedIsNotEmpty(more);
    Text.JoinConcat(names, more, ", ");
    assert Text.Join([names[0]], ", ") == names[0];
    hide Text.Join;
  }

  lemma JoinedIsNotEmpty(names: seq<string>)
    requires names != [] && names[0] != ""
    ensures Text.Join(names, ", ") != ""
  {
  }

  /** The body of a mirror, word by word as the repository documents it. */
  lemma MirrorBodyIs(primary: Row, calendarName: string)
    ensures MirrorBody(primary, calendarName)
         == Content("[Занято] " + primary.title,
                    "Зеркальная блокировка. Основная встреча: «" + primary.title + "» в календаре «" + calendarName
                    + "». Участники: " + AttendeeText(primary.attendees) + ". Sync group: " + Text.Dec(primary.group) + ".",
                    primary.start, primary.end)
  {
    hide AttendeeText, Text.Dec;
  }
}
