/** What a sync repairs, what it reports, and why it must start from a primary. */
module RepairTheorems {
  import opened Basics
  import opened SyncModel
  import opened SyncInvariants

  /** The live mirrors of row p's group whose row or item differs from their primary. */
  function Disagreeing(st: State, p: nat): set<nat>
    requires Wf(st) && p < |st.rows|
  {
    set i | 0 <= i < |st.rows| && IsTarget(st, p, i) && !(RowAgrees(st, i) && ItemAgrees(st, i)) :: i
  }

  lemma SyncedMirrorAgrees(st: State, p: nat, faults: set<ItemId>, now: Time, i: nat)
    requires Good(st) && p < |st.rows| && st.rows[p].role.Primary?
    requires i < |st.rows| && IsTarget(st, p, i)
    ensures var s := SyncTx(st, p, faults, now);
            && Wf(s) && IsTarget(s, p, i)
            && (Reachable(st, faults, i) ==> RowAgrees(s, i) && ItemAgrees(s, i))
            && (!Reachable(st, faults, i) ==>
                  RowAgrees(s, i) == RowAgrees(st, i) && ItemAgrees(s, i) == ItemAgrees(st, i))
  {
    SyncKeepsReferences(st, p, faults, now);
    SavedItem(st, p, faults, now, i);
    var s := SyncTx(st, p, faults, now);
    assert PrimaryOf(s, i) == PrimaryOf(st, i) == p && s.rows[p] == st.rows[p];
  }

  /**
   A sync from a primary leaves in disagreement exactly the mirrors that were so before and whose
   Exchange call failed: it never adds one, and a fault-free sync leaves only missing items.
   */
  lemma SyncLeavesOnlyFailures(st: State, p: nat, faults: set<ItemId>, now: Time)
    requires Good(st) && p < |st.rows| && st.rows[p].role.Primary?
    ensures Wf(SyncTx(st, p, faults, now))
    ensures Disagreeing(SyncTx(st, p, faults, now), p)
            == set i | i in Disagreeing(st, p) && !Reachable(st, faults, i)
    ensures |Disagreeing(SyncTx(st, p, faults, now), p)| <= |Disagreeing(st, p)|
    ensures faults == {} && (forall i | i in Disagreeing(st, p) :: st.rows[i].item in st.exchange)
            ==> Disagreeing(SyncTx(st, p, faults, now), p) == {}
  {
    var s := SyncTx(st, p, faults, now);
    SyncKeepsReferences(st, p, faults, now);
    var left := set i | i in Disagreeing(st, p) && !Reachable(st, faults, i);
    forall i | 0 <= i < |st.rows|
      ensures i in Disagreeing(s, p) <==> i in left
    {
      if IsTarget(st, p, i) {
        SyncedMirrorAgrees(st, p, faults, now, i);
      }
    }
    assert Disagreeing(s, p) == left;
    Subset(left, Disagreeing(st, p));
  }

  lemma {:induction false} Subset(a: set<nat>, b: set<nat>)
    requires a <= b
    ensures |a| <= |b|
    decreases b
  {
    if x :| x in a {
      Subset(a - {x}, b - {x});
    }
  }

  /** Live mirror i of row p's group could not be updated. */
  predicate Missed(st: State, p: nat, faults: set<ItemId>, i: nat)
    requires p < |st.rows| && i < |st.rows|
  {
    IsTarget(st, p, i) && !Reachable(st, faults, i)
  }

  /** Calendar c is that of a live mirror among the first k rows whose call failed. */
  ghost predicate MissedIn(st: State, p: nat, faults: set<ItemId>, k: nat, c: nat)
    requires p < |st.rows| && k <= |st.rows|
  {
    exists i :: 0 <= i < k && Missed(st, p, faults, i) && st.rows[i].calendar == c
  }

  lemma MissedInGrows(st: State, p: nat, faults: set<ItemId>, k: nat, c: nat)
    requires p < |st.rows| && k < |st.rows|
    ensures MissedIn(st, p, faults, k + 1, c)
            <==> MissedIn(st, p, faults, k, c) || (Missed(st, p, faults, k) && st.rows[k].calendar == c)
  {
    hide Missed;
    if MissedIn(st, p, faults, k, c) {
      var i :| 0 <= i < k && Missed(st, p, faults, i) && st.rows[i].calendar == c;
      assert i < k + 1;
    }
  }

  lemma {:induction false} ReportHas(st: State, p: nat, faults: set<ItemId>, k: nat, c: nat)
    requires p < |st.rows| && k <= |st.rows|
    ensures c in StaleCalendars(st, p, faults, k) <==> MissedIn(st, p, faults, k, c)
  {
    hide MissedIn, Missed, StaleCalendars;
    if k == 0 {
      NothingReported(st, p, faults, c);
    } else {
      ReportHas(st, p, faults, k - 1, c);
      ReportGrows(st, p, faults, k - 1);
      MissedInGrows(st, p, faults, k - 1, c);
    }
  }

  lemma NothingReported(st: State, p: nat, faults: set<ItemId>, c: nat)
    requires p < |st.rows|
    ensures StaleCalendars(st, p, faults, 0) == [] && !MissedIn(st, p, faults, 0, c)
  {
  }

  /** The calendars reported are those of the live mirrors whose call failed, each once. */
  lemma ReportIsExact(st: State, p: nat, faults: set<ItemId>, k: nat)
    requires Good(st) && p < |st.rows| && k <= |st.rows|
    ensures forall c: nat :: c in StaleCalendars(st, p, faults, k) <==> MissedIn(st, p, faults, k, c)
    ensures forall a, b | 0 <= a < b < |StaleCalendars(st, p, faults, k)| ::
              StaleCalendars(st, p, faults, k)[a] != StaleCalendars(st, p, faults, k)[b]
  {
    forall c: nat
      ensures c in StaleCalendars(st, p, faults, k) <==> MissedIn(st, p, faults, k, c)
    {
      ReportHas(st, p, faults, k, c);
    }
    ReportedOnce(st, p, faults, k);
  }

  lemma {:induction false} ReportedOnce(st: State, p: nat, faults: set<ItemId>, k: nat)
    requires Good(st) && p < |st.rows| && k <= |st.rows|
    ensures forall a, b | 0 <= a < b < |StaleCalendars(st, p, faults, k)| ::
              StaleCalendars(st, p, faults, k)[a] != StaleCalendars(st, p, faults, k)[b]
  {
    hide Good, Missed, MissedIn, StaleCalendars, Wf;
    if k == 0 {
      NothingReported(st, p, faults, 0);
    } else {
      ReportedOnce(st, p, faults, k - 1);
      ReportGrows(st, p, faults, k - 1);
      if Missed(st, p, faults, k - 1) {
        NotYetReported(st, p, faults, k - 1);
        OneMore(StaleCalendars(st, p, faults, k - 1), st.rows[k - 1].calendar);
      }
    }
  }

  lemma OneMore(cs: seq<nat>, c: nat)
    requires c !in cs && forall a, b | 0 <= a < b < |cs| :: cs[a] != cs[b]
    ensures forall a, b | 0 <= a < b < |cs + [c]| :: (cs + [c])[a] != (cs + [c])[b]
  {
  }

  lemma NotYetReported(st: State, p: nat, faults: set<ItemId>, k: nat)
    requires Good(st) && p < |st.rows| && k < |st.rows| && Missed(st, p, faults, k)
    ensures st.rows[k].calendar !in StaleCalendars(st, p, faults, k)
  {
    ReportHas(st, p, faults, k, st.rows[k].calendar);
  }

  lemma ReportGrows(st: State, p: nat, faults: set<ItemId>, k: nat)
    requires p < |st.rows| && k < |st.rows|
    ensures StaleCalendars(st, p, faults, k + 1)
         == if Missed(st, p, faults, k) then StaleCalendars(st, p, faults, k) + [st.rows[k].calendar] else StaleCalendars(st, p, faults, k)
  {
    assert StaleCalendars(st, p, faults, k) + [] == StaleCalendars(st, p, faults, k);
  }

  /** Equal but for update timestamps and change keys. */
  ghost predicate SameButStamps(s: State, t: State) {
    && t.calendars == s.calendars && t.nextItem == s.nextItem
    && |t.rows| == |s.rows| && |t.groups| == |s.groups| && t.exchange.Keys == s.exchange.Keys
    && (forall i | 0 <= i < |s.rows| :: t.rows[i] == s.rows[i].(updated := t.rows[i].updated))
    && (forall g | 0 <= g < |s.groups| :: t.groups[g] == s.groups[g].(updated := t.groups[g].updated))
    && (forall x | x in s.exchange :: t.exchange[x] == s.exchange[x].(key := t.exchange[x].key))
  }

  /** A sync leaves its source, the places of all rows and the presence of all items as they were. */
  lemma SyncLeavesTargets(st: State, p: nat, faults: set<ItemId>, now: Time)
    requires Good(st) && p < |st.rows| && st.rows[p].role.Primary?
    ensures var s := SyncTx(st, p, faults, now);
            && s.rows[p] == st.rows[p] && |s.rows| == |st.rows|
            && forall i | 0 <= i < |st.rows| ::
                 IsTarget(s, p, i) == IsTarget(st, p, i) && Reachable(s, faults, i) == Reachable(st, faults, i)
                 && s.rows[i].calendar == st.rows[i].calendar && s.rows[i].item == st.rows[i].item
  {
    hide BodyOf, OneCopyPerCalendar, OneOwner, DeletionComplete, StaleCalendars;
  }

  /** So it would rewrite the same mirrors and report the same failures again. */
  lemma SyncIsStable(st: State, p: nat, faults: set<ItemId>, now: Time)
    requires Good(st) && p < |st.rows| && st.rows[p].role.Primary?
    ensures var s := SyncTx(st, p, faults, now);
            && Wf(s) && s.rows[p] == st.rows[p] && |s.rows| == |st.rows|
            && (forall i | 0 <= i < |st.rows| :: IsSynced(s, p, faults, i) == IsSynced(st, p, faults, i))
            && Failures(s, p, faults) == Failures(st, p, faults)
            && SyncedItems(s, p, faults, |s.rows|) == SyncedItems(st, p, faults, |st.rows|)
  {
    SyncKeepsReferences(st, p, faults, now);
    SyncLeavesTargets(st, p, faults, now);
    SameReport(st, SyncTx(st, p, faults, now), p, faults, |st.rows|);
    hide SyncTx, Good, IsTarget, Reachable, StaleCalendars;
  }

  /** Syncing again under the same faults changes nothing but timestamps and change keys. */
  lemma SyncTwice(st: State, p: nat, faults: set<ItemId>, now: Time, later: Time)
    requires Good(st) && p < |st.rows| && st.rows[p].role.Primary?
    ensures Wf(SyncTx(st, p, faults, now))
    ensures SameButStamps(SyncTx(st, p, faults, now), SyncTx(SyncTx(st, p, faults, now), p, faults, later))
    ensures Failures(SyncTx(st, p, faults, now), p, faults) == Failures(st, p, faults)
  {
    var s := SyncTx(st, p, faults, now);
    SyncIsStable(st, p, faults, now);
    SameRowsAgain(st, p, faults, now, later);
    SameItemsAgain(st, p, faults, now, later);
    hide SyncedRows, SavedExchange, SyncedItems, Good, Wf, BodyOf, IsSynced;
  }

  lemma SameRowsAgain(st: State, p: nat, faults: set<ItemId>, now: Time, later: Time)
    requires Good(st) && p < |st.rows| && st.rows[p].role.Primary?
    ensures var s := SyncTx(st, p, faults, now);
            && Wf(s) && |SyncTx(s, p, faults, later).rows| == |s.rows|
            && forall i | 0 <= i < |s.rows| ::
                 SyncTx(s, p, faults, later).rows[i] == s.rows[i].(updated := SyncTx(s, p, faults, later).rows[i].updated)
  {
    SyncIsStable(st, p, faults, now);
    hide OneCopyPerCalendar, OneOwner, DistinctItems, DeletionComplete, BodyOf, Reachable, Failures, SyncedItems, SavedExchange;
  }

  lemma SameItemsAgain(st: State, p: nat, faults: set<ItemId>, now: Time, later: Time)
    requires Good(st) && p < |st.rows| && st.rows[p].role.Primary?
    ensures var s := SyncTx(st, p, faults, now);
            && Wf(s) && SyncTx(s, p, faults, later).exchange.Keys == s.exchange.Keys
            && forall x | x in s.exchange ::
                 SyncTx(s, p, faults, later).exchange[x] == s.exchange[x].(key := SyncTx(s, p, faults, later).exchange[x].key)
  {
    var s := SyncTx(st, p, faults, now);
    SyncIsStable(st, p, faults, now);
    hide OneCopyPerCalendar, OneOwner, DistinctItems, DeletionComplete, MirrorBody, Failures, SyncedItems, SyncedRows;
    assert BodyOf(s, p) == BodyOf(st, p);
  }

  lemma {:induction false} SameReport(st: State, s: State, p: nat, faults: set<ItemId>, k: nat)
    requires p < |st.rows| && |s.rows| == |st.rows| && k <= |st.rows|
    requires forall i | 0 <= i < |st.rows| ::
               IsTarget(s, p, i) == IsTarget(st, p, i) && Reachable(s, faults, i) == Reachable(st, faults, i)
               && s.rows[i].calendar == st.rows[i].calendar
    ensures StaleCalendars(s, p, faults, k) == StaleCalendars(st, p, faults, k)
  {
    if k > 0 {
      SameReport(st, s, p, faults, k - 1);
    }
  }

  // ---------------------------------------------------------------- updates must target primaries

  const NOTHING := Patch(None, None, None, None, None)

  /** An update sent to a live mirror, even an empty one, prefixes that mirror's title a second time. */
  lemma MirrorTitledTwice(st: State, user: nat, e: nat, now: Time)
    requires Good(st) && RowsAgree(st, {}) && EventFound(st, user, e) && Tracked(st, e)
    requires forall i | 0 <= i < |st.rows| && IsTarget(st, e, i) :: st.rows[i].item in st.exchange
    ensures var s := UpdateTx(st, user, e, NOTHING, false, {}, now).0;
            Wf(s) && Tracked(s, e) && s.rows[e].title == BUSY + BUSY + s.rows[PrimaryOf(s, e)].title && !RowAgrees(s, e)
  {
    var patched := PatchTx(st, e, NOTHING, now);
    PatchKeepsStructure(st, e, NOTHING, now);
    NothingPatched(st, e, now);
    hide Good, PatchTx, RowsAgree;
    SyncFromMirror(patched, e, now);
    TwicePrefixed(st.rows[PrimaryOf(st, e)].title);
  }

  lemma NothingPatched(st: State, e: nat, now: Time)
    requires Good(st) && e < |st.rows| && Tracked(st, e) && RowsAgree(st, {})
    ensures var t := PatchTx(st, e, NOTHING, now);
            && t.rows == st.rows[e := st.rows[e].(updated := now)] && t.groups == st.groups && t.exchange == st.exchange
            && Wf(t) && Tracked(t, e) && t.rows[PrimaryOf(t, e)].title == st.rows[PrimaryOf(st, e)].title
            && t.rows[e].title == BUSY + st.rows[PrimaryOf(st, e)].title
            && (forall i | 0 <= i < |st.rows| :: IsTarget(t, e, i) == IsTarget(st, e, i))
  {
    assert RowAgrees(st, e);
    hide OneCopyPerCalendar, OneOwner, DistinctItems, DeletionComplete;
  }

  /** A fault-free sync that starts from a live mirror prefixes that mirror's own title. */
  lemma SyncFromMirror(st: State, e: nat, now: Time)
    requires Good(st) && e < |st.rows| && Tracked(st, e)
    requires forall i | 0 <= i < |st.rows| && IsTarget(st, e, i) :: st.rows[i].item in st.exchange
    ensures var s := SyncTx(st, e, {}, now);
            && Wf(s) && Tracked(s, e) && Failures(st, e, {}) == [] && s.rows[e].title == BUSY + st.rows[e].title
            && s.rows[PrimaryOf(s, e)].title == st.rows[PrimaryOf(st, e)].title
  {
    SyncKeepsReferences(st, e, {}, now);
    StaleMeansTarget(st, e, {}, |st.rows|);
    hide OneCopyPerCalendar, OneOwner, DistinctItems, DeletionComplete, BodyOf, StaleCalendars;
    assert IsTarget(st, e, e);
  }

  lemma TwicePrefixed(title: string)
    ensures BUSY + (BUSY + title) == BUSY + BUSY + title && BUSY + BUSY + title != BUSY + title
  {
    assert |BUSY + BUSY + title| > |BUSY + title|;
  }

  /**
   For an ACTIVE group whose mirrors all still exist in Exchange, an update of event e is sure to
   leave the mirror rows in agreement exactly when e is the group's primary.
   */
  lemma UpdateSafeIffPrimary(st: State, user: nat, e: nat, now: Time)
    requires Good(st) && RowsAgree(st, {}) && EventFound(st, user, e) && st.rows[e].deleted.None?
    requires st.groups[st.rows[e].group].state.Active?
    requires forall i | 0 <= i < |st.rows| && IsTarget(st, e, i) :: st.rows[i].item in st.exchange
    ensures st.rows[e].role.Primary?
            <==> forall patch, failPrimary, faults ::
                   var s := UpdateTx(st, user, e, patch, failPrimary, faults, now).0; Wf(s) && RowsAgree(s, {})
  {
    if st.rows[e].role.Primary? {
      forall patch, failPrimary, faults
        ensures var s := UpdateTx(st, user, e, patch, failPrimary, faults, now).0; Wf(s) && RowsAgree(s, {})
      {
        UpdatePrimary(st, user, e, patch, failPrimary, faults, now);
      }
    } else {
      MirrorTitledTwice(st, user, e, now);
      var s := UpdateTx(st, user, e, NOTHING, false, {}, now).0;
      assert !RowsAgree(s, {});
    }
  }

  // ---------------------------------------------------------------- repair, and what an update carries through

  lemma LivePrimaryIs(st: State, g: nat)
    requires Good(st) && g < |st.groups|
    ensures LivePrimary(st.rows, g) == if st.rows[st.groups[g].primary].deleted.None? then Some(st.groups[g].primary) else None
  {
    var found, p := LivePrimary(st.rows, g), st.groups[g].primary;
    if found.Some? {
      assert PrimaryOf(st, found.value) == found.value;
    } else {
      assert st.rows[p].group == g && st.rows[p].role.Primary?;
    }
  }

  /** Repair brings a group with a live primary back, up to failed calls, and leaves a deleted one alone. */
  lemma RepairRestoresGroup(st: State, g: nat, faults: set<ItemId>, now: Time)
    requires Good(st) && g < |st.groups|
    ensures var p := st.groups[g].primary;
            if st.rows[p].deleted.None? then
              Disagreeing(RepairTx(st, g, faults, now), p) == set i | i in Disagreeing(st, p) && !Reachable(st, faults, i)
            else RepairTx(st, g, faults, now) == st
  {
    LivePrimaryIs(st, g);
    if st.rows[st.groups[g].primary].deleted.None? {
      SyncLeavesOnlyFailures(st, st.groups[g].primary, faults, now);
    }
  }

  /** Row j and its item show the patched values of primary e: prefixed title and the same slot. */
  predicate Shows(s: State, j: nat, title: string, start: Time, end: Time)
    requires j < |s.rows|
  {
    && s.rows[j].title == BUSY + title && s.rows[j].start == start && s.rows[j].end == end
    && s.rows[j].item in s.exchange
    && s.exchange[s.rows[j].item].content.subject == BUSY + title
    && s.exchange[s.rows[j].item].content.start == start && s.exchange[s.rows[j].item].content.end == end
  }

  /**
   An update of a primary that reaches Exchange puts every given title, text, start and end into its row and its
   item, leaves the others as they were, and shows the result on every live mirror it can reach; an update that fails
   changes nothing.
   */
  lemma UpdateIsCarriedThrough(st: State, user: nat, e: nat, patch: Patch, failPrimary: bool, faults: set<ItemId>, now: Time)
    requires Good(st) && e < |st.rows| && st.rows[e].role.Primary?
    ensures var (s, result) := UpdateTx(st, user, e, patch, failPrimary, faults, now);
            && |s.rows| == |st.rows|
            && (result.EventMissing? || result.UpdateFailed? ==> s == st)
            && (result.Updated? || result.MirrorsStale? ==>
                  var was, r := st.rows[e], s.rows[e];
                  && r.title == patch.title.GetOr(was.title) && r.start == patch.start.GetOr(was.start)
                  && r.end == patch.end.GetOr(was.end)
                  && (patch.description.Some? ==> r.description == patch.description)
                  && (patch.description.None? ==> r.description == was.description)
                  && r.attendees == was.attendees && r.item == was.item
                  && (Sends(patch) ==>
                        && was.item in st.exchange && was.item in s.exchange
                        && var a, b := st.exchange[was.item].content, s.exchange[was.item].content;
                           && b.subject == patch.title.GetOr(a.subject) && b.text == patch.description.GetOr(a.text)
                           && b.start == patch.start.GetOr(a.start) && b.end == patch.end.GetOr(a.end)))
            && (result.Updated? || result.MirrorsStale? ==>
                  forall j | 0 <= j < |s.rows| && IsTarget(st, e, j) && (result.Updated? || Reachable(st, faults, j)) ::
                    Shows(s, j, s.rows[e].title, s.rows[e].start, s.rows[e].end))
  {
    hide UpdateTx, SyncTx, PatchTx, Shows, IsTarget, PatchedRow, PatchedContent, OneCopyPerCalendar, OneOwner, DistinctItems,
         DeletionComplete, OnePrimary;
    UpdateIsPatchThenSync(st, user, e, patch, failPrimary, faults, now);
    if UpdateTx(st, user, e, patch, failPrimary, faults, now).1 !in {EventMissing, UpdateFailed} {
      PatchDoes(st, e, patch, now);
      PatchedFields(st.rows[e], patch);
      SyncReachesAll(PatchTx(st, e, patch, now), e, faults, now);
    }
  }

  // ---------------------------------------------------------------- the attendees of an update

  /** Every given field, the attendees included, stands in the row. */
  predicate RowShows(r: Row, patch: Patch) {
    && (patch.title.Some? ==> r.title == patch.title.value) && (patch.description.Some? ==> r.description == patch.description)
    && (patch.start.Some? ==> r.start == patch.start.value) && (patch.end.Some? ==> r.end == patch.end.value)
    && (patch.attendees.Some? ==> r.attendees == patch.attendees.value)
  }

  predicate ItemShows(item: Item, patch: Patch) {
    && (patch.title.Some? ==> item.content.subject == patch.title.value)
    && (patch.description.Some? ==> item.content.text == patch.description.value)
    && (patch.start.Some? ==> item.content.start == patch.start.value) && (patch.end.Some? ==> item.content.end == patch.end.value)
    && (patch.attendees.Some? ==> item.attendees == patch.attendees.value)
  }

  /** Row and item of e show every given field. */
  predicate ShowsGiven(s: State, e: nat, patch: Patch)
    requires e < |s.rows|
  {
    RowShows(s.rows[e], patch) && (patch != NOTHING ==> s.rows[e].item in s.exchange && ItemShows(s.exchange[s.rows[e].item], patch))
  }

  /** No attendees are given, or those given are in the row and in the item already. */
  predicate SameAttendees(st: State, e: nat, patch: Patch)
    requires e < |st.rows|
  {
    patch.attendees.Some? ==>
      && st.rows[e].attendees == patch.attendees.value && st.rows[e].item in st.exchange
      && st.exchange[st.rows[e].item].attendees == patch.attendees.value
  }

  /** An update of a primary that reaches Exchange shows every given field exactly if it does not change the attendees: they are never read. */
  lemma UpdateShowsGivenIff(st: State, user: nat, e: nat, patch: Patch, failPrimary: bool, faults: set<ItemId>, now: Time)
    requires Good(st) && e < |st.rows| && st.rows[e].role.Primary?
    ensures var (s, result) := UpdateTx(st, user, e, patch, failPrimary, faults, now);
            && |s.rows| == |st.rows|
            && (result.Updated? || result.MirrorsStale? ==> (ShowsGiven(s, e, patch) <==> SameAttendees(st, e, patch)))
  {
    hide UpdateTx, SyncTx, PatchTx, Shows, IsTarget, PatchedRow, PatchedContent, OneCopyPerCalendar, OneOwner, DistinctItems,
         DeletionComplete, OnePrimary;
    UpdateIsPatchThenSync(st, user, e, patch, failPrimary, faults, now);
    if UpdateTx(st, user, e, patch, failPrimary, faults, now).1 !in {EventMissing, UpdateFailed} {
      PatchDoes(st, e, patch, now);
      PatchedFields(st.rows[e], patch);
      SyncReachesAll(PatchTx(st, e, patch, now), e, faults, now);
      PatchInvitesTheSame(st, e, patch, now);
      SyncKeepsPresence(PatchTx(st, e, patch, now), e, faults, now);
    }
  }

  lemma PatchInvitesTheSame(st: State, e: nat, patch: Patch, now: Time)
    requires Wf(st) && e < |st.rows| && (Sends(patch) ==> st.rows[e].item in st.exchange)
    ensures var t := PatchTx(st, e, patch, now); var x := st.rows[e].item;
            (x in t.exchange <==> x in st.exchange) && (x in t.exchange ==> t.exchange[x].attendees == st.exchange[x].attendees)
  {
  }

  lemma SyncKeepsPresence(st: State, p: nat, faults: set<ItemId>, now: Time)
    requires Wf(st) && p < |st.rows|
    ensures SyncTx(st, p, faults, now).exchange.Keys == st.exchange.Keys
  {
  }

  lemma UpdateIsPatchThenSync(st: State, user: nat, e: nat, patch: Patch, failPrimary: bool, faults: set<ItemId>, now: Time)
    requires Good(st) && e < |st.rows| && st.rows[e].role.Primary?
    ensures var (s, result) := UpdateTx(st, user, e, patch, failPrimary, faults, now);
            && (result.EventMissing? || result.UpdateFailed? ==> s == st)
            && |s.rows| == |st.rows|
            && (result.Updated? || result.MirrorsStale? ==>
                  && (Sends(patch) ==> st.rows[e].item in st.exchange)
                  && var patched := PatchTx(st, e, patch, now);
                     && Good(patched) && |patched.rows| == |st.rows| && patched.rows[e].role.Primary?
                     && (result.Updated? ==> Failures(patched, e, faults) == []) && s == SyncTx(patched, e, faults, now)
                     && forall j | 0 <= j < |st.rows| ::
                          IsTarget(patched, e, j) == IsTarget(st, e, j) && Reachable(patched, faults, j) == Reachable(st, faults, j))
  {
    if UpdateTx(st, user, e, patch, failPrimary, faults, now).1 !in {EventMissing, UpdateFailed} {
      PatchKeepsStructure(st, e, patch, now);
    }
    hide Good, SyncedRows, SavedExchange, SyncedItems, BodyOf, StaleCalendars;
  }

  lemma PatchedFields(was: Row, patch: Patch)
    ensures var r := PatchedRow(was, patch);
            && r.title == patch.title.GetOr(was.title) && r.start == patch.start.GetOr(was.start)
            && r.end == patch.end.GetOr(was.end)
            && r.description == (if patch.description.Some? then patch.description else was.description)
            && r.attendees == was.attendees && r.item == was.item && r.group == was.group && r.role == was.role
    ensures forall c: Content ::
              PatchedContent(c, patch) == Content(patch.title.GetOr(c.subject), patch.description.GetOr(c.text),
                                                  patch.start.GetOr(c.start), patch.end.GetOr(c.end))
  {
  }

  lemma PatchDoes(st: State, e: nat, patch: Patch, now: Time)
    requires Wf(st) && e < |st.rows|
    requires Sends(patch) ==> st.rows[e].item in st.exchange
    ensures var t := PatchTx(st, e, patch, now);
            && |t.rows| == |st.rows| && t.rows[e] == PatchedRow(st.rows[e], patch).(updated := now)
            && (forall j | 0 <= j < |st.rows| && j != e :: t.rows[j] == st.rows[j])
            && (Sends(patch) ==>
                  st.rows[e].item in t.exchange
                  && t.exchange[st.rows[e].item].content == PatchedContent(st.exchange[st.rows[e].item].content, patch))
  {
  }

  /** A sync leaves its source alone and shows it on every live mirror it can reach. */
  lemma SyncReachesAll(st: State, p: nat, faults: set<ItemId>, now: Time)
    requires Good(st) && p < |st.rows| && st.rows[p].role.Primary?
    ensures var s := SyncTx(st, p, faults, now);
            && |s.rows| == |st.rows| && s.rows[p] == st.rows[p]
            && (st.rows[p].item in st.exchange ==>
                  st.rows[p].item in s.exchange && s.exchange[st.rows[p].item] == st.exchange[st.rows[p].item])
            && forall j | 0 <= j < |s.rows| && IsTarget(st, p, j) && (Failures(st, p, faults) == [] || Reachable(st, faults, j)) ::
                 Shows(s, j, st.rows[p].title, st.rows[p].start, st.rows[p].end)
  {
    var s := SyncTx(st, p, faults, now);
    StaleMeansTarget(st, p, faults, |st.rows|);
    SavedItem(st, p, faults, now, p);
    forall j | 0 <= j < |s.rows| && IsTarget(st, p, j) && (Failures(st, p, faults) == [] || Reachable(st, faults, j))
      ensures Shows(s, j, st.rows[p].title, st.rows[p].start, st.rows[p].end)
    {
      SavedItem(st, p, faults, now, j);
    }
  }
}
