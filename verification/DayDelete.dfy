/** From the day view back to the engine: deleting a shown entry by its ids. */
module DayDelete {
  import opened Basics
  import DayView
  import opened DeleteTheorems
  import opened SyncInvariants
  import opened SyncModel
  import Text

  /** How an Exchange item is listed; `startText` prints its start. */
  function Listing(st: State, x: ItemId, startText: Time -> string): DayView.Entry
    requires x in st.exchange
  {
    var content := st.exchange[x].content;
    DayView.Entry(Text.Dec(x), DayView.ListedTitle(content.subject), startText(content.start))
  }

  /** The item a listed id names. */
  function ItemOf(id: string): ItemId {
    var n := Text.ParseInt(id);
    if n.Ok? && n.value >= 0 then n.value else 0
  }

  function ItemsOf(ids: seq<string>): seq<ItemId> {
    seq(|ids|, i requires 0 <= i < |ids| => ItemOf(ids[i]))
  }

  lemma ItemsOfIds(ids: seq<string>, x: ItemId)
    requires Text.Dec(x) in ids
    ensures x in ItemsOf(ids)
  {
    var i :| 0 <= i < |ids| && ids[i] == Text.Dec(x);
    Text.ParsePrinted(x);
    assert ItemsOf(ids)[i] == x;
  }

  /** All rows of group g are live, in sync, and listed by `events` at the positions `at`. */
  ghost predicate ListedGroup(st: State, g: nat, events: seq<DayView.Entry>, at: map<nat, nat>, startText: Time -> string)
    requires Wf(st)
  {
    && g < |st.groups| && st.groups[g].state.Active?
    && (forall i | 0 <= i < |st.rows| && st.rows[i].group == g ::
          && st.rows[i].deleted.None? && st.rows[i].item in st.exchange
          && (st.rows[i].role.Mirror? ==> ItemAgrees(st, i))
          && i in at && at[i] < |events| && events[at[i]] == Listing(st, st.rows[i].item, startText))
    && var p := st.rows[st.groups[g].primary];
       p.group == g && p.item in st.exchange
       && st.exchange[p.item].content.subject == p.title && st.exchange[p.item].content.start == p.start
  }

  /**
   The day view shows an in-sync group of a non-recurring event as one entry, and deleting that entry by
   the ids it carries leaves every row of the group deleted and the group DELETED, whatever Exchange
   deletions fail. The primary's title must be one that folds.
   */
  lemma DeletingTheEntryEmptiesTheGroup(st: State, user: nat, g: nat, events: seq<DayView.Entry>, at: map<nat, nat>,
                                        startText: Time -> string, accounts: seq<nat>, blocked: set<(nat, ItemId)>,
                                        faults: set<ItemId>, now: Time) returns (k: nat)
    requires Good(st) && ListedGroup(st, g, events, at, startText)
    requires var p := st.rows[st.groups[g].primary];
             st.groups[g].user == user && !p.master && p.title != "" && !DayView.HasBusy(p.title)
    ensures k < |DayView.View(events)| && DayView.View(events)[k].entry.title == st.rows[st.groups[g].primary].title
    ensures var ids := ItemsOf(DayView.View(events)[k].ids);
            var s := DeleteIdsTx(st, user, ids, accounts, blocked, faults, now).0;
            && |s.rows| == |st.rows| && |s.groups| == |st.groups| && s.groups[g].state.Deleted?
            && (forall i | 0 <= i < |st.rows| && st.rows[i].group == g :: s.rows[i].deleted.Some?)
  {
    var p := st.groups[g].primary;
    var name := st.calendars[st.rows[p].calendar].name;
    var copies := set i | 0 <= i < |st.rows| && st.rows[i].group == g && i != p :: at[i];
    forall c | c in copies
      ensures c < |events| && events[c].title == DayView.ListedTitle(MirrorBody(st.rows[p], name).subject)
              && DayView.Minute(events[c].start) == DayView.Minute(events[at[p]].start)
    {
      var i :| 0 <= i < |st.rows| && st.rows[i].group == g && i != p && at[i] == c;
      MirrorListing(st, g, events, at, startText, i);
    }
    k := DayView.CopiesFoldIntoOne(events, at[p], copies, st.rows[p], name);
    var shown := DayView.View(events)[k].ids;
    hide DayView.View, DayView.Keys, DayView.HasBusy, DayView.KeyOf, Good;
    forall i | 0 <= i < |st.rows| && st.rows[i].group == g
      ensures st.rows[i].item in ItemsOf(shown)
    {
      assert at[i] in copies + {at[p]};
      assert events[at[i]].id == Text.Dec(st.rows[i].item);
      ItemsOfIds(shown, st.rows[i].item);
    }
    FullListEmptiesGroup(st, user, ItemsOf(shown), accounts, blocked, faults, now, g);
  }

  /** A listed mirror shows the mirror body of its primary and starts when it does. */
  lemma MirrorListing(st: State, g: nat, events: seq<DayView.Entry>, at: map<nat, nat>, startText: Time -> string, i: nat)
    requires Good(st) && ListedGroup(st, g, events, at, startText)
    requires i < |st.rows| && st.rows[i].group == g && i != st.groups[g].primary
    ensures var p := st.groups[g].primary;
            && i in at && p in at && at[i] < |events| && at[p] < |events|
            && events[at[i]].title
               == DayView.ListedTitle(MirrorBody(st.rows[p], st.calendars[st.rows[p].calendar].name).subject)
            && events[at[i]].start == events[at[p]].start
  {
    assert st.rows[i].role.Mirror? by {
      assert st.rows[i].role.Primary? ==> PrimaryOf(st, i) == i;
    }
    assert ItemAgrees(st, i) && PrimaryOf(st, i) == st.groups[g].primary;
  }
}
