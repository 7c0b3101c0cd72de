/**
 The sync-group engine as a state and its transactions.

 The database tables are sequences: a row's id is its position.  Exchange is a map from item
 id to item.  `faults` is the set of item ids whose Exchange call fails during a transaction;
 a failed call changes nothing.  An item's change key counts the saves made to it.
 */
module SyncModel {
  import opened Basics
  import Text

  type Time = int
  type ItemId = nat

  /** Prefix of every mirror's title. */
  const BUSY: string := "[Занято] "

  datatype Role = Primary | Mirror
  datatype GroupState = Active | Degraded | Deleted

  datatype Calendar = Calendar(user: nat, account: nat, name: string, active: bool, mirrorEnabled: bool)

  datatype Group = Group(user: nat, primary: nat, state: GroupState, updated: Time)

  datatype Row = Row(user: nat, calendar: nat, item: ItemId, group: nat, role: Role, title: string,
                     description: Option<string>, start: Time, end: Time, attendees: seq<string>,
                     master: bool, seenKey: Option<nat>, updated: Time, deleted: Option<Time>)

  /** The fields an Exchange save writes. */
  datatype Content = Content(subject: string, text: string, start: Time, end: Time)

  datatype Item = Item(calendar: nat, content: Content, attendees: seq<string>, recurring: bool, key: nat)

  datatype State = State(calendars: seq<Calendar>, groups: seq<Group>, rows: seq<Row>,
                         exchange: map<ItemId, Item>, nextItem: nat)

  datatype Draft = Draft(title: string, description: Option<string>, start: Time, end: Time,
                         attendees: seq<string>, recurring: bool)

  /** The fields an update may give; the engine reads all of them but the attendees. */
  datatype Patch = Patch(start: Option<Time>, end: Option<Time>, title: Option<string>, description: Option<string>,
                         attendees: Option<seq<string>>)

  datatype CreateResult = Created(primary: nat) | MirrorsMissing(failed: seq<nat>)
                        | CalendarMissing | CreateFailed

  datatype UpdateResult = Updated | MirrorsStale(failed: seq<nat>) | EventMissing | UpdateFailed

  // ---------------------------------------------------------------- references

  /** Every reference in the tables points at an existing row; item ids are below the next fresh id. */
  ghost predicate Wf(st: State) {
    && (forall i | 0 <= i < |st.rows| ::
          st.rows[i].calendar < |st.calendars| && st.rows[i].group < |st.groups| && st.rows[i].item < st.nextItem)
    && (forall g | 0 <= g < |st.groups| :: st.groups[g].primary < |st.rows|)
    && (forall x | x in st.exchange :: x < st.nextItem && st.exchange[x].calendar < |st.calendars|)
  }

  ghost predicate DistinctItems(st: State) {
    forall i, j | 0 <= i < j < |st.rows| :: st.rows[i].item != st.rows[j].item
  }

  predicate LiveMirror(r: Row) {
    r.role.Mirror? && r.deleted.None?
  }

  // ---------------------------------------------------------------- Exchange

  /** A save replaces the four written fields and moves the change key on. */
  function Saved(item: Item, body: Content): Item {
    item.(content := body, key := item.key + 1)
  }

  predicate Reachable(st: State, faults: set<ItemId>, j: nat)
    requires j < |st.rows|
  {
    st.rows[j].item in st.exchange && st.rows[j].item !in faults
  }

  // ---------------------------------------------------------------- mirror body

  function AttendeeText(attendees: seq<string>): string {
    var text := Text.Join(attendees, ", ");
    if text == "" then "нет участников" else text
  }

  function MirrorBody(primary: Row, calendarName: string): Content {
    Content(BUSY + primary.title,
            "Зеркальная блокировка. Основная встреча: «" + primary.title
            + "» в календаре «" + calendarName + "». Участники: " + AttendeeText(primary.attendees)
            + ". Sync group: " + Text.Dec(primary.group) + ".",
            primary.start, primary.end)
  }

  function BodyOf(st: State, p: nat): Content
    requires Wf(st) && p < |st.rows|
  {
    MirrorBody(st.rows[p], st.calendars[st.rows[p].calendar].name)
  }

  // ---------------------------------------------------------------- sync

  /** Row j is one of the live mirrors a sync from row p rewrites. */
  predicate IsTarget(st: State, p: nat, j: nat)
    requires p < |st.rows| && j < |st.rows|
  {
    st.rows[j].group == st.rows[p].group && LiveMirror(st.rows[j])
  }

  predicate IsSynced(st: State, p: nat, faults: set<ItemId>, j: nat)
    requires p < |st.rows| && j < |st.rows|
  {
    IsTarget(st, p, j) && Reachable(st, faults, j)
  }

  /**
   The source title a sync from row p copies into row j.  Source and mirrors are the same
   objects, so when p is itself a live mirror its own rewritten title is what later rows see.
   */
  function SourceTitle(st: State, p: nat, faults: set<ItemId>, j: nat): string
    requires p < |st.rows| && j < |st.rows|
  {
    if p < j && IsSynced(st, p, faults, p) then BUSY + st.rows[p].title else st.rows[p].title
  }

  function SyncedRow(st: State, p: nat, faults: set<ItemId>, now: Time, j: nat): Row
    requires p < |st.rows| && j < |st.rows|
  {
    if IsSynced(st, p, faults, j) then
      st.rows[j].(title := BUSY + SourceTitle(st, p, faults, j),
                  start := st.rows[p].start, end := st.rows[p].end, updated := now)
    else
      st.rows[j]
  }

  function SyncedRows(st: State, p: nat, faults: set<ItemId>, now: Time): (rows: seq<Row>)
    requires p < |st.rows|
    ensures |rows| == |st.rows|
    ensures forall j | 0 <= j < |rows| :: rows[j] == SyncedRow(st, p, faults, now, j)
  {
    seq(|st.rows|, j requires 0 <= j < |st.rows| => SyncedRow(st, p, faults, now, j))
  }

  /** The items of the mirrors among the first k rows that a sync from row p rewrites. */
  function SyncedItems(st: State, p: nat, faults: set<ItemId>, k: nat): set<ItemId>
    requires p < |st.rows| && k <= |st.rows|
  {
    set j | 0 <= j < k && IsSynced(st, p, faults, j) :: st.rows[j].item
  }

  function SavedExchange(exchange: map<ItemId, Item>, items: set<ItemId>, body: Content): map<ItemId, Item> {
    map x | x in exchange :: if x in items then Saved(exchange[x], body) else exchange[x]
  }

  /** The calendars of the live mirrors among the first k rows whose Exchange update fails. */
  function StaleCalendars(st: State, p: nat, faults: set<ItemId>, k: nat): seq<nat>
    requires p < |st.rows| && k <= |st.rows|
  {
    if k == 0 then []
    else StaleCalendars(st, p, faults, k - 1)
         + if IsTarget(st, p, k - 1) && !Reachable(st, faults, k - 1) then [st.rows[k - 1].calendar] else []
  }

  function Failures(st: State, p: nat, faults: set<ItemId>): seq<nat> {
    if p < |st.rows| then StaleCalendars(st, p, faults, |st.rows|) else []
  }

  function SyncTx(st: State, p: nat, faults: set<ItemId>, now: Time): State
    requires Wf(st)
  {
    if p >= |st.rows| then st else
      var g := st.rows[p].group;
      st.(rows := SyncedRows(st, p, faults, now),
          exchange := SavedExchange(st.exchange, SyncedItems(st, p, faults, |st.rows|), BodyOf(st, p)),
          groups := if Failures(st, p, faults) == [] then st.groups
                    else st.groups[g := st.groups[g].(state := Degraded, updated := now)])
  }

  // ---------------------------------------------------------------- create

  /** Calendar c receives a mirror of an event created in calendar cal. */
  predicate Eligible(calendars: seq<Calendar>, user: nat, cal: nat, c: nat)
    requires c < |calendars|
  {
    calendars[c].user == user && calendars[c].active && calendars[c].mirrorEnabled && c != cal
  }

  /** Among the first k calendars, the eligible ones whose create call fails (fail) or succeeds (!fail). */
  function MirrorCalendars(calendars: seq<Calendar>, user: nat, cal: nat, failCals: set<nat>, fail: bool, k: nat): seq<nat>
    requires k <= |calendars|
  {
    if k == 0 then [] else
      var before := MirrorCalendars(calendars, user, cal, failCals, fail, k - 1);
      if Eligible(calendars, user, cal, k - 1) && ((k - 1) in failCals) == fail then before + [k - 1] else before
  }

  lemma {:induction false} MirrorCalendarsAre(calendars: seq<Calendar>, user: nat, cal: nat, failCals: set<nat>, fail: bool, k: nat)
    requires k <= |calendars|
    ensures forall i | 0 <= i < |MirrorCalendars(calendars, user, cal, failCals, fail, k)| ::
              var c := MirrorCalendars(calendars, user, cal, failCals, fail, k)[i];
              c < k && Eligible(calendars, user, cal, c) && (c in failCals) == fail
    ensures forall i, j | 0 <= i < j < |MirrorCalendars(calendars, user, cal, failCals, fail, k)| ::
              MirrorCalendars(calendars, user, cal, failCals, fail, k)[i] < MirrorCalendars(calendars, user, cal, failCals, fail, k)[j]
    ensures forall c | 0 <= c < k && Eligible(calendars, user, cal, c) && (c in failCals) == fail ::
              c in MirrorCalendars(calendars, user, cal, failCals, fail, k)
  {
    if k > 0 {
      MirrorCalendarsAre(calendars, user, cal, failCals, fail, k - 1);
    }
  }

  function PrimaryRow(user: nat, cal: nat, item: ItemId, group: nat, draft: Draft, now: Time): Row {
    Row(user, cal, item, group, Primary, draft.title, draft.description, draft.start, draft.end,
        draft.attendees, draft.recurring, None, now, None)
  }

  function PrimaryItem(cal: nat, draft: Draft): Item {
    Item(cal, Content(draft.title, draft.description.GetOr(""), draft.start, draft.end),
         draft.attendees, draft.recurring, 0)
  }

  function MirrorRow(primary: Row, cal: nat, item: ItemId, body: Content): Row {
    Row(primary.user, cal, item, primary.group, Mirror, BUSY + primary.title, Some(body.text), primary.start, primary.end,
        [], primary.master, None, primary.updated, None)
  }

  function MirrorItem(cal: nat, body: Content, recurring: bool): Item {
    Item(cal, body, [], recurring, 0)
  }

  /** st with a primary row and its item added, then one mirror in each of the calendars cs; no group yet. */
  function AddCopies(st: State, primary: Row, item: Item, body: Content, cs: seq<nat>): State {
    if cs == [] then
      st.(rows := st.rows + [primary], exchange := st.exchange[st.nextItem := item], nextItem := st.nextItem + 1)
    else
      AddMirror(AddCopies(st, primary, item, body, cs[..|cs| - 1]), primary, body, cs[|cs| - 1])
  }

  function AddMirror(s: State, primary: Row, body: Content, c: nat): State {
    s.(rows := s.rows + [MirrorRow(primary, c, s.nextItem, body)],
       exchange := s.exchange[s.nextItem := MirrorItem(c, body, primary.master)],
       nextItem := s.nextItem + 1)
  }

  function CreateTx(st: State, user: nat, cal: nat, draft: Draft, failPrimary: bool, failCals: set<nat>, now: Time)
    : (State, CreateResult)
    requires Wf(st)
  {
    if cal >= |st.calendars| || st.calendars[cal].user != user || !st.calendars[cal].active then
      (st, CalendarMissing)
    else if failPrimary then
      (st, CreateFailed)
    else
      var primary := PrimaryRow(user, cal, st.nextItem, |st.groups|, draft, now);
      var body := MirrorBody(primary, st.calendars[cal].name);
      var mirrored := MirrorCalendars(st.calendars, user, cal, failCals, false, |st.calendars|);
      var failed := MirrorCalendars(st.calendars, user, cal, failCals, true, |st.calendars|);
      (AddCopies(st, primary, PrimaryItem(cal, draft), body, mirrored)
       .(groups := st.groups + [Group(user, |st.rows|, if failed == [] then Active else Degraded, now)]),
       if failed == [] then Created(|st.rows|) else MirrorsMissing(failed))
  }

  // ---------------------------------------------------------------- update

  predicate EventFound(st: State, user: nat, e: nat) {
    e < |st.rows| && st.rows[e].user == user
  }

  function PatchedRow(r: Row, patch: Patch): Row {
    r.(start := patch.start.GetOr(r.start), end := patch.end.GetOr(r.end), title := patch.title.GetOr(r.title),
       description := if patch.description.Some? then patch.description else r.description)
  }

  function PatchedContent(c: Content, patch: Patch): Content {
    Content(patch.title.GetOr(c.subject), patch.description.GetOr(c.text),
            patch.start.GetOr(c.start), patch.end.GetOr(c.end))
  }

  /** The patch holds something to send to Exchange. */
  predicate Sends(patch: Patch) {
    patch.start.Some? || patch.end.Some? || patch.title.Some? || patch.description.Some?
  }

  /** The row and item of e after the patch itself, before its mirrors are synced. */
  function PatchTx(st: State, e: nat, patch: Patch, now: Time): State
    requires e < |st.rows|
    requires Sends(patch) ==> st.rows[e].item in st.exchange
  {
    var r := st.rows[e];
    st.(rows := st.rows[e := PatchedRow(r, patch).(updated := now)],
        exchange := if Sends(patch) then
                      st.exchange[r.item := Saved(st.exchange[r.item], PatchedContent(st.exchange[r.item].content, patch))]
                    else st.exchange)
  }

  function UpdateTx(st: State, user: nat, e: nat, patch: Patch, failPrimary: bool, faults: set<ItemId>, now: Time)
    : (State, UpdateResult)
    requires Wf(st)
  {
    if !EventFound(st, user, e) || st.rows[e].deleted.Some? then
      (st, EventMissing)
    else if Sends(patch) && (failPrimary || st.rows[e].item !in st.exchange) then
      (st, UpdateFailed)
    else
      var patched := PatchTx(st, e, patch, now);
      assert forall x | x in patched.exchange && x != st.rows[e].item :: patched.exchange[x] == st.exchange[x];
      var failed := Failures(patched, e, faults);
      (SyncTx(patched, e, faults, now), if failed == [] then Updated else MirrorsStale(failed))
  }

  // ---------------------------------------------------------------- delete

  /** Deleting e takes row j with it. */
  predicate Doomed(st: State, e: nat, j: nat)
    requires e < |st.rows| && j < |st.rows|
  {
    j == e || IsTarget(st, e, j)
  }

  function DeletedRow(st: State, e: nat, now: Time, j: nat): Row
    requires e < |st.rows| && j < |st.rows|
  {
    if Doomed(st, e, j) then st.rows[j].(deleted := Some(now)) else st.rows[j]
  }

  function DeletedRows(st: State, e: nat, now: Time): (rows: seq<Row>)
    requires e < |st.rows|
    ensures |rows| == |st.rows|
    ensures forall j | 0 <= j < |rows| :: rows[j] == DeletedRow(st, e, now, j)
  {
    seq(|st.rows|, j requires 0 <= j < |st.rows| => DeletedRow(st, e, now, j))
  }

  /** Items whose Exchange deletion goes through once e and its mirrors among the first k rows are handled. */
  function DeletedItems(st: State, e: nat, faults: set<ItemId>, k: nat): set<ItemId>
    requires e < |st.rows| && k <= |st.rows|
  {
    set j | 0 <= j < |st.rows| && Doomed(st, e, j) && (j == e || j < k) && Reachable(st, faults, j) :: st.rows[j].item
  }

  /** `all` is the recurrence delete mode: a recurring master is only touched in mode "all". */
  function DeleteTx(st: State, user: nat, e: nat, all: bool, faults: set<ItemId>, now: Time): State
    requires Wf(st)
  {
    if !EventFound(st, user, e) || (st.rows[e].master && !all) then st else
      var g := st.rows[e].group;
      st.(rows := DeletedRows(st, e, now),
          exchange := st.exchange - DeletedItems(st, e, faults, |st.rows|),
          groups := st.groups[g := st.groups[g].(state := Deleted, updated := now)])
  }

  lemma SyncKeepsReferences(st: State, p: nat, faults: set<ItemId>, now: Time)
    requires Wf(st)
    ensures Wf(SyncTx(st, p, faults, now))
  {
  }

  lemma DeleteKeepsReferences(st: State, user: nat, e: nat, all: bool, faults: set<ItemId>, now: Time)
    requires Wf(st)
    ensures Wf(DeleteTx(st, user, e, all, faults, now))
  {
  }

  // ---------------------------------------------------------------- queries

  /** The live primary row of group g, as the engine looks it up. */
  function LivePrimary(rows: seq<Row>, g: nat): (p: Option<nat>)
    ensures p.Some? ==> p.value < |rows| && rows[p.value].group == g && rows[p.value].role.Primary? && rows[p.value].deleted.None?
    ensures p.None? ==> forall i | 0 <= i < |rows| :: !(rows[i].group == g && rows[i].role.Primary? && rows[i].deleted.None?)
  {
    if |rows| == 0 then None else
      var r := rows[|rows| - 1];
      if r.group == g && r.role.Primary? && r.deleted.None? then Some(|rows| - 1) else LivePrimary(rows[..|rows| - 1], g)
  }

  /** The row holding an Exchange id, restricted to one user's rows when `user` is given. */
  function RowOfItem(rows: seq<Row>, x: ItemId, user: Option<nat>, liveOnly: bool): (e: Option<nat>)
    ensures e.Some? ==> e.value < |rows| && Matches(rows[e.value], x, user, liveOnly)
    ensures e.None? ==> forall i | 0 <= i < |rows| :: !Matches(rows[i], x, user, liveOnly)
  {
    if |rows| == 0 then None
    else if Matches(rows[|rows| - 1], x, user, liveOnly) then Some(|rows| - 1)
    else RowOfItem(rows[..|rows| - 1], x, user, liveOnly)
  }

  predicate Matches(r: Row, x: ItemId, user: Option<nat>, liveOnly: bool) {
    r.item == x && (user.Some? ==> r.user == user.value) && (liveOnly ==> r.deleted.None?)
  }

  // ---------------------------------------------------------------- repair, external delete, delete by ids

  function RepairTx(st: State, g: nat, faults: set<ItemId>, now: Time): (s: State)
    requires Wf(st)
    ensures Wf(s)
  {
    var p := LivePrimary(st.rows, g);
    if p.Some? then
      SyncKeepsReferences(st, p.value, faults, now);
      SyncTx(st, p.value, faults, now)
    else st
  }

  /** The calendars a repair of group g reports as failed. */
  function RepairFailures(st: State, g: nat, faults: set<ItemId>): seq<nat> {
    var p := LivePrimary(st.rows, g);
    if p.Some? then Failures(st, p.value, faults) else []
  }

  /** Exchange no longer lists item x: a primary takes its group down, a mirror is rewritten. */
  function ExternalDeleteTx(st: State, x: ItemId, faults: set<ItemId>, now: Time): (s: State)
    requires Wf(st)
    ensures Wf(s)
  {
    var e := RowOfItem(st.rows, x, None, true);
    if e.None? then st
    else if st.rows[e.value].role.Primary? then
      DeleteKeepsReferences(st, st.rows[e.value].user, e.value, true, faults, now);
      DeleteTx(st, st.rows[e.value].user, e.value, true, faults, now)
    else RepairTx(st, st.rows[e.value].group, faults, now)
  }

  /** Item x can be deleted directly through one of the accounts; `blocked` are the calls that fail. */
  predicate DirectlyDeletable(st: State, x: ItemId, accounts: seq<nat>, blocked: set<(nat, ItemId)>) {
    x in st.exchange && exists i | 0 <= i < |accounts| :: (accounts[i], x) !in blocked
  }

  /** The first k ids of a delete-by-ids request: new state, number deleted, ids in error. */
  function DeleteIdsTx(st: State, user: nat, ids: seq<ItemId>, accounts: seq<nat>, blocked: set<(nat, ItemId)>,
                       faults: set<ItemId>, now: Time): (r: (State, nat, seq<ItemId>))
    requires Wf(st)
    ensures Wf(r.0)
  {
    if ids == [] then (st, 0, []) else
      var (s, deleted, errors) := DeleteIdsTx(st, user, ids[..|ids| - 1], accounts, blocked, faults, now);
      var x := ids[|ids| - 1];
      var e := RowOfItem(s.rows, x, Some(user), false);
      if e.Some? then (DeleteTx(s, user, e.value, false, faults, now), deleted + 1, errors)
      else if DirectlyDeletable(s, x, accounts, blocked) then (s.(exchange := s.exchange - {x}), deleted + 1, errors)
      else (s, deleted, errors + [x])
  }
}
