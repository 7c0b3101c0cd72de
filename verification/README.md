# Calendar backend: verified model

A Dafny model of the calendar backend's decision logic, and proofs about it. Five parts, each on
the code that decides something; everything that only talks to another service is a parameter.

1. **The sync-group engine.** A primary event in one Exchange calendar is mirrored into every other
   eligible calendar of the user. `SyncModel` holds the state (calendars, groups, event rows, the
   Exchange store) and every service call as a transaction over it; `SyncEngine` is the class whose
   methods run the same calls with loops over mutable tables and are proved equal to the
   transactions; `Polling` does the same for the polling task. `SyncInvariants`, `SyncRuns`,
   `CreateTheorems`, `RepairTheorems`, `DeleteTheorems`, `PollTheorems`, `PollOutcome`, `PollCuts`, `PollReach`
   and `RunStates` prove what the calls keep and what a poll does, over every run and every choice of failing
   Exchange calls; `Outcomes` says field by field what each call changes, and which result it returns.
2. **The Redis lock** (`RedisLock`), as a step system over any number of processes, a clock and an
   expiring key.
3. **Availability and slot search** (`Availability`, `SlotFinder`, `SlotTheorems`). Instants are
   microseconds, cursors whole minutes. The jumping search is compared with a plain list of all valid
   half hours, and with the availability check.
4. **Recurrence text** (`RuleText`, `RecurrenceMapper`, `MapperRoundTrip`, `EventRecurrence`,
   `EventRecurrenceTheorems`, `MapperMeaning`, `RecurrenceMeaning`, `MonthsAndYears`, `ReaderTheorems`,
   `StoredRoundTrip`). Printing and reading RRULE at
   string level, and the days a rule denotes under section 3.3.10 of RFC 5545 against the days the
   Exchange pattern denotes.
5. **The day view** (`DayView`), a fold over an insertion-ordered dictionary, and what deleting one of
   its entries does to the sync group behind it (`DayDelete`).

`Basics`, `Text` and `Civil` hold options, string operations and the Gregorian calendar.

## How the model reads the code

- A database row's id is its position in a sequence; an Exchange id is a number that is never reused,
  and the sync group's UUID in a mirror's text is the group's number. Rows are never removed, only
  stamped as deleted, as in the code.
- Each Exchange call may fail. `faults`, `failCals`, `blocked` and `unlisted` are the calls that do;
  every theorem holds for every choice of them. A failed call changes nothing, and a save or deletion of a
  missing item fails.
- Every calendar and account a row refers to exists, as the foreign keys say. Item ids are distinct.
- A change key counts the saves made to an item.
- Source rows and mirror rows of one sync are the same objects in the session, so a sync that starts
  from a mirror sees its own rewritten title (`SyncModel.SourceTitle`).
- A run may add, rename, switch off and switch on calendars between any two steps, as the calendar sync does.
- Days of a recurrence are calendar days. A rule denotes the days its parts hit from its start on,
  and COUNT counts those days, also when the start is not one of them. Exchange's reading of its
  patterns (weeks begin on the pattern's first day, a day beyond the end of a month means its last
  day, an index names the n-th such weekday) is the documented one and is written down in
  `RecurrenceMeaning.SeriesHit`. The weeks of a rule begin on Monday, the default of WKST, which the
  code never writes; those of a Graph pattern without `firstDayOfWeek` begin on Sunday, Graph's default.

## Where the code and its promises part

Each of these is proved, with the exact condition under which the code does what is promised.

- README.md:165 says a mirror edited by hand in Outlook is restored at the next poll. A poll compares
  change keys of primaries only. A run of the polling task restores a disagreeing mirror of a polled and listed
  primary exactly if the primary has a change key not seen before, the mirror can be reached, the run visits the
  primary's calendar, that calendar and the earlier ones of its account can be listed, and no earlier calendar of
  the account and no earlier row of the calendar raises (`PollReach.PollRestoresMirrorIff`); with nothing new at the primaries the edit stays
  (`PollTheorems.PollIgnoresMirrorEdits`).
- The same line says that any change of the primary reaches all mirrors. An edit of the primary made in Outlook
  is never copied: after any poll a mirror shows it exactly if it left title and slot as stored
  (`PollReach.OutlookEditStaysBehind`).
- A primary that cannot update one of its mirrors ends the poll of its whole account
  (`PollCuts.AccountCutIff`). A mirror whose item was deleted by hand is never recreated, so once its primary
  is edited every poll that still has the primary in its window and its listing ends the account's poll there
  (`PollCuts.GoneMirrorCutsEveryPoll`).
- The polling task reads stored primaries without an upper bound on their start but lists Exchange up
  to the end of the window: an existing event that a poll gets to is deleted exactly if it starts at or after
  the end (`PollReach.PollDeletesFarIff`).
- `update_event` takes attendees and never reads them, although docs/prd.md:65 counts them among the things an
  update changes. A successful update shows every given field exactly if the attendees are not given or are
  those already there (`RepairTheorems.UpdateShowsGivenIff`).
- `update_event` accepts the id of a mirror; the mirrors then stop agreeing with their primary
  (`RepairTheorems.UpdateSafeIffPrimary`).
- A recurring event named in `delete_by_exchange_ids` is counted as deleted and left untouched
  (`DeleteTheorems.RecurringIdIsCounted`, `DeleteTheorems.RecurringGroupSurvives`).
- A mirror's text names the calendar of its primary; renaming that calendar leaves the old name in the mirror
  items (`SyncRuns.RenameIff`).
- The lock is deleted without checking who holds it. Leaving the body in time is not enough for mutual
  exclusion (`RedisLock.LateDeleteBreaksExclusion`); if every key is deleted within h ticks of being set, all
  runs are safe exactly if h is below the timeout (`RedisLock.SafeIffHeldBelowTimeout`).
- The slot search finds the first valid starts exactly under the condition `SlotFinder.CompleteFrom`
  (`SlotFinder.SearchCompleteIff`). A cursor before nine skips its whole day; from 390 minutes on the test for the
  end of the day, which looks at the clock time only, can accept a slot that ends after midnight
  (`SlotTheorems.LateSlotOffered`).
- The text printed for an endless Graph pattern denotes its days exactly under the condition `MapperMeaning.Safe`
  (`MapperMeaning.EndlessPrintingIff`). They differ for weekly patterns with an interval above 1 that name a weekday
  on the other side of the week's first day than the start (`MapperMeaning.WeeklyPrintingIff`), and for absolute
  days that some visited month or year does not have (`MapperMeaning.MonthlyPrintingIff`,
  `MapperMeaning.YearlyPrintingIff`).
- The rule text stored for a new endless series and the recurrence sent to Exchange agree exactly under the
  condition `EventRecurrenceTheorems.Safe` (`EventRecurrenceTheorems.EndlessIff`). They differ for yearly intervals
  above 1 and 29 February (`YearlyIff`), for visited months shorter than the start's day (`MonthlyIffLongMonths`),
  for weekly intervals above 1 with a weekday on the other side of the week's first day than the start
  (`WeeklyIff`), for weekdays on monthly and yearly series always (`WeekdaysElsewhereDiffer`) and on daily ones
  unless every weekday visited is named (`DailyWithDaysIff`), and for unknown frequencies always
  (`UnknownFrequencyDiffers`).
- A relative Graph pattern without a weekday does not survive the round trip
  (`MapperRoundTrip.PrintAfterReadIff`).
- A primary with an empty title, or one that itself begins with a busy prefix, is not folded together
  with its mirrors (`DayView.FoldsIff`).

## Model

| member | source | states |
|---|---|---|
| SyncEngine.Engine.ExchangeSave | api/services/ews/client.py:229-252 | a save succeeds exactly if the item exists and the call does not fail; it writes subject, text, start and end, keeps the attendees and moves the change key on |
| SyncEngine.Engine.ExchangeDelete | api/services/ews/client.py:254-270 | a deletion succeeds exactly if the item exists and the call does not fail, and removes that item only |
| SyncEngine.Engine.SyncMirrorToPrimary | api/services/events/mirror_service.py:44-122 | the loop over mutable rows performs exactly SyncTx: reachable live mirrors are rewritten, the failed calendars are returned in row order, and any failure degrades the group |
| SyncEngine.Engine.SyncMirrors | api/services/events/mirror_service.py:72-104 | the mirror loop alone, including what it reads from its source row while rewriting rows |
| SyncEngine.Engine.CreateEvent | api/services/events/event_service.py:97-233 | creation performs exactly CreateTx: nothing on a missing calendar or a failed first call, otherwise primary, group, mirrors and the failed calendars |
| SyncEngine.Engine.UpdateEvent | api/services/events/event_service.py:323-377 | an update performs exactly UpdateTx: rollback when the Exchange call fails, otherwise the patched row and item and a sync of the mirrors |
| SyncEngine.Engine.DeleteEvent | api/services/events/event_service.py:236-320 | a deletion performs exactly DeleteTx, whatever Exchange calls fail |
| SyncEngine.Engine.HandleExternalDelete | api/services/events/event_service.py:380-426 | an item gone from Exchange deletes the group of a live primary and repairs the group of a live mirror |
| SyncEngine.Engine.RepairSyncGroup | api/services/events/mirror_service.py:150-164 | repair is a sync from the live primary row of the group, if there is one, and returns the calendars that sync could not update |
| SyncEngine.Engine.DeleteByExchangeIds | api/routers/events.py:240-275 | the request loop performs exactly DeleteIdsTx: one deletion per id found in the database, a direct one otherwise, with counts and errors |
| SyncEngine.Engine.DeleteDirectly | api/routers/events.py:258-271 | the item is deleted exactly if it exists and some account's call does not fail |
| SyncModel.MirrorCalendarsAre | api/services/events/event_service.py:172-220 | the calendars mirrored (or failed) are exactly the user's other active, mirror-enabled ones whose call succeeds (or fails), each once |
| Outcomes.SyncedRowsAre | api/services/events/mirror_service.py:72-104 | a sync from any row rewrites title, start, end and timestamp of the live mirrors of its group whose call works, to the prefixed title and the slot of that row, and no other row; a live mirror as source reads its own new title after itself |
| Outcomes.SyncedItemsAre | api/services/events/mirror_service.py:90-97 | it saves the mirror body in the items of exactly those rows, one key further, and leaves every other item as it is |
| Outcomes.SyncedGroupsAre | api/services/events/mirror_service.py:106-114 | after a sync the group of its row is DEGRADED if the call for one of its live mirrors fails and exactly as it was otherwise; no other group changes |
| Outcomes.RepairedGroupsAre | api/services/events/mirror_service.py:150-164 | a repair changes the state of its group only, and only if the primary is live and the call for a mirror fails |
| Outcomes.MirrorBodyIs | api/services/events/mirror_service.py:21-41 | the mirror body word by word, as README.md:157-161 documents it |
| Outcomes.AttendeeTextIs | api/services/events/mirror_service.py:23-26 | the text names the addresses in order, divided by comma and blank, and says that there are none for an empty list |
| CreateTheorems.CreateReachesEligibleCalendars | api/services/events/event_service.py:148-233 | a creation keeps all earlier rows and items, puts one live mirror with the prefixed title and the same slot, inviting nobody, into exactly the eligible calendars whose call worked, reports exactly the others, and is ACTIVE exactly if there are none |
| Outcomes.CreateResultIs | api/services/events/event_service.py:103-233 | the calendar is missing exactly if it does not exist, is not the user's or is inactive; the creation fails exactly if the first call then fails; neither changes anything; otherwise it is complete exactly if no call for another active, mirror-enabled calendar fails |
| Outcomes.CreatedEventIs | api/services/events/event_service.py:80-233 | the new item lies in the chosen calendar and has the draft's title, text, start, end, attendees and recurrence; the live primary row has the draft's fields and names it; the new group names the row and is DEGRADED exactly if a copy failed |
| Outcomes.CreatedCopiesAre | api/services/events/event_service.py:181-213 | every further row is a live mirror in a receiving calendar with prefixed title, slot and text, under an item of its own with the mirror body, the recurrence and no attendees |
| SyncInvariants.Create | api/services/events/event_service.py:148-233 | a creation keeps placement, agreement and forward states |
| SyncInvariants.SyncKeepsStructure | api/services/events/mirror_service.py:72-116 | a sync, from whatever row, keeps placement and deletion completeness and moves no group state back |
| SyncInvariants.SyncRestoresAgreement | api/services/events/mirror_service.py:75-114 | after a sync from a primary its group is degraded or back in full agreement, however its mirrors had drifted |
| SyncInvariants.UpdatePrimary | api/services/events/event_service.py:347-375 | an update of a primary keeps every ACTIVE group in agreement |
| SyncInvariants.Delete | api/services/events/event_service.py:276-316 | a deletion keeps placement, completeness and the agreement of every other group |
| SyncRuns.OneStep | api/services/events/event_service.py:97-402 | every service call, poll and Outlook edit keeps placement and forward states, and agreement under the stated conditions |
| SyncRuns.DeleteIdsKeeps | api/routers/events.py:240-275 | a delete-by-ids request keeps placement, forward states and row agreement for any list, and item agreement for lists without other users' items |
| SyncRuns.RunsKeepStructure | api/services/events/event_service.py:97-402 | in every run each group has exactly one primary row, the one it names; its rows lie in different calendars; a deleted primary or group leaves no live mirror; states only move forward |
| SyncRuns.RunsKeepRowsAgreeing | api/services/events/mirror_service.py:75-122 | in every run whose updates name primaries, every live mirror row of an ACTIVE group has its primary's prefixed title, start and end |
| SyncRuns.RunsKeepItemsAgreeing | api/services/events/mirror_service.py:21-41 | in every such run without hand edits of mirror items and without renames of calendars that hold a primary, every such mirror's Exchange item is the mirror body of its primary |
| SyncRuns.RenameIff | api/services/events/mirror_service.py:21-41 | a change to a calendar's name or switches leaves an agreeing mirror item in agreement if and only if the calendar of its primary keeps its name |
| SyncRuns.RunsKeepSlotsBlocked | api/services/events/mirror_service.py:21-41 | spelled out field by field: item and row of every such mirror carry the prefixed title and the primary's slot, invite nobody and lie in another calendar |
| RunStates.RunsDegradeNone | api/services/events/mirror_service.py:106-114 | in a run in which no call for a mirror fails and no mirror item is missing, every group is ACTIVE until it is DELETED |
| RunStates.HealthyRunsAgree | api/services/events/mirror_service.py:75-122 | in such a run, with updates of primaries and without hand edits and renames, every live mirror row and item agrees with its primary, whatever the state of its group |
| RepairTheorems.SyncedMirrorAgrees | api/services/events/mirror_service.py:90-104 | a reachable mirror agrees after a sync, an unreachable one is as it was |
| RepairTheorems.SyncLeavesOnlyFailures | api/services/events/mirror_service.py:72-122 | the mirrors in disagreement after a sync are exactly those before it whose call failed; a fault-free sync leaves none whose item exists |
| RepairTheorems.ReportIsExact | api/services/events/mirror_service.py:102-122 | the reported calendars are exactly those of the live mirrors whose call failed, each once |
| RepairTheorems.SyncTwice | api/services/events/mirror_service.py:72-122 | repeating a sync under the same faults changes only timestamps and change keys and reports the same calendars |
| RepairTheorems.RepairRestoresGroup | api/services/events/mirror_service.py:150-164 | repair of a group with a live primary leaves in disagreement only mirrors whose call failed, and does nothing to a group whose primary is deleted |
| RepairTheorems.UpdateIsCarriedThrough | api/services/events/event_service.py:347-377 | an update that reaches Exchange, whether or not some mirrors stay stale, puts every given title, description, start and end into row and item of the primary, leaves the others and the attendees, and shows the result on every live mirror row and item it can reach; one that fails changes nothing |
| RepairTheorems.UpdateShowsGivenIff | api/services/events/event_service.py:347-377 | an update of a primary that reaches Exchange shows every given field, the attendees included, in row and item if and only if no attendees are given or those given stand in both already |
| Outcomes.UpdateResultIs | api/services/events/event_service.py:330-377 | an update finds no event exactly if there is no live one of the user; it fails exactly if a field other than attendees is given and the call fails or the item is missing; otherwise it succeeds exactly if every live mirror can be reached, and reports exactly the calendars of those that cannot |
| Outcomes.UpdatedGroupsAre | api/services/events/event_service.py:371-375 | an update degrades its group exactly if the call for one of its live mirrors fails, and changes no other group |
| Outcomes.UpdateTouchesOnlyItsGroup | api/services/events/event_service.py:330-375 | an update changes no row and no item but those of the event and of the live mirrors of its group that it reaches |
| RepairTheorems.MirrorTitledTwice | api/services/events/event_service.py:330-375 | an update sent to a mirror, even an empty one, prefixes that mirror's title twice |
| RepairTheorems.UpdateSafeIffPrimary | api/services/events/event_service.py:330-375 | for an ACTIVE group with existing items, an update of an event is sure to keep agreement if and only if the event is the primary |
| DeleteTheorems.DeleteLeavesOnlyFailures | api/services/events/event_service.py:265-316 | a deletion removes exactly the items of the event and its live mirrors whose call did not fail, marks exactly those rows, and touches nothing else |
| DeleteTheorems.ExternalDeleteIs | api/services/events/event_service.py:380-426 | the row found for a missing item is the one that holds it: a primary is deleted with mode "all", a mirror's group is repaired |
| DeleteTheorems.UnknownItemIsIgnored | api/services/events/event_service.py:380-402 | an item no live row holds, unknown or of a deleted event, causes no change |
| Outcomes.DeletedTablesAre | api/services/events/event_service.py:276-316 | a deletion stamps the event and the live mirrors of its group and no other row, marks that group DELETED and no other, and without effect, on another user's event or on a recurring one in mode "single", changes nothing |
| Outcomes.DeletedItemsAre | api/services/events/event_service.py:276-309 | it removes from Exchange the items of those rows whose call works and no other |
| Outcomes.OneIdIs | api/routers/events.py:240-275 | a request for one id deletes the user's row that holds it, or else the item directly if it exists and some account, the first or a later one, gets through, or else reports the id |
| Outcomes.IdsInOrder | api/routers/events.py:240-275 | a longer request handles its ids in order and adds up deletions and errors |
| DeleteTheorems.DeleteByIdsIsExact | api/routers/events.py:240-275 | for the user's own non-recurring group, a row is deleted exactly if it was, is named, or mirrors a named group; the group is DELETED exactly if it was or is named |
| DeleteTheorems.FullListEmptiesGroup | api/routers/events.py:240-275 | a list holding all ids of a non-recurring group, in any order and with repeats, leaves every row deleted and the group DELETED |
| DeleteTheorems.RecurringGroupSurvives | api/services/events/event_service.py:265-265 | the rows and the state of a recurring event's group are the same after any request of any user |
| DeleteTheorems.RecurringIdIsCounted | api/routers/events.py:240-275 | a request for one's own recurring event reports one deletion and no error and changes nothing at all |
| DeleteTheorems.RecurringItemsSurvive | api/routers/events.py:240-275 | no request of its owner touches the Exchange items of a recurring event's group |
| DeleteTheorems.EveryIdAccounted | api/routers/events.py:240-275 | deleted plus errors is the length of the list, and errors are ids of the list |
| Polling.PollOneRow | worker/tasks/subscription_tasks.py:72-98 | one polled primary: external deletion, sync and key update, or nothing; true exactly if the sync raised |
| Polling.PollOneCalendar | worker/tasks/subscription_tasks.py:52-98 | the loop over one calendar performs exactly PollCalendar, stopping when a sync raises |
| Polling.PollOneAccount | worker/tasks/subscription_tasks.py:43-105 | the loop over one account's active calendars performs exactly PollAccount, cut short when a listing or a sync raises |
| Polling.PollCalendarChanges | worker/tasks/subscription_tasks.py:35-105 | the whole task performs exactly PollTx and skips only the rest of an account that raised |
| PollTheorems.SettledPoll | worker/tasks/subscription_tasks.py:72-98 | polling calendars whose primaries are listed under the key already seen changes nothing, for any faults |
| PollTheorems.SecondPollIsIdle | worker/tasks/subscription_tasks.py:41-98 | after a poll that nothing cut short, a second poll over the same window changes nothing at all |
| PollTheorems.PollIgnoresMirrorEdits | worker/tasks/subscription_tasks.py:62-98 | in a settled state a hand-edited mirror item stays as edited through any poll |
| PollOutcome.PollRestoresIff | worker/tasks/subscription_tasks.py:72-98 | polling a listed primary brings a disagreeing live mirror back into agreement, row and item, if and only if the primary's change key is new and the mirror can be reached |
| PollOutcome.CalendarRestoresIff | worker/tasks/subscription_tasks.py:52-98 | the whole poll of a calendar does so if and only if moreover no earlier polled row of the calendar raises |
| PollOutcome.CalendarRaisesIff | worker/tasks/subscription_tasks.py:52-98 | the poll of a calendar raises if and only if, in the state before it, a polled primary has a new key and a live mirror that cannot be updated |
| PollOutcome.PollDeletesTheUnlisted | worker/tasks/subscription_tasks.py:59-81 | a calendar's poll, raising or not, deletes a polled primary if and only if Exchange does not list it and no earlier row raises, and then its whole group |
| PollOutcome.FarEventsAreDeleted | worker/tasks/subscription_tasks.py:53-68 | an existing unchanged event is deleted by the poll of its calendar if and only if it starts at or after the end of the window and no earlier row raises |
| PollCuts.AccountCutIff | worker/tasks/subscription_tasks.py:43-105 | an account's poll is cut short if and only if, in the state before it, one of its active calendars cannot be listed or raises |
| PollCuts.PollCompleteIff | worker/tasks/subscription_tasks.py:35-105 | a poll is cut short nowhere if and only if, in the state before it, every visited calendar can be listed and every live mirror of a polled primary with a new key can be updated |
| PollCuts.SecondPollIdleWhenReachable | worker/tasks/subscription_tasks.py:35-105 | under that condition, read off before the first poll, a second poll changes nothing at all |
| PollCuts.GoneMirrorCutsEveryPoll | worker/tasks/subscription_tasks.py:72-105 | a primary with a new key and a live mirror whose item is gone: every one of any number of polls, each with its own window in which the primary is polled and listed, cuts the account short and leaves row and item of both as they were |
| PollReach.PollTurn | worker/tasks/subscription_tasks.py:35-105 | in a run of the task the groups of a calendar change in one turn only, which finds them as at the start and is taken if and only if the calendar can be listed and no earlier one of its account ends the account's poll |
| PollReach.PollRestoresMirrorIff | worker/tasks/subscription_tasks.py:35-105 | a run of the task restores a disagreeing live mirror of a live primary that does not start before the window and is listed if and only if its key is new, the mirror's call works, the run gets to the calendar and no earlier row of it raises; every term spelled out in fields |
| PollReach.PollDeletesIff | worker/tasks/subscription_tasks.py:35-105 | a run of the task deletes a live primary that does not start before the window, with its whole group, if and only if Exchange does not list it, the run gets to its calendar and no earlier row of it raises |
| PollReach.PollDeletesFarIff | worker/tasks/subscription_tasks.py:35-105 | of the existing unchanged events a run of the task gets to, it deletes exactly those that start at or after the end of the window |
| PollReach.PollGroupIs | worker/tasks/subscription_tasks.py:35-105 | the group of such a primary is DELETED if the run gets to it and it is not listed, DEGRADED if the run gets to it, its key is new and the call for a mirror fails, and exactly as it was otherwise |
| PollReach.UnpolledIsLeft | worker/tasks/subscription_tasks.py:35-69 | a primary that is deleted, starts before the window or lies in a calendar that is not an active one of the polled accounts keeps row, item, mirrors and group |
| PollReach.AbortedAre | worker/tasks/subscription_tasks.py:35-105 | the accounts cut short are exactly those with an active calendar that cannot be listed or raises, in order |
| PollReach.OutlookEditStaysBehind | worker/tasks/subscription_tasks.py:72-98 | after an Outlook edit of a primary no poll changes what its row says, and a mirror that agreed, unless deleted, still agrees with the row and shows the edit if and only if title and slot were not edited |
| RedisLock.SafeIffReleasesHarmless | api/utils/redis_lock.py:22-36 | when every holder leaves its body before its key expires, a run keeps mutual exclusion and the key throughout if and only if no process deletes the key while another is inside |
| RedisLock.TimelyReleasesAreSafe | api/utils/redis_lock.py:22-36 | if moreover every delete comes before the process's own key expires, at most one process is inside and the key exists while one is, in every interleaving |
| RedisLock.LateDeleteBreaksExclusion | api/utils/redis_lock.py:34-36 | for every timeout and retry limit there is a run with all bodies in time, all keys deleted at the latest when they expire, and two processes inside |
| RedisLock.SafeIffHeldBelowTimeout | api/utils/redis_lock.py:22-36 | all runs in which keys are deleted within h ticks of being set keep mutual exclusion and the key if and only if h is below the timeout |
| RedisLock.GivingUpTouchesNoKey | api/utils/redis_lock.py:23-36 | a process that gives up has tried exactly max_retries times, found the key set and not expired each time, and none of its steps changed the key |
| RedisLock.AttemptIs | api/utils/redis_lock.py:23-29 | a waiting process with tries left, the first or a later one, takes a key that is not set or has expired for the whole timeout and is inside; a held key costs it one try and nothing else changes |
| RedisLock.ReleasedKeyIsTaken | api/utils/redis_lock.py:31-36 | leaving keeps the key, deleting frees it, and whoever tries next gets it |
| Availability.CheckSlot | api/services/availability/availability_service.py:67-105 | the nested loops collect exactly AllConflicts; available means none; without calendars every slot is available |
| Availability.ConflictsAre | api/services/availability/availability_service.py:80-100 | a conflict is reported exactly for a busy, tentative or oof item of a schedule whose dates are known and that shares more than an end point with the slot, under that schedule's id |
| Availability.ListedInOrder | api/services/availability/availability_service.py:77-100 | conflicts and busy intervals follow the listing: concatenated schedules and items give concatenated lists, and one item gives one entry or none |
| Availability.CollectBusy | api/services/availability/slot_finder.py:79-90 | the nested loops collect exactly the intervals of AllBusy, in order |
| Availability.SearchAgreesWithCheck | api/services/availability/slot_finder.py:79-110 | on the same schedules a slot is free for the search if and only if the check finds no conflict and no item it overlooks meets the slot |
| Availability.UsualStatusesAgree | api/services/availability/availability_service.py:80-105 | with statuses free, busy, tentative and oof only, search and check agree on every slot |
| SlotFinder.FirstCursorIsLeast | api/services/availability/slot_finder.py:92-97 | the first cursor is nine o'clock of the first day or, when that is past, the least half-hour boundary strictly after now |
| SlotTheorems.NineIs | api/services/availability/slot_finder.py:94-94 | nine o'clock of an instant is minute 540 of the day of that instant |
| SlotTheorems.FirstCursorIs | api/services/availability/slot_finder.py:92-97 | in numbers: the first cursor is minute 540 of the first day if that is not before now, and otherwise the one half hour after now and at most thirty minutes away |
| SlotFinder.FirstCursorBeforeNine | api/services/availability/slot_finder.py:92-97 | the first cursor lies before nine if and only if the day's nine o'clock is past and the clock is between 23:30 and 8:30 |
| SlotFinder.EveryBranchAdvances | api/services/availability/slot_finder.py:99-127 | both jumps advance the cursor by at least 30 minutes, to nine o'clock of the next day |
| SlotFinder.ScanLoop | api/services/availability/slot_finder.py:99-127 | the while loop terminates for all inputs and finds exactly the scored starts of Scan |
| SlotFinder.FindSlots | api/services/availability/slot_finder.py:69-130 | for all inputs the method returns Offered on the given schedules, and nothing without calendars |
| SlotFinder.ValidFromIsAll | api/services/availability/slot_finder.py:99-110 | the reference list holds exactly the valid half hours from a cursor on, in ascending order |
| SlotFinder.JumpLosesNothing | api/services/availability/slot_finder.py:100-107 | a stretch without valid starts may be jumped over |
| SlotFinder.EndTestExactIffShort | api/services/availability/slot_finder.py:104-107 | the end-of-day test is right for every start the loop can meet, at every cursor, if and only if the duration is below 390 minutes |
| SlotFinder.ScanIsReference | api/services/availability/slot_finder.py:99-127 | from a half hour not before nine where neither the cursor nor a later nine o'clock deceives the end test, the jumping loop finds exactly the first valid starts, for every duration |
| SlotFinder.SearchCompleteIff | api/services/availability/slot_finder.py:92-127 | for every half hour, duration and limit: the loop finds the first valid starts on all schedules and ranges if and only if nine o'clock does not deceive the end test and the cursor either stands at or after nine and does not deceive it, or stands before nine and no slot fits into a working day |
| SlotFinder.ShortIsComplete | api/services/availability/slot_finder.py:92-107 | that condition holds for every duration below 390 minutes from every cursor not before nine |
| SlotFinder.LateSlotFound | api/services/availability/slot_finder.py:99-110 | from 390 minutes to a day and a half hour, the loop accepts half past five although the slot ends on the next day |
| SlotTheorems.StartTextOrder | api/services/availability/slot_finder.py:121-129 | ISO start texts compare exactly as the starts do in time, up to year 9999 |
| SlotTheorems.BetterMeans | api/services/availability/slot_finder.py:112-129 | the sort order means: preferred hours first, then the earlier part of the day, then the earlier start |
| SlotTheorems.CutIsBest | api/services/availability/slot_finder.py:129-130 | sorting and cutting gives the n best of any candidates, best first |
| SlotTheorems.OfferedIsBest | api/services/availability/slot_finder.py:99-130 | for all inputs the offer is the best eight of the first 24 starts found |
| SlotTheorems.OfferedIsReference | api/services/availability/slot_finder.py:92-130 | if the search is complete from where it begins, the offer is the best eight of the first 24 of all starts of the range that are on a half hour of the working day with room before six, not before nine of the first day or after now, and free |
| SlotTheorems.ShortOfferIsReference | api/services/availability/slot_finder.py:92-130 | the same for every duration below 390 minutes, unless nine is past and the clock stands between 23:30 and 8:30 |
| SlotTheorems.SlotIs | api/services/availability/slot_finder.py:109-126 | a slot ends after its duration and scores ten in the preferred hours, and two more until one o'clock or one more until four |
| SlotTheorems.OfferedAreSlots | api/services/availability/slot_finder.py:109-130 | every offered slot has that end and that score |
| SlotTheorems.LateSlotOffered | api/services/availability/slot_finder.py:92-130 | at ten past five with nothing busy such a duration is offered from half past five into the next day |
| SlotTheorems.PreferredComeFirst | api/services/availability/slot_finder.py:112-130 | slots in preferred hours precede all others, and another slot is offered only if all preferred candidates are, fewer than eight of them |
| SlotTheorems.OfferedAreAvailable | api/services/availability/slot_finder.py:109-130 | every offered slot, for all inputs, is one the availability check calls available |
| SlotTheorems.AvailableStartsAreValid | api/services/availability/availability_service.py:80-105 | with the four usual statuses the half hours of the working day that pass the check are exactly the valid starts |
| RuleText.ReadProps | api/services/events/recurrence_mapper.py:120-128 | the tokenizer loop fills exactly Props of the text, later properties winning |
| RuleText.ReadBack | api/services/events/recurrence_mapper.py:115-136 | any set of written properties is read back unchanged |
| RecurrenceMapper.ReadDays | api/services/events/recurrence_mapper.py:36-45 | the loop over a BYDAY value produces exactly RruleDaysToGraph |
| RecurrenceMapper.RruleToGraph | api/services/events/recurrence_mapper.py:118-201 | the reader produces exactly FromRule for every text, ValueError where a number does not parse |
| MapperRoundTrip.PrintsItsFields | api/services/events/recurrence_mapper.py:56-115 | the parts the writer formats are exactly the properties of the pattern and range, in order |
| MapperRoundTrip.DaysBack | api/services/events/recurrence_mapper.py:31-45 | a weekday list survives printing and splitting |
| MapperRoundTrip.OrdinalBack | api/services/events/recurrence_mapper.py:77-78 | a printed signed week number and weekday is matched again with both, for every integer |
| MapperRoundTrip.UntilBack | api/services/events/recurrence_mapper.py:104-109 | a printed end date is read back as the same date text |
| MapperRoundTrip.RoundTrip | api/services/events/recurrence_mapper.py:48-201 | Graph to RRULE to Graph gives the canonical form of every recurrence the tables cover, whatever its case and missing keys |
| MapperRoundTrip.RoundTripIsIdentity | api/services/events/recurrence_mapper.py:48-201 | all six pattern types with any integers, all seven days, five indexes and three ranges come back unchanged |
| MapperRoundTrip.PrintAfterReadIff | api/services/events/recurrence_mapper.py:71-97 | printing what was read from a printed text gives that text if and only if the pattern is not a relative one without weekday |
| ReaderTheorems.LastSetting | api/services/events/recurrence_mapper.py:120-128 | in any text a property has a value if and only if some part gives it that value, up to white space, and no later part mentions it |
| ReaderTheorems.TextParts | api/services/events/recurrence_mapper.py:120-128 | the parts are those between semicolons, with or without RRULE: in front |
| ReaderTheorems.SimplePatternIs | api/services/events/recurrence_mapper.py:130-151 | a missing INTERVAL is 1, a missing FREQ is daily, an unknown one has no type; daily and weekly patterns |
| ReaderTheorems.MonthlyPatternIs | api/services/events/recurrence_mapper.py:153-172 | relative if BYDAY holds a digit or a sign, else the month day, else that of the start |
| ReaderTheorems.YearlyPatternIs | api/services/events/recurrence_mapper.py:174-190 | relative if both BYDAY and BYMONTH are given, else the given month and month day; ValueError for a number that does not parse |
| ReaderTheorems.OrdinalIs | api/services/events/recurrence_mapper.py:159-165 | a matched ordinal gives index and weekday, the first week and Monday outside the tables |
| ReaderTheorems.ListDayIs | api/services/events/recurrence_mapper.py:36-45 | a BYDAY entry names a day by its code, whatever white space, signs and digits stand before it; an unknown code stays, in small letters |
| ReaderTheorems.ListIs | api/services/events/recurrence_mapper.py:36-45 | a list gives one day for each entry between commas, in order |
| ReaderTheorems.NumbersAre | api/services/events/recurrence_mapper.py:131-131 | a property is a number if and only if it is an optional sign and at least one digit |
| ReaderTheorems.BadIntervalIsError | api/services/events/recurrence_mapper.py:131-131 | an INTERVAL that is no number is a ValueError for every frequency |
| ReaderTheorems.RangeIs | api/services/events/recurrence_mapper.py:191-201 | COUNT goes before UNTIL, whose date is cut out of its first eight characters |
| ReaderTheorems.IndexIs | api/services/events/recurrence_mapper.py:72-73 | an unknown or missing index counts as the first week |
| ReaderTheorems.UnknownDayIs | api/services/events/recurrence_mapper.py:31-33 | a weekday outside the seven is cut to two capitals in a list and is Monday in a relative pattern |
| StoredRoundTrip.StoredRuleIsRead | api/services/events/recurrence_mapper.py:118-201 | reading the rule text a creation stores gives its frequency, interval also when INTERVAL is left out, weekdays and end, with the month day of the date it is read for |
| StoredRoundTrip.UntilIsEndOfDay | api/services/events/recurrence_mapper.py:104-109 | both writers let a dated series run to the last second of its end date |
| RecurrenceMeaning.IndexIsOrdinal | api/services/events/recurrence_mapper.py:20-28 | counting weekdays from either end of the month, ordinals 1 to 4 and -1 name the days of the five indexes |
| RecurrenceMeaning.SameWeeks | api/services/events/recurrence_mapper.py:147-151 | for interval 1, or a day on the start's side of the week's first day, it does not matter which day weeks are counted from |
| MapperMeaning.PrintedReads | api/services/events/recurrence_mapper.py:56-115 | the printed text, read under RFC 5545, is the rule with the same frequency, interval, parts and end, for all six types with any interval, first day and day of the month |
| MapperMeaning.PrintingKeepsDays | api/services/events/recurrence_mapper.py:48-115 | the printed rule denotes the same days as the Graph recurrence, end date and count included: any interval, weekly with interval 1 or weekdays on the start's side of the week's first day, absolute days that every month or year visited has, the first to fourth or last of one weekday |
| MapperMeaning.WeeklyPrintingIff | api/services/events/recurrence_mapper.py:48-115 | an endless weekly pattern keeps its days if and only if the interval is 1 or all its weekdays lie on the same side of the week's first day as the start |
| MapperMeaning.MonthlyPrintingIff | api/services/events/recurrence_mapper.py:48-115 | an endless absolute monthly pattern keeps its days if and only if every month visited has the day |
| MapperMeaning.YearlyPrintingIff | api/services/events/recurrence_mapper.py:48-115 | an endless absolute yearly pattern keeps its days if and only if its month has the day in every year visited |
| MapperMeaning.EndlessPrintingIff | api/services/events/recurrence_mapper.py:48-115 | an endless pattern of any of the six types keeps its days if and only if it is safe |
| MapperMeaning.GraphToRrule | api/services/events/recurrence_mapper.py:48-115 | the branching writer: what it writes for a recurrence the tables cover is read back as its canonical form, and denotes the same days wherever printing keeps them |
| EventRecurrenceTheorems.StoredReads | api/services/events/event_service.py:132-146 | the stored text, read under RFC 5545, is the rule with that frequency, interval, weekdays and end |
| EventRecurrenceTheorems.SentSeries | api/services/events/event_service.py:47-75 | the recurrence sent denotes the series of that frequency with the start's weekday, day and month filled in |
| EventRecurrenceTheorems.DayMapIs | api/services/events/event_service.py:40-59 | weekday codes are read in any letter case, anything else goes to Exchange as it is |
| EventRecurrenceTheorems.UnknownWeekdayIsRefused | api/services/events/event_service.py:55-59 | a weekly series naming a weekday that is neither a code nor an English name has no recurrence in Exchange |
| EventRecurrenceTheorems.EndDateIs | api/services/events/event_service.py:65-69 | an end date is sent if and only if it is written YYYY-MM-DD and exists in the calendar |
| EventRecurrenceTheorems.StoredRuleIsSentSeries | api/services/events/event_service.py:53-146 | stored text and sent recurrence denote the same days, end date and count included: daily with any interval and no weekdays or all visited ones, weekly with interval 1 or weekdays on the start's side of the week's first day (no weekdays meaning the start's), monthly with no visited month shorter than the start's day, yearly with interval 1 except from 29 February |
| EventRecurrenceTheorems.WriteRule | api/services/events/event_service.py:132-146 | the inline writer: for every configuration, start and first day of the week for which the two readings agree, the text written denotes the series sent |
| EventRecurrenceTheorems.YearlyIff | api/services/events/event_service.py:62-63 | endless yearly series agree if and only if the interval is 1 and the start is not 29 February |
| EventRecurrenceTheorems.MonthlyIffLongMonths | api/services/events/event_service.py:60-61 | endless monthly series of any interval agree if and only if none of the months visited within 400 years is shorter than the start's day |
| MonthsAndYears.LongMonthsIff | api/services/events/event_service.py:60-61 | checking 400 years of months decides for all of time whether a visited month is too short |
| MonthsAndYears.LeapFebruariesOnly | api/services/events/event_service.py:60-61 | the month lengths of a common year do not decide: every 400 months from 29 February 2004 only leap Februaries, Junes and Octobers are visited |
| MonthsAndYears.LongYearsIff | api/services/events/recurrence_mapper.py:82-85 | checking 400 visited years decides for all of time whether the pattern's month is too short in one of them |
| MonthsAndYears.FirstOf2024 | api/services/events/event_service.py:58-58 | the weekday of a date is the one of the calendar in use: 1 January 2024 is a Monday |
| EventRecurrenceTheorems.MonthlyIff | api/services/events/event_service.py:60-61 | endless every-month series agree if and only if the start's day is at most 28 |
| EventRecurrenceTheorems.WeeklyIff | api/services/events/event_service.py:55-59 | an endless weekly series agrees if and only if the interval is 1 or all its weekdays lie on the same side of the week's first day as the start |
| EventRecurrenceTheorems.DailyWithDaysIff | api/services/events/event_service.py:140-141 | weekdays on an endless daily series of any interval are harmless if and only if every weekday the series visits is named |
| EventRecurrenceTheorems.WeekdaysElsewhereDiffer | api/services/events/event_service.py:140-141 | weekdays on an endless monthly or yearly series make text and recurrence differ, for every interval, start and list of weekdays |
| EventRecurrenceTheorems.EndlessIff | api/services/events/event_service.py:47-146 | an endless series of the four frequencies agrees if and only if it is safe |
| EventRecurrenceTheorems.UnknownFrequencyDiffers | api/services/events/event_service.py:137-137 | a frequency outside the four is stored as daily and sent as yearly, and the two endless series differ for every interval, start and list of weekdays |
| DayView.Dedup | api/routers/events.py:45-72 | the one-pass fold over the ordered dictionary is the reference view, for all listings |
| DayView.KeysAreDistinct | api/routers/events.py:52-72 | no key is shown twice |
| DayView.KeysInOrder | api/routers/events.py:52-72 | keys are shown in the order of their first appearance |
| DayView.MembersInOrder | api/routers/events.py:58-63 | the ids of a key are those of exactly its entries, in listing order |
| DayView.SameKeyIff | api/routers/events.py:38-56 | two entries are folded if and only if their titles agree without busy prefixes and their starts agree to the minute, the first sixteen characters |
| DayView.StripIs | api/routers/events.py:35-42 | one of the four prefixes is taken off, once, and any other title stays |
| DayView.IdsConserved | api/routers/events.py:58-71 | the multiset of all shown ids is the multiset of listed ids |
| DayView.RepresentativeIs | api/routers/events.py:64-71 | the entry kept is the first without a busy prefix if there is one, otherwise the first |
| DayView.FoldsIff | api/routers/events.py:38-56 | a primary and its mirror get the same key if and only if the primary's title is not empty and has no busy prefix |
| DayView.CopiesFoldIntoOne | api/routers/events.py:52-72 | in any listing such a primary and its in-sync mirrors become one entry with the primary's title and the ids of all copies, and it is the primary's own when no other entry of the key is unprefixed |
| DayDelete.DeletingTheEntryEmptiesTheGroup | api/routers/events.py:45-275 | an in-sync group of a non-recurring event whose title folds is one entry of the day view, and deleting by the ids that entry carries empties the group, whatever Exchange deletions fail |

## Left out

- Exchange and Graph clients, HTTP, authentication, sessions and encryption: foreign calls, kept only as calls that may fail.
- Concurrency of two service calls: each is one atomic step, as if its lock and transactions held throughout; the lock itself is modelled on its own, and a Redis connection that breaks is not.
- Time zones and daylight saving: every time is a local naive one, so the UTC suffix of a printed UNTIL and slots that cross a clock change are not captured.
- Reading the preferred hours from "HH:MM" and the free/busy query itself: hours and schedules are parameters of the slot search.
- The lists of e-mail addresses asked for schedules, account choice and logging.
- Exchange ids of single occurrences: items not listed under their own id are the parameter `hidden` of a poll.
- Fields that are copied and never decided upon: time zone, status, source event, recurrence text on rows, rich entry details of the day view.
- Recreating a mirror whose item is gone: the code does not, so no theorem promises it.
- The recurrence edit mode of an update, which the code accepts and never reads.
- Imports of calendars and contacts, contact search, virtual occurrences, the language model and the Telegram bot.
- Python's leniency in numbers and dates: underscores in integers, digits of other scripts, ISO week dates and dates without dashes; overflow beyond year 9999 raises in Python and is unbounded here, except where a theorem speaks of texts.
- Graph recurrences with day names outside the seven, or several weekdays on a relative pattern: the round trip keeps the first weekday, and no meaning is claimed for the rest.
- RoundTrip: speaks of end dates written YYYY-MM-DD; the reader cuts any other text at fixed positions.
- MonthlyIffLongMonths: like the other exact conditions on recurrences it speaks of endless series; one with an end may stop before the first day that differs.
- MonthlyPrintingIff: endless patterns only, as above; PrintingKeepsDays covers every range.
