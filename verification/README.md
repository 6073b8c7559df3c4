# Verified models of the Go exercises and the calendar service

This project models, in Dafny, the parts of the repository whose behaviour no single
function shows, and proves what they guarantee over every input, every run and every
schedule.

- **Notification delivery** (`Delivery`, `DeliveryTheorems`): API writers, any number of
  schedulers, the broker log and the storer as one transition system. Every remote call may
  take effect and still report an error, or take effect only after it was given up; either
  process may stop between any two calls, a producer may write a message several times, and
  foreign bytes may appear in the topic.
- **The processes themselves**: `SchedulerCycle` is `RunOnce` and `StorerProcess` is `Consume`
  with `handle`, as objects that work on the shared database and topic of `Deployment`. Their
  steps interleave with API calls and with each other's steps, any call may fail, and each
  step is proved to be one of the delivery protocol, so every execution is a run of it.
  `Agendas` says what a cycle sends and marks, whoever else writes; `Operation` puts whole
  cycles and lives of the processes together. `SqlStorage` is the SQL storage over the tables
  of `EventTable`.
- **The calendar store**: `MemoryStorage` (the in-memory object), `StoreAgreement` (memory
  and SQL answer alike), `Civil` and `Windows` (dates, day, week and month listings).
- **The LRU cache**: `LinkedList` and `LruCache` are the heap structures, `LruSpec` the
  sequence they refine, `LruTheorems` what holds over whole histories.
- **The worker pool** (`WorkerPool`, `WorkerPoolTheorems`) and **the pipeline** (`Pipeline`,
  `PipelineTheorems`): coordinator, workers, forwarders and stages as steps over unbuffered
  channels, under every schedule.
- **`Unpack`** against a grammar, and **`Backoff`**, the retry loop in 64-bit arithmetic.

`Domain`, `Listings` and `EventSort` hold the shared values and the listing order.
`dafny verify dfyconfig.toml` checks everything.

## How the model reads the source

- Times are exact integers, nanoseconds from 0001-01-01T00:00:00Z, so Go's zero time is 0.
  One granularity is used throughout; the database's rounding to microseconds is not modelled.
- The text collation of the database is an arbitrary strict total order on strings.
- A payload is the encoding of a notification or bytes that decode to none; decoding inverts
  encoding.
- A context is a function from the number of a check to its answer. How the remote calls of a
  process end is a function of their number too; in the scheduler one function answers both
  its checks of the context and its calls.
- Which goroutine goes next, when others interleave and, in the delivery protocol, what a
  remote call does are choices left open, so a proof covers all of them.
- PostgreSQL refuses strings with a NUL and times outside the range of `timestamptz`, and the
  memory store accepts both. Neither limit is modelled: the SQL storage here takes every
  string and every time.
- Mutexes are held for whole operations, so operations of the cache and of the memory store
  are atomic.
- An item of the linked list keeps the value it was created with: the Go field is
  exported, but nothing reassigns it.
- On an insertion that violates both, the database reports the primary key before the
  exclusion constraint.
- A nil `done` is one that is never closed, and a nil input one that offers nothing and is
  never closed.

## Findings

- **Delivery needs a single scheduler, and calls that never take effect late.** With two
  schedulers, one can publish old content after the other published and marked the new one;
  the mark then keeps the new content from being sent again (`DeliveryTheorems.StaleDelivery`).
  With a single one it takes a call that was given up and takes effect all the same: a message
  that lands after the newer one (`LateMessage`), a mark that lands on an event changed back
  meanwhile (`LateMark`), a save that overwrites the newer one (`LateSave`), or commits that
  take the offset back and forth (`LateCommit`). Over messages, marks, saves and commits the
  conditions are exact: `LastMessageIff` for what the topic says last, `ExactlyOnceIff` for what
  the storer saves, and `DeliveryIffOrderly` for both together. `MarkProvesSent` and
  `NothingInvented` hold in every deployment, late effects or not.
- **The listings fail at Go's zero time**, which the query refuses as a bound.
  `Windows.ListDayIff`, `Windows.ListWeekIff` and `Windows.ListMonthIff` give the exact
  condition of each: a day is refused on 0001-01-01 and the day before, a week when it starts
  or ends there, a month when it is January of year 1 or December of year 0. So a week can be
  answered although one of its days is refused: `Windows.WeekWithoutItsDay` shows the week
  from 0000-12-29. Away from the zero time week and month are exactly their days.
- **A mark does not notice every change.** The comment on `MarkNotificationSent`
  (`hw12_13_14_15_16_calendar/internal/storage/sql/scheduler.go:50-51`) promises `false` when
  the event changed; the statement compares neither the end nor the description.
  `EventTable.ChangedYetMarked` gives such a change, and `EventTable.MarkIffDescribed` the
  exact condition: the published notification and the notice must still be the row's. The
  model follows the statement.

## Model

| member | source | states |
|---|---|---|
| DeliveryTheorems.EndToEndDelivery | hw12_13_14_15_16_calendar/internal/scheduler/scheduler.go:196-231 | in every run with one scheduler and no late effect, or with no scheduler, any API writes, crashes and ambiguous calls, once the committed offset reaches the log end the notifications table has, for each marked row, its id and its current title, start and user; at all times its last message says so |
| DeliveryTheorems.DeliveryIffOrderly | hw12_13_14_15_16_calendar/deployments/docker-compose.yaml:86-131 | that guarantee holds over all runs if and only if no scheduler is deployed, or one and no message, mark, save or commit can take effect after its call ended |
| DeliveryTheorems.StaleDelivery | hw12_13_14_15_16_calendar/internal/scheduler/scheduler.go:141-169 | with two or more schedulers some run leaves old content last in the topic for a marked row, and some leaves it with a caught-up storer |
| DeliveryTheorems.LateDelivery | hw12_13_14_15_16_calendar/internal/kafka/producer.go:38-49 | with a single scheduler, any one of the four kinds of late effect has a run that leaves a caught-up storer without the content of a marked row |
| DeliveryTheorems.LateMessage | hw12_13_14_15_16_calendar/internal/kafka/producer.go:38-49 | a message that lands after its send was given up can be the last about a row marked with newer content |
| DeliveryTheorems.LateMark | hw12_13_14_15_16_calendar/internal/storage/sql/scheduler.go:69-98 | a mark that lands after it was given up can mark content that is not the last published, when the event was changed and changed back |
| DeliveryTheorems.LateSave | hw12_13_14_15_16_calendar/internal/storage/sql/notification.go:29-38 | a save that lands after it was given up can replace newer content behind a committed offset |
| DeliveryTheorems.LateCommit | hw12_13_14_15_16_calendar/internal/kafka/consumer.go:59-64 | commits that land after they were given up can leave old content saved last behind an offset at the log end |
| DeliveryTheorems.LastMessageIff | hw12_13_14_15_16_calendar/internal/scheduler/scheduler.go:196-231 | over all runs the last message about every marked row is its content, if and only if there is no scheduler, or one and neither messages nor marks take effect late |
| DeliveryTheorems.LastMessageIsContent | hw12_13_14_15_16_calendar/internal/scheduler/scheduler.go:196-231 | in every run under that condition |
| DeliveryTheorems.ExactlyOnceIff | hw12_13_14_15_16_calendar/internal/kafka/consumer.go:38-66 | over all runs the notifications table is an exactly-once replay up to the committed offset or one further, if and only if there is no scheduler, or neither saves nor commits take effect late |
| DeliveryTheorems.MarkProvesSent | hw12_13_14_15_16_calendar/internal/storage/sql/scheduler.go:69-98 | with any number of schedulers and any late effects, some message carries the current content of each marked row |
| DeliveryTheorems.ExactlyOnceEffect | hw12_13_14_15_16_calendar/internal/kafka/consumer.go:38-66 | in every reachable state, with no late save or commit or with no scheduler, the notifications table is what saving the first k, or k+1, messages exactly once in order gives, k being the committed offset |
| DeliveryTheorems.CatchUp | hw12_13_14_15_16_calendar/internal/kafka/consumer.go:43-65 | from every state whose table is such a replay the storer's own steps can bring the committed offset to the log end and the table to the whole replay, changing nothing else |
| DeliveryTheorems.MarkedCanBeStored | hw12_13_14_15_16_calendar/internal/storer/storer.go:89-104 | every run can be continued, without touching the events, to one where a given marked event's content is stored |
| DeliveryTheorems.NothingInvented | hw12_13_14_15_16_calendar/internal/storer/storer.go:106-137 | in every deployment, late effects or not, each stored notification describes an event the table held at some point of the run |
| Delivery.ReplayIsLast | hw12_13_14_15_16_calendar/internal/storage/sql/notification.go:21-27 | replaying upserts over a log leaves, for each event, exactly its last readable message |
| Delivery.SavingTwice | hw12_13_14_15_16_calendar/internal/storage/sql/notification.go:21-27 | saving a message again changes nothing, so redelivery is harmless |
| Delivery.StorerStep | hw12_13_14_15_16_calendar/internal/kafka/consumer.go:43-65 | every step of any process, but a late save or commit, keeps the storer's invariant |
| Delivery.SingleStep | hw12_13_14_15_16_calendar/internal/storage/sql/storage.go:126-135 | with one scheduler and no late message or mark, or with none, every step keeps marked rows equal to their last message and listed rows unmarked |
| Operation.Operate | hw12_13_14_15_16_calendar/internal/scheduler/scheduler.go:171-189 | any sequence of cycles and storer lives, with API calls and the other process's steps anywhere and any calls failing: each shift does its work between two states of one run of the delivery protocol and succeeds if none of its calls fails; the saved rows stay those of the committed messages and marked rows what their last message says, so a caught-up storer holds the current content of every marked row |
| Operation.DeliverDue | hw12_13_14_15_16_calendar/internal/storer/storer.go:81-104 | a cycle and a storer life whose calls do not fail mark every due event that no API call writes meanwhile, and bring its id, title, start and user into the notifications table |
| SchedulerCycle.Scheduler.RunOnce | hw12_13_14_15_16_calendar/internal/scheduler/scheduler.go:122-169 | terminates whatever interleaves; succeeds if and only if no call fails, the context is not cancelled, the database is connected and neither the time nor the cutoff is the zero time, so no row can block a cycle; but for the ids API calls write meanwhile it sends exactly the due events, each once and in (start, id) order, or an initial stretch of them when it fails, leaves the table of an undisturbed cycle on success, with no row older than the cutoff, and otherwise removes only rows older than the cutoff and marks only due ones; a row still due was written by such a call after the cycle last looked at it; every execution is a run of the delivery protocol |
| SchedulerCycle.Scheduler.PublishDue | hw12_13_14_15_16_calendar/internal/scheduler/scheduler.go:141-168 | the loop: its measure, due rows plus twice the turns to come, falls every round; it succeeds exactly without fault or cancellation, and but for ids written meanwhile sends and marks exactly the due events |
| SchedulerCycle.Scheduler.Round | hw12_13_14_15_16_calendar/internal/scheduler/scheduler.go:146-167 | one listed batch continues the due events where the last one ended, but for ids written meanwhile, and either ends the cycle with no other row due, or lowers the measure; it succeeds exactly without fault |
| SchedulerCycle.Scheduler.ListBatch | hw12_13_14_15_16_calendar/internal/scheduler/scheduler.go:146-152 | lists the first due rows of the table as it is then, exactly without fault; before, only rows of API calls change |
| SchedulerCycle.Scheduler.ListNext | hw12_13_14_15_16_calendar/internal/scheduler/scheduler.go:146-152 | the listed batch continues, but for ids written meanwhile, what was sent so far; an empty one means that no other row is due |
| SchedulerCycle.Scheduler.WorkOff | hw12_13_14_15_16_calendar/internal/scheduler/scheduler.go:153-167 | a batch is the last one only if it was short and unstale, and then no due row is left but those that calls wrote late |
| SchedulerCycle.Scheduler.PublishBatch | hw12_13_14_15_16_calendar/internal/scheduler/scheduler.go:154-163 | sends and marks the batch in order, but for ids written meanwhile, or an initial stretch when it fails; a short one leaves no due row but those written late; it succeeds exactly without fault, because listed rows are valid |
| SchedulerCycle.Scheduler.PublishAll | hw12_13_14_15_16_calendar/internal/scheduler/scheduler.go:154-163 | the loop over a batch: after j events exactly those are sent, and marked but for ids written meanwhile; every due row stays accounted for; it succeeds exactly without fault |
| SchedulerCycle.Scheduler.PublishNext | hw12_13_14_15_16_calendar/internal/scheduler/scheduler.go:155-163 | one event of the batch: it is sent and marked unless its id was written, the rest stays fresh, the stale flag records a row that changed, and a valid event is published exactly without fault |
| SchedulerCycle.Scheduler.Publish | hw12_13_14_15_16_calendar/internal/scheduler/scheduler.go:196-231 | succeeds exactly for a valid event without fault; appends nothing but its notification, changes no row but its own and those API calls write, and marks it exactly if it still was the snapshot |
| SchedulerCycle.Scheduler.Send | hw12_13_14_15_16_calendar/internal/scheduler/scheduler.go:201-221 | an acknowledged send appended the notification of the event, any other that one or nothing |
| SchedulerCycle.Scheduler.Mark | hw12_13_14_15_16_calendar/internal/scheduler/scheduler.go:223-229 | a mark changes no row but its own and those API calls write meanwhile, and lowers the measure when the event was due |
| SchedulerCycle.Scheduler.Clean | hw12_13_14_15_16_calendar/internal/scheduler/scheduler.go:132-139 | succeeds exactly without fault on a connected database and a non-zero cutoff, and then, but for ids written meanwhile, removed exactly the rows before the cutoff |
| SchedulerCycle.Scheduler.Interleave | hw12_13_14_15_16_calendar/internal/storage/sql/storage.go:83-186 | any number of interleaved turns, API calls and storer steps, in order and failing or not: the rows that change are those the calls among them write, and each turn lowers the measure |
| Agendas.NextBatch | hw12_13_14_15_16_calendar/internal/storage/sql/scheduler.go:30-39 | after some events were sent and marked the due query lists, but for ids others write, exactly the next stretch of the agenda |
| Agendas.AllSent | hw12_13_14_15_16_calendar/internal/scheduler/scheduler.go:150-152 | when no row is due any more but those others wrote, all of the agenda was sent but for their ids |
| Agendas.CycleServes | hw12_13_14_15_16_calendar/internal/scheduler/scheduler.go:154-163 | a successful cycle marks each due row that nobody else writes, and appends its message and no other about it |
| Agendas.CycleDone | hw12_13_14_15_16_calendar/internal/scheduler/scheduler.go:136-168 | sending the agenda but for ids others write leaves, but for those, the rows of an undisturbed cycle |
| Agendas.CycleSpares | hw12_13_14_15_16_calendar/internal/scheduler/scheduler.go:136-168 | however far a cycle came, a row nobody else writes stays, goes because it is older than the cutoff, or is marked because it was due |
| Agendas.AgendaKept | hw12_13_14_15_16_calendar/internal/storage/sql/scheduler.go:102-117 | cleanup leaves the agenda as it was, but for ids others write |
| Agendas.CleanupSparesDue | hw12_13_14_15_16_calendar/internal/storage/sql/scheduler.go:102-117 | cleanup removes no event that is due |
| Agendas.MarkOutcome | hw12_13_14_15_16_calendar/internal/storage/sql/scheduler.go:69-98 | but for ids others write, a mark after they wrote does what it does without them, or nothing when it is lost |
| Agendas.AdvancedJoin | hw12_13_14_15_16_calendar/internal/scheduler/scheduler.go:154-163 | work on two batches, one after the other, is work on both together |
| StorerProcess.Storer.Consume | hw12_13_14_15_16_calendar/internal/kafka/consumer.go:38-66 | one life of the consumer, ending anywhere, keeps the saved rows equal to a replay up to the committed offset or one more; it handles and commits all its messages if and only if no call fails, the topic comes to hold them and the database is connected or none of them is readable; every execution is a run of the delivery protocol |
| StorerProcess.Storer.ConsumeNext | hw12_13_14_15_16_calendar/internal/kafka/consumer.go:43-65 | one message is committed exactly when its fetch, its save and its commit succeed; otherwise at most that message is saved beyond the offset |
| StorerProcess.Storer.FetchNext | hw12_13_14_15_16_calendar/internal/kafka/consumer.go:44-50 | a fetch succeeds exactly without fault when the topic holds the message at the committed offset |
| StorerProcess.Storer.HandleNext | hw12_13_14_15_16_calendar/internal/kafka/consumer.go:52-57 | a handled message leaves the replay up to and including it |
| StorerProcess.Storer.CommitNext | hw12_13_14_15_16_calendar/internal/kafka/consumer.go:59-64 | an acknowledged commit moves the offset past the handled message; after a lost one the saved rows are those up to the offset or one message more |
| Deployment.Backend.Handle | hw12_13_14_15_16_calendar/internal/storer/storer.go:89-104 | an unreadable payload is skipped as handled; a readable one is handled only if saved; a step of the protocol |
| Deployment.Backend.Commit | hw12_13_14_15_16_calendar/internal/kafka/consumer.go:59-64 | the offset after the message, unless lost before it took effect; a step of the protocol |
| Deployment.Backend.Send | hw12_13_14_15_16_calendar/internal/scheduler/scheduler.go:201-221 | an invalid notification is not sent; an acknowledged one is in the log, a failed one may be; a step of the protocol |
| Deployment.Backend.Mark | hw12_13_14_15_16_calendar/internal/scheduler/scheduler.go:223-230 | the conditional mark of the event at hand, which leaves the batch; a step of the protocol |
| Deployment.Backend.Query | hw12_13_14_15_16_calendar/internal/scheduler/scheduler.go:146-152 | the batch the query lists, or none and the cycle ends; a step of the protocol |
| Deployment.Backend.Cleanup | hw12_13_14_15_16_calendar/internal/storage/sql/scheduler.go:102-117 | the rows from the cutoff on, and the cycle goes on or ends; a step of the protocol |
| Deployment.Backend.EndBatch | hw12_13_14_15_16_calendar/internal/scheduler/scheduler.go:165-167 | the cycle ends after a short unstale batch, and otherwise queries again; a step of the protocol |
| Deployment.Backend.CallApi | hw12_13_14_15_16_calendar/internal/storage/sql/storage.go:83-186 | an API call changes only its own row; a step of the protocol or none |
| Deployment.Backend.StaysSound | hw12_13_14_15_16_calendar/internal/scheduler/scheduler.go:171-189 | processes started on sound tables keep them sound, whatever ran and failed since |
| Deployment.SoundDelivers | hw12_13_14_15_16_calendar/internal/storage/sql/notification.go:21-27 | on sound tables a caught-up storer holds the current content of every marked row |
| SqlStorage.Storage.CreateEvent | hw12_13_14_15_16_calendar/internal/storage/sql/storage.go:83-113 | without a fault it stores the event, unmarked, exactly if it is valid, its id is new and no other event of the user shares an instant with it, and otherwise changes nothing; outcome and table with faults |
| SqlStorage.Storage.UpdateEvent | hw12_13_14_15_16_calendar/internal/storage/sql/storage.go:116-160 | the same for an update of a present row, which resets the mark |
| SqlStorage.Storage.DeleteEvent | hw12_13_14_15_16_calendar/internal/storage/sql/storage.go:163-186 | without a fault it removes that row and no other, exactly if the id is not blank and present; outcome and table with faults |
| SqlStorage.Storage.ListEvents | hw12_13_14_15_16_calendar/internal/storage/sql/storage.go:189-220 | exactly the user's events that cover an instant of the window, ordered, each once, or the error |
| SqlStorage.Storage.ListEventsForNotification | hw12_13_14_15_16_calendar/internal/storage/sql/scheduler.go:13-48 | in the order of start and id, and up to the limit, exactly the unmarked rows with a notice that has begun and a start still to come |
| SqlStorage.Storage.MarkNotificationSent | hw12_13_14_15_16_calendar/internal/storage/sql/scheduler.go:52-99 | marks the row with the given time, and says so, exactly when it still is the published snapshot; changes no other |
| SqlStorage.Storage.DeleteEventsBefore | hw12_13_14_15_16_calendar/internal/storage/sql/scheduler.go:102-117 | removes exactly the events that started before the cutoff, and leaves the others as they were |
| SqlStorage.Storage.SaveNotification | hw12_13_14_15_16_calendar/internal/storage/sql/notification.go:11-41 | puts the notification under its event id, as replaying the message does |
| Domain.NotificationOf | hw12_13_14_15_16_calendar/internal/scheduler/scheduler.go:201-206 | the message carries the event's id, title, start and user, each in its place, and a valid event gives a valid message |
| Domain.ValidNotificationIff | hw12_13_14_15_16_calendar/internal/notification/notification.go:22-36 | the notifications accepted are exactly those that describe an event that is accepted |
| Domain.SpaceCodes | hw12_13_14_15_16_calendar/internal/storage/event.go:34-36 | white space is exactly the Unicode code points with that property |
| Domain.BlankIsTrimmed | hw12_13_14_15_16_calendar/internal/storage/event.go:34-36 | trimming white space from both ends leaves nothing exactly of strings that are all white space |
| EventTable.StatementsKeepWellFormed | hw12_13_14_15_16_calendar/migrations/00001_create_events.up.sql:3-16 | every statement keeps ids, valid events and per-user exclusion, whatever its argument |
| EventTable.ClashIsExclusion | hw12_13_14_15_16_calendar/migrations/00001_create_events.up.sql:12-15 | comparing a candidate with each row decides the exclusion constraint of the whole new table |
| EventTable.OverlapIsShareInstant | hw12_13_14_15_16_calendar/internal/storage/memory/storage.go:157-159 | the two comparisons hold exactly when the half-open intervals share an instant |
| EventTable.ValidPassesChecks | hw12_13_14_15_16_calendar/internal/storage/event.go:33-45 | an event accepted by validation violates no CHECK constraint |
| EventTable.ValidIffChecks | hw12_13_14_15_16_calendar/internal/storage/event.go:33-45 | validation accepts exactly the events that pass the CHECK constraints and have text in id, title and user and no zero time, with or without a notice |
| EventTable.ListDueAnswers | hw12_13_14_15_16_calendar/internal/storage/sql/scheduler.go:30-39 | the due query answers, in order and up to the limit, exactly the unmarked rows whose start less the notice has passed and whose start has not |
| EventTable.MeetsIff | hw12_13_14_15_16_calendar/internal/storage/memory/storage.go:157-159 | an event overlaps a window exactly when it covers one of its instants |
| EventTable.ListDueFacts | hw12_13_14_15_16_calendar/internal/storage/sql/scheduler.go:30-39 | a listed event is a due row of the table and no id is listed twice |
| EventTable.MarkIffDescribed | hw12_13_14_15_16_calendar/internal/storage/sql/scheduler.go:69-98 | a mark succeeds, and changes the table, exactly while the published notification and the notice are still the row's and it carries no mark |
| EventTable.ChangedYetMarked | hw12_13_14_15_16_calendar/internal/storage/sql/scheduler.go:50-77 | an event whose description changed since it was listed is still marked |
| Listings.ListingUnique | hw12_13_14_15_16_calendar/internal/storage/memory/storage.go:130-135 | a set of events has only one ordered listing, whatever order it was collected in |
| Listings.ListingExists | hw12_13_14_15_16_calendar/internal/storage/memory/storage.go:130-135 | events with distinct ids have an ordered listing |
| EventSort.SortEvents | hw12_13_14_15_16_calendar/internal/storage/memory/storage.go:130-135 | sorting gives the listing of exactly the events given |
| MemoryStorage.Storage.CreateEvent | hw12_13_14_15_16_calendar/internal/storage/memory/storage.go:26-52 | stores the event exactly if the context lasts, it is valid, its id is new and no other event of the user shares an instant with it; otherwise changes nothing and gives the error; the store stays consistent |
| MemoryStorage.Storage.UpdateEvent | hw12_13_14_15_16_calendar/internal/storage/memory/storage.go:55-78 | the same for a replacement of a present event, also when it changes the owner |
| MemoryStorage.Storage.DeleteEvent | hw12_13_14_15_16_calendar/internal/storage/memory/storage.go:81-101 | removes that event and no other, exactly if the context lasts, the id is not blank and it is present |
| MemoryStorage.Storage.IsDateBusy | hw12_13_14_15_16_calendar/internal/storage/memory/storage.go:144-155 | whatever order the map is walked in, true exactly when another event of the user overlaps |
| MemoryStorage.Storage.Collect | hw12_13_14_15_16_calendar/internal/storage/memory/storage.go:120-128 | collects exactly the overlapping events, or notices exactly a cancelled context |
| MemoryStorage.Storage.ListEvents | hw12_13_14_15_16_calendar/internal/storage/memory/storage.go:104-141 | the ordered listing of exactly the user's events that cover an instant of the window; when it fails, and how, is stated both ways |
| MemoryStorage.OperationsKeepConsistent | hw12_13_14_15_16_calendar/internal/storage/memory/storage.go:40-50 | every operation keeps ids, validity and per-user interval exclusion; a refused one changes nothing |
| MemoryStorage.ListingIsChain | hw12_13_14_15_16_calendar/internal/storage/memory/storage.go:103-141 | in a listing each event ends no later than every later one starts |
| MemoryStorage.FreeIff | hw12_13_14_15_16_calendar/internal/storage/memory/storage.go:144-155 | the busy check fails exactly when no other event of the user shares an instant with the candidate |
| MemoryStorage.StringLessIff | hw12_13_14_15_16_calendar/internal/storage/memory/storage.go:131-133 | Go's comparison of ids is lexicographic: a proper prefix, or a smaller rune at the first difference |
| MemoryStorage.StringLessIsOrder | hw12_13_14_15_16_calendar/internal/storage/memory/storage.go:131-133 | Go's comparison of ids is a strict total order |
| StoreAgreement.StoresAgree | hw12_13_14_15_16_calendar/internal/storage/sql/storage.go:83-220 | any sequence of calls gets the same replies from memory and SQL, leaves the same events, and the memory store stays consistent, whatever the collation |
| StoreAgreement.CollationIrrelevant | hw12_13_14_15_16_calendar/internal/storage/sql/storage.go:207-211 | two collations give the same listing of one user's events |
| StoreAgreement.BusyIsExclusion | hw12_13_14_15_16_calendar/migrations/00001_create_events.up.sql:12-15 | the memory store finds a date busy exactly when the table's exclusion constraint would fail |
| Windows.WeekIsSevenDays | hw12_13_14_15_16_calendar/internal/app/app.go:89-92 | away from the zero time the week listing holds exactly the events ListEventsForDay answers for its seven days |
| Windows.MonthIsItsDays | hw12_13_14_15_16_calendar/internal/app/app.go:95-98 | away from the zero time the month listing holds exactly the events ListEventsForDay answers for all its days |
| Windows.WindowIsItsDays | hw12_13_14_15_16_calendar/internal/app/app.go:68-80 | a window of n days from a midnight lists exactly the events of its day windows |
| Windows.DaysSucceedIff | hw12_13_14_15_16_calendar/internal/storage/memory/storage.go:113-115 | the day queries all succeed if and only if no midnight of the window is the zero time |
| Windows.ListDayIff | hw12_13_14_15_16_calendar/internal/app/app.go:83-86 | the day listing is answered if and only if the user is named and the day is neither 0001-01-01 nor the day before; otherwise it is refused as invalid |
| Windows.ListWeekIff | hw12_13_14_15_16_calendar/internal/app/app.go:89-92 | the week listing is answered if and only if the user is named and the week neither starts nor ends at the zero time |
| Windows.ListMonthIff | hw12_13_14_15_16_calendar/internal/app/app.go:95-98 | the month listing is answered if and only if the user is named and the month is neither January of year 1 nor December of year 0 |
| Windows.WeekWithoutItsDay | hw12_13_14_15_16_calendar/internal/storage/memory/storage.go:113-115 | the week from 0000-12-29 is answered, its day 0001-01-01 is refused |
| Windows.ListDayIsDay | hw12_13_14_15_16_calendar/internal/app/app.go:83-86 | asked for any instant of a day, the day listing lists that day |
| Windows.MonthsTile | hw12_13_14_15_16_calendar/internal/app/app.go:95-98 | a month's window contains the date asked for and ends where the next month's begins |
| Windows.MonthWindowIff | hw12_13_14_15_16_calendar/internal/app/app.go:95-98 | the window of a month holds exactly the instants of the same year and month |
| Windows.MonthWindowUnique | hw12_13_14_15_16_calendar/internal/app/app.go:95-98 | every instant of a month's window has that same window |
| Civil.DateOfDayNumber | hw12_13_14_15_16_calendar/internal/app/app.go:100-102 | dates and day numbers are inverse, so a midnight is rebuilt from its date |
| Civil.ComputeDate | hw12_13_14_15_16_calendar/internal/app/app.go:100-102 | stepping through years and months finds the one date of a day |
| Civil.YearStartClosed | hw12_13_14_15_16_calendar/internal/app/app.go:100-102 | years start where 365 days a year, a leap day every fourth, not every hundredth, yet every four hundredth put them, before and after year 1 |
| Civil.MonthStartClosed | hw12_13_14_15_16_calendar/internal/app/app.go:95-98 | months start where the rule of 153 days for five months from March on puts them, and February 31 days after January |
| Civil.DayNumberClosed | hw12_13_14_15_16_calendar/internal/app/app.go:100-102 | the day number of a date in closed form; January 1 of 1970 is day 719162 |
| Civil.AddYears | hw12_13_14_15_16_calendar/internal/scheduler/scheduler.go:136 | adding years keeps month, day and time of day, but for February 29 in a year without one, which becomes March 1 |
| Civil.AddMonths | hw12_13_14_15_16_calendar/internal/app/app.go:97 | adding months, forward or back, carries into the year and keeps a day that every month has, and the time of day |
| Civil.CutoffBeforeNow | hw12_13_14_15_16_calendar/internal/scheduler/scheduler.go:136-139 | the retention cutoff lies before the time of the cycle |
| LruCache.Cache.Set | hw04_lru_cache/cache.go:37-56 | keeps list, map and bound consistent; answers whether an entry had the key; puts the new entry in front of the others, in their order, without the old entry of the key or, on overflow, the oldest, for every capacity |
| LruCache.Cache.Get | hw04_lru_cache/cache.go:58-69 | gives the value of the key's entry and moves it to the front, the others keeping their order; a miss, exactly when no entry has the key, changes nothing |
| LruCache.Cache.Clear | hw04_lru_cache/cache.go:71-77 | leaves no entry |
| LruCache.Cache.SetPresent | hw04_lru_cache/cache.go:41-45 | a present key is overwritten and moved to the front, the others keep their order |
| LruCache.Cache.SetAbsent | hw04_lru_cache/cache.go:47-55 | an absent key is put in front and the oldest entry evicted if there are too many |
| LruCache.Replay | hw04_lru_cache/cache.go:25-77 | any history of calls on the heap cache, of any capacity, leaves the entries and gets the answers of the specification |
| LinkedList.List.PushFront | hw04_lru_cache/list.go:41-52 | the pointers form the list with the new node in front |
| LinkedList.List.PushBack | hw04_lru_cache/list.go:54-65 | the pointers form the list with the new node at the back |
| LinkedList.List.Remove | hw04_lru_cache/list.go:67-83 | the pointers form the list without that node, which is detached |
| LinkedList.List.MoveToFront | hw04_lru_cache/list.go:85-101 | the pointers form the list with that node moved to the front |
| LruSpec.RunKeeps | hw04_lru_cache/cache.go:49-53 | over every run keys are distinct and the capacity is respected |
| LruTheorems.LargerCacheNeverWorse | hw04_lru_cache/cache.go:37-77 | for one history the entries of a smaller cache are a subsequence of a larger one's, which hits wherever the smaller one does, with the same value |
| LruTheorems.RunsIncluded | hw04_lru_cache/cache.go:37-77 | the inclusion, with the sizes it needs, is kept by every operation |
| LruTheorems.HoldsMostRecent | hw04_lru_cache/cache.go:37-77 | after any run the keys held are the capacity most recently touched since the last Clear, in that order |
| LruTheorems.HoldsLastSet | hw04_lru_cache/cache.go:41-44 | every value held is the one last set under its key |
| LruTheorems.GetAnswers | hw04_lru_cache/cache.go:58-69 | a Get hits exactly when its key is among the most recently touched, and returns the last value set |
| LruTheorems.SetAnswers | hw04_lru_cache/cache.go:41-55 | after any history a Set answers that its key was present exactly when it is among the most recently touched |
| LruTheorems.RecentIsByLastTouch | hw04_lru_cache/cache.go:37-69 | the recency order is the order of last touch |
| LruTheorems.ByLastTouchUnique | hw04_lru_cache/cache.go:37-69 | there is only one such order |
| WorkerPoolTheorems.Run | hw05_parallel_execution/run.go:14-68 | terminates under every schedule; reports the limit error exactly when m > 0 and the number of failing tasks is at least m, otherwise starts all tasks; starts a prefix of the list, at most n+m-1 when all fail |
| WorkerPoolTheorems.ResultIsScheduleFree | hw05_parallel_execution/run.go:35-67 | the result depends on the tasks alone, a nil result means every task ran, and all workers have exited |
| WorkerPoolTheorems.DispatchBound | hw05_parallel_execution/run.go:40-57 | once m of the first j results were failures, at most j+n-1 tasks ever start |
| WorkerPoolTheorems.DispatchBoundAllFail | hw05_parallel_execution/run.go:40-57 | when every task fails at most n+m-1 start |
| WorkerPoolTheorems.DispatchBoundIsSharp | hw05_parallel_execution/run.go:40-57 | some schedule starts that many, for every n and m |
| WorkerPoolTheorems.StartedIsPrefix | hw05_parallel_execution/run.go:42-50 | started tasks are a prefix of the list, each once, and at most n run at a time |
| WorkerPoolTheorems.AlwaysTerminates | hw05_parallel_execution/run.go:35-61 | no schedule exceeds 3 steps per task plus n+2, and one that has not returned can go on |
| WorkerPoolTheorems.NoDeadlock | hw05_parallel_execution/run.go:70-76 | unless Run has returned some step is possible |
| WorkerPoolTheorems.MeasureFalls | hw05_parallel_execution/run.go:47-57 | every step lowers the measure by one |
| WorkerPool.StepKeepsInv | hw05_parallel_execution/run.go:30-58 | every step keeps each started task with one worker or collected once, the counters exact and the bound |
| Pipeline.ExecutePipeline | hw06_pipeline_execution/pipeline.go:11-20 | builds a forwarder for the input and a stage and a forwarder per stage |
| Pipeline.StepKeepsInv | hw06_pipeline_execution/pipeline.go:25-60 | every step keeps what each goroutine received and passed on in relation, and closed what has ended |
| PipelineTheorems.EmitsPrefix | hw06_pipeline_execution/pipeline.go:11-63 | at every moment of every run the emitted values are the composed stages over a prefix of the input, in order |
| PipelineTheorems.ComposedInOrder | hw06_pipeline_execution/pipeline.go:14-17 | the stages apply in the order given, the first to the input and the last last |
| PipelineTheorems.EmitsAll | hw06_pipeline_execution/pipeline.go:46-50 | without cancellation an output read to its end is the composed stages over the whole input |
| PipelineTheorems.Shutdown | hw06_pipeline_execution/pipeline.go:26-41 | after done at most 5 steps per goroutine follow, and until all have ended one is possible that needs neither caller nor consumer |
| PipelineTheorems.AtMostOneMore | hw06_pipeline_execution/pipeline.go:34-58 | after done each forwarder sends at most one value more and the first takes at most one more input |
| PipelineTheorems.AlwaysTerminates | hw06_pipeline_execution/pipeline.go:34-59 | every schedule is finite; one that cannot go on has ended every goroutine, if the input will be closed and the output is read, or done is closed |
| PipelineTheorems.ShutdownProgress | hw06_pipeline_execution/pipeline.go:26-33 | after done whoever has not ended can go on by itself |
| PipelineTheorems.Execute | hw06_pipeline_execution/pipeline.go:11-63 | one execution under any schedule ends, emitting a prefix, and all of it unless cancelled |
| Unpack.Unpack | hw02_unpack_string/unpack.go:12-44 | succeeds exactly on the strings of the grammar, gives the expansion of the derivation, and twice its length is at most nine times the input's |
| Unpack.DerivationUnique | hw02_unpack_string/unpack.go:16-41 | a string has at most one derivation |
| Unpack.ParseComplete | hw02_unpack_string/unpack.go:16-41 | reading a rendered derivation gives it back |
| Unpack.ParseSound | hw02_unpack_string/unpack.go:16-41 | what is read is a derivation of the string |
| Unpack.ExpansionBound | hw02_unpack_string/unpack.go:30-40 | twice the output length is at most nine times the input length |
| Unpack.UnpackConcat | hw02_unpack_string/unpack.go:12-44 | valid strings unpack piece by piece |
| Unpack.UnpackRune | hw02_unpack_string/unpack.go:22-40 | after a valid string a rune written without a count, plainly or escaped, adds itself |
| Unpack.UnpackCount | hw02_unpack_string/unpack.go:30-40 | the count 0 takes the rune away, and a count one higher writes it once more |
| Unpack.UnpackRefuses | hw02_unpack_string/unpack.go:18-36 | refused are a digit in front, a dangling escape, an escaped letter, two digits in a row and a digit that is no count, whatever follows |
| Unpack.RoundTrip | hw02_unpack_string/unpack.go:12-44 | every string has a packed form, and unpacking it gives the string |
| Unpack.PackUnpacks | hw02_unpack_string/unpack.go:30-40 | run-length tokens of a string are well formed and expand to it |
| Backoff.RetryWithBackoff | hw12_13_14_15_16_calendar/internal/kafka/retry.go:41-67 | stops at the first turn that does not continue; each verdict is given exactly when that turn met it: success, cancellation before or after the attempt, a permanent error, a failed wait; the k-th wait is exactly min(initial * 2^k, maximum), without overflow |
| Backoff.NextBackoff | hw12_13_14_15_16_calendar/internal/kafka/retry.go:113-119 | for every positive wait, the next one is the smaller of twice it and the maximum, without overflow |
| Backoff.WaitsGrow | hw12_13_14_15_16_calendar/internal/kafka/retry.go:113-119 | waits never shrink |
| Backoff.WaitsReachMaximum | hw12_13_14_15_16_calendar/internal/kafka/retry.go:113-119 | from some attempt on every wait is the maximum |
| Backoff.ValidateRetryConfig | hw12_13_14_15_16_calendar/internal/kafka/retry.go:70-95 | accepts exactly non-empty, non-blank brokers, a positive timeout and 0 < initial <= maximum |

## Left out

- A cleanup or an API write that takes effect after it was given up: to the other processes it is a later write.
- Two storers of one consumer group at a time, and rebalancing between them.
- The JSON text of a notification, its encoding errors for years beyond 9999 and strings that are not valid UTF-8.
- The floating-point interval of the due query and rounding to microseconds: times are exact integers.
- Deployment.Backend.Send: leaves at most one copy, and no call of the objects takes effect after it ended; several copies from the producer's own retries and late effects are in the delivery protocol only.
- SchedulerCycle.Scheduler.Interleave: foreign bytes reach the topic between cycles, not within one; the scheduler never reads the topic.
- StorerProcess.Storer.Consume: the loop is unbounded in the source; the model follows it for any number of messages of one life of the process.
- Backoff.RetryWithBackoff: the loop is unbounded in the source; the model follows it for any finite course of attempts.
- Connecting to and closing the database and the broker, metrics, logging, HTTP handlers, configuration and the `main` packages: they pass values on and hold no state to reason about.
- Stages that do not map values one to one, tasks and stages that panic or never return, and a done channel signalled by sending values instead of closing it.
- Time zones with daylight saving: windows are for UTC.
- The order of the elements inside a Go map and the algorithm behind `sort.Slice`: the model takes any order and an insertion sort, and the result is proved not to depend on either.
- The exercises hw01, hw03, hw07, hw08, hw09, hw10 and hw11: string reversal, word counting, file copying, environment files, validation tags, statistics and a telnet client, mostly input and output around short functions.
