/**
 Notification delivery: API writers, schedulers, the broker log and the storer, as one
 transition system. Every remote call may take effect and still report an error, or long after
 it reported one; either process may stop between any two calls, and API writes interleave
 everywhere.
 */
module Delivery {
  import opened Domain
  import opened Listings
  import opened EventTable

  // ----- state

  /** Where a scheduler is in RunOnce; batch[0] is the event at hand. */
  datatype Scheduler =
    | Idle
    | Cleaning(now: Time)
    | Querying(now: Time)
    | Sending(now: Time, batch: seq<Event>, short: bool, stale: bool)
    | Marking(now: Time, batch: seq<Event>, short: bool, stale: bool)

  /** Where the storer is in Consume; pos is the offset it is working on. */
  datatype Storer = Stopped | Ready(pos: nat) | Fetched(pos: nat) | Handled(pos: nat)

  type Notes = map<string, Notification>

  /** What a call that was given up may still do. */
  datatype Effect =
    | Message(payload: Payload)
    | MarkOf(event: Event, sentAt: Time)
    | SaveOf(payload: Payload)
    | CommitOf(offset: nat)

  /** inFlight holds the effects still to come of calls that have already ended. */
  datatype System = System(
    table: Table, log: seq<Payload>, committed: nat, notes: Notes,
    schedulers: seq<Scheduler>, storer: Storer, inFlight: seq<Effect>)

  datatype Kind = Sends | Marks | Saves | Commits

  /** late: the kinds of calls that may take effect after they ended. */
  datatype Config = Config(batchSize: int, less: (string, string) -> bool, late: set<Kind>)

  ghost function Initial(n: nat): System {
    System(map[], [], 0, map[], seq(n, _ => Idle), Stopped, [])
  }

  // ----- the broker log and the notifications table

  /** SaveNotification: insert, or replace the row of the same event. */
  function Upsert(notes: Notes, p: Payload): Notes {
    match Decode(p)
    case Some(n) => notes[n.eventId := n]
    case None => notes
  }

  /** The table after the messages of the log were each saved exactly once, in order. */
  function Replay(log: seq<Payload>): Notes {
    if log == [] then map[] else Upsert(Replay(log[..|log| - 1]), log[|log| - 1])
  }

  /** The last readable message about an event. */
  function LastFor(log: seq<Payload>, id: string): Option<Notification> {
    if log == [] then None
    else
      var last := Decode(log[|log| - 1]);
      if last.Some? && last.value.eventId == id then last else LastFor(log[..|log| - 1], id)
  }

  function Copies<A>(x: A, k: nat): seq<A> {
    seq(k, _ => x)
  }

  // ----- steps

  /**
   effect: the call changed the remote state; ok: it reported success. A producer retries
   inside one Send, so a send leaves any number of copies, at least one when it succeeds,
   and any number still in flight. later: the effect of a call that reported an error is still to come.
   */
  datatype Action =
    | ApiCreate(event: Event)
    | ApiUpdate(event: Event)
    | ApiDelete(id: string)
    | AppendGarbage(payload: Payload)
    | Begin(i: nat, now: Time)
    | Cleanup(i: nat, cutoff: Time, effect: bool, ok: bool)
    | Query(i: nat, ok: bool)
    | Send(i: nat, copies: nat, delayed: nat, ok: bool)
    | Land(k: nat)
    | Mark(i: nat, effect: bool, later: bool, ok: bool)
    | EndBatch(i: nat)
    | StopScheduler(i: nat)
    | StartStorer
    | Fetch
    | Handle(effect: bool, later: bool, ok: bool)
    | Commit(effect: bool, later: bool, ok: bool)
    | StopStorer

  ghost predicate Enabled(c: Config, s: System, a: Action) {
    match a
    case ApiCreate(_) => true
    case ApiUpdate(_) => true
    case ApiDelete(_) => true
    case AppendGarbage(p) => Decode(p).None?
    case Begin(i, _) => i < |s.schedulers| && s.schedulers[i].Idle?
    case Cleanup(i, cutoff, effect, ok) =>
      i < |s.schedulers| && s.schedulers[i].Cleaning? && (ok ==> effect) && (effect ==> cutoff != ZERO_TIME)
    case Query(i, ok) =>
      && i < |s.schedulers| && s.schedulers[i].Querying?
      && (ok ==> s.schedulers[i].now != ZERO_TIME && c.batchSize > 0)
    case Send(i, copies, delayed, ok) =>
      && i < |s.schedulers| && s.schedulers[i].Sending? && s.schedulers[i].batch != []
      && (ok ==> copies >= 1) && (delayed >= 1 ==> Sends in c.late)
      && (copies + delayed >= 1 ==> ValidNotification(NotificationOf(s.schedulers[i].batch[0])))
    case Land(k) => k < |s.inFlight|
    case Mark(i, effect, later, ok) =>
      && i < |s.schedulers| && s.schedulers[i].Marking? && s.schedulers[i].batch != []
      && (ok ==> effect) && (later ==> !effect && Marks in c.late)
      && (effect || later ==> ValidEvent(s.schedulers[i].batch[0]) && s.schedulers[i].now != ZERO_TIME)
    case EndBatch(i) => i < |s.schedulers| && s.schedulers[i].Sending? && s.schedulers[i].batch == []
    case StopScheduler(i) => i < |s.schedulers|
    case StartStorer => s.storer.Stopped?
    case Fetch => s.storer.Ready? && s.storer.pos < |s.log|
    case Handle(effect, later, ok) =>
      && s.storer.Fetched? && s.storer.pos < |s.log|
      && (ok ==> effect) && (later ==> !effect && Saves in c.late)
    case Commit(effect, later, ok) =>
      s.storer.Handled? && (ok ==> effect) && (later ==> !effect && Commits in c.late)
    case StopStorer => true
  }

  function Landed(s: System, effect: Effect): System {
    match effect
    case Message(p) => s.(log := s.log + [p])
    case MarkOf(e, sentAt) => s.(table := MarkSent(s.table, e, sentAt).0)
    case SaveOf(p) => s.(notes := Upsert(s.notes, p))
    case CommitOf(offset) => s.(committed := offset)
  }

  ghost function Step(c: Config, s: System, a: Action): System
    requires Enabled(c, s, a)
  {
    match a
    case ApiCreate(e) => s.(table := EventTable.Create(s.table, e).0)
    case ApiUpdate(e) => s.(table := EventTable.Update(s.table, e).0)
    case ApiDelete(id) => s.(table := EventTable.Delete(s.table, id).0)
    case AppendGarbage(p) => s.(log := s.log + [p])
    case Begin(i, now) => s.(schedulers := s.schedulers[i := Cleaning(now)])
    case Cleanup(i, cutoff, effect, ok) =>
      s.(table := if effect then DeleteBefore(s.table, cutoff) else s.table,
         schedulers := s.schedulers[i := if ok then Querying(s.schedulers[i].now) else Idle])
    case Query(i, ok) =>
      var now := s.schedulers[i].now;
      var batch := ListDue(c.less, s.table, now, c.batchSize);
      s.(schedulers := s.schedulers[i :=
        if ok && batch != [] then Sending(now, batch, |batch| < c.batchSize, false) else Idle])
    case Send(i, copies, delayed, ok) =>
      var Sending(now, batch, short, stale) := s.schedulers[i];
      s.(log := s.log + Copies(Encoded(NotificationOf(batch[0])), copies),
         inFlight := s.inFlight + Copies(Message(Encoded(NotificationOf(batch[0]))), delayed),
         schedulers := s.schedulers[i := if ok then Marking(now, batch, short, stale) else Idle])
    case Land(k) => Landed(s.(inFlight := s.inFlight[..k] + s.inFlight[k + 1..]), s.inFlight[k])
    case Mark(i, effect, later, ok) =>
      var Marking(now, batch, short, stale) := s.schedulers[i];
      var (table', marked) := MarkSent(s.table, batch[0], now);
      s.(table := if effect then table' else s.table,
         inFlight := if later then s.inFlight + [MarkOf(batch[0], now)] else s.inFlight,
         schedulers := s.schedulers[i := if ok then Sending(now, batch[1..], short, stale || !marked) else Idle])
    case EndBatch(i) =>
      var Sending(now, batch, short, stale) := s.schedulers[i];
      s.(schedulers := s.schedulers[i := if short && !stale then Idle else Querying(now)])
    case StopScheduler(i) => s.(schedulers := s.schedulers[i := Idle])
    case StartStorer => s.(storer := Ready(s.committed))
    case Fetch => s.(storer := Fetched(s.storer.pos))
    case Handle(effect, later, ok) =>
      s.(notes := if effect then Upsert(s.notes, s.log[s.storer.pos]) else s.notes,
         inFlight := if later then s.inFlight + [SaveOf(s.log[s.storer.pos])] else s.inFlight,
         storer := if ok then Handled(s.storer.pos) else Stopped)
    case Commit(effect, later, ok) =>
      s.(committed := if effect then s.storer.pos + 1 else s.committed,
         inFlight := if later then s.inFlight + [CommitOf(s.storer.pos + 1)] else s.inFlight,
         storer := if ok then Ready(s.storer.pos + 1) else Stopped)
    case StopStorer => s.(storer := Stopped)
  }

  /** The actions form a run from s. */
  ghost predicate Runs(c: Config, s: System, run: seq<Action>)
    decreases |run|
  {
    run == [] || (Enabled(c, s, run[0]) && Runs(c, Step(c, s, run[0]), run[1..]))
  }

  ghost function Exec(c: Config, s: System, run: seq<Action>): System
    requires Runs(c, s, run)
    decreases |run|
  {
    if run == [] then s else Exec(c, Step(c, s, run[0]), run[1..])
  }

  // ----- replaying a log keeps the last message of each event

  lemma {:induction false} ReplayIsLast(log: seq<Payload>, id: string)
    ensures id in Replay(log) <==> LastFor(log, id).Some?
    ensures id in Replay(log) ==> Some(Replay(log)[id]) == LastFor(log, id)
  {
    if log != [] {
      ReplayIsLast(log[..|log| - 1], id);
    }
  }

  lemma ReplayNext(log: seq<Payload>, k: nat)
    requires k < |log|
    ensures Replay(log[..k + 1]) == Upsert(Replay(log[..k]), log[k])
  {
    assert log[..k + 1][..k] == log[..k];
  }

  /** Saving the message at hand again changes nothing: redelivery is harmless. */
  lemma SavingTwice(log: seq<Payload>, k: nat)
    requires k < |log|
    ensures Upsert(Replay(log[..k + 1]), log[k]) == Replay(log[..k + 1])
  {
    ReplayNext(log, k);
  }

  lemma LastForAppend(log: seq<Payload>, p: Payload, id: string)
    ensures LastFor(log + [p], id) ==
            if Decode(p).Some? && Decode(p).value.eventId == id then Decode(p) else LastFor(log, id)
  {
    assert (log + [p])[..|log|] == log;
  }

  lemma {:induction false} LastForCopies(log: seq<Payload>, p: Payload, k: nat, id: string)
    ensures LastFor(log + Copies(p, k), id) ==
            if k > 0 && Decode(p).Some? && Decode(p).value.eventId == id then Decode(p) else LastFor(log, id)
    decreases k
  {
    if k == 0 {
      assert log + Copies(p, k) == log;
    } else {
      LastForCopies(log, p, k - 1, id);
      assert log + Copies(p, k) == (log + Copies(p, k - 1)) + [p];
      LastForAppend(log + Copies(p, k - 1), p, id);
    }
  }

  // ----- the storer: at-least-once delivery, exactly-once effect

  ghost predicate StorerInv(s: System) {
    && s.committed <= |s.log|
    && (!s.storer.Stopped? ==> s.storer.pos == s.committed)
    && ((s.storer.Fetched? || s.storer.Handled?) ==> s.committed < |s.log|)
    && (s.storer.Handled? ==> s.notes == Replay(s.log[..s.committed + 1]))
    && Saved(s.notes, s.log, s.committed)
  }

  /** The saved rows are those of the committed messages, each saved once, or of one message more. */
  ghost predicate Saved(notes: Notes, log: seq<Payload>, committed: nat) {
    committed <= |log| &&
    (|| notes == Replay(log[..committed])
     || (committed < |log| && notes == Replay(log[..committed + 1])))
  }

  /** Saving the next message, which may be saved already, leaves the replay up to it. */
  lemma SavedNext(notes: Notes, log: seq<Payload>, committed: nat)
    requires Saved(notes, log, committed) && committed < |log|
    ensures Upsert(notes, log[committed]) == Replay(log[..committed + 1])
    ensures Saved(Upsert(notes, log[committed]), log, committed)
  {
    ReplayNext(log, committed);
    SavingTwice(log, committed);
  }

  lemma LogGrows(s: System, s': System, more: seq<Payload>)
    requires StorerInv(s)
    requires s'.log == s.log + more
    requires s'.committed == s.committed && s'.notes == s.notes && s'.storer == s.storer
    ensures StorerInv(s')
  {
    assert s'.log[..s.committed] == s.log[..s.committed];
    if s.committed < |s.log| {
      assert s'.log[..s.committed + 1] == s.log[..s.committed + 1];
    }
  }

  /** No save and no commit is still to come. */
  ghost predicate StoresPromptly(s: System) {
    forall k | 0 <= k < |s.inFlight| :: s.inFlight[k].Message? || s.inFlight[k].MarkOf?
  }

  /** Every step keeps the storer's invariant, but a save or a commit that lands late. */
  lemma StorerStep(c: Config, s: System, a: Action)
    requires StorerInv(s) && Enabled(c, s, a)
    requires a.Land? ==> s.inFlight[a.k].Message? || s.inFlight[a.k].MarkOf?
    ensures StorerInv(Step(c, s, a))
  {
    var s' := Step(c, s, a);
    match a
    case AppendGarbage(p) => LogGrows(s, s', [p]);
    case Land(k) => LogGrows(s, s', if s.inFlight[k].Message? then [s.inFlight[k].payload] else []);
    case Send(i, copies, _, _) =>
      LogGrows(s, s', Copies(Encoded(NotificationOf(s.schedulers[i].batch[0])), copies));
    case Handle(_, _, _) => SavedNext(s.notes, s.log, s.committed);
    case _ =>
  }

  // ----- one scheduler: the last message of a marked event is its current content

  /** Messages and marks take effect in the order they were made: one scheduler, and neither is late. */
  predicate PublishesInOrder(c: Config, n: nat) {
    n == 0 || (n == 1 && Sends !in c.late && Marks !in c.late)
  }

  /** No message and no mark is still to come. */
  ghost predicate PublishesPromptly(s: System) {
    forall k | 0 <= k < |s.inFlight| :: s.inFlight[k].SaveOf? || s.inFlight[k].CommitOf?
  }

  /** Every marked row is what the last message about it says. */
  ghost predicate MarkedIsLast(s: System) {
    forall id | id in s.table && s.table[id].sentAt.Some? ::
      LastFor(s.log, id) == Some(NotificationOf(s.table[id].event))
  }

  /** What holds between the queries, sends and marks of a single scheduler. */
  ghost predicate BatchInv(s: System, p: Scheduler) {
    (p.Sending? || p.Marking?) ==>
      && (forall j | 0 <= j < |p.batch| :: ValidEvent(p.batch[j]))
      && (forall j | 0 <= j < |p.batch| && p.batch[j].id in s.table :: s.table[p.batch[j].id].sentAt.None?)
      && (forall j, k | 0 <= j < k < |p.batch| :: p.batch[j].id != p.batch[k].id)
      && (p.Marking? && p.batch != [] ==> LastFor(s.log, p.batch[0].id) == Some(NotificationOf(p.batch[0])))
  }

  ghost predicate SingleInv(s: System) {
    && WellFormed(s.table) && PublishesPromptly(s)
    && MarkedIsLast(s)
    && (forall i | 0 <= i < |s.schedulers| :: BatchInv(s, s.schedulers[i]))
  }

  /** A change of the table that adds no mark. */
  lemma NoNewMark(s: System, s': System)
    requires SingleInv(s) && WellFormed(s'.table)
    requires s'.log == s.log && s'.inFlight == s.inFlight && s'.schedulers == s.schedulers
    requires NoMarkAdded(s.table, s'.table)
    ensures SingleInv(s')
  {
    forall i | 0 <= i < |s'.schedulers| ensures BatchInv(s', s'.schedulers[i]) {
      assert BatchInv(s, s.schedulers[i]);
    }
  }

  lemma SendStep(c: Config, s: System, a: Action)
    requires a.Send? && PublishesInOrder(c, |s.schedulers|) && SingleInv(s) && Enabled(c, s, a)
    ensures SingleInv(Step(c, s, a))
  {
    var s' := Step(c, s, a);
    var p := s.schedulers[a.i];
    var e := p.batch[0];
    assert BatchInv(s, p);
    var payload := Encoded(NotificationOf(e));
    forall id ensures LastFor(s'.log, id) ==
      if a.copies > 0 && id == e.id then Some(NotificationOf(e)) else LastFor(s.log, id)
    {
      LastForCopies(s.log, payload, a.copies, id);
    }
  }

  lemma MarkStep(c: Config, s: System, a: Action)
    requires a.Mark? && PublishesInOrder(c, |s.schedulers|) && SingleInv(s) && Enabled(c, s, a)
    ensures SingleInv(Step(c, s, a))
  {
    var s' := Step(c, s, a);
    var p := s.schedulers[a.i];
    assert BatchInv(s, p);
    StatementsKeepWellFormed(s.table, p.batch[0], "", p.now);
    assert |s'.schedulers| == 1 && a.i == 0;
    if a.ok { BatchRest(s, s', p, s'.schedulers[0]); }
  }

  /** Once the event at hand is marked, the rest of the batch is as it was. */
  lemma BatchRest(s: System, s': System, p: Scheduler, q: Scheduler)
    requires p.Marking? && p.batch != [] && BatchInv(s, p) && q.Sending? && q.batch == p.batch[1..]
    requires SameRows(s.table, s'.table, {p.batch[0].id})
    ensures BatchInv(s', q)
  {
    assert forall j | 0 <= j < |q.batch| :: q.batch[j] == p.batch[j + 1] && q.batch[j].id != p.batch[0].id;
  }

  lemma QueryStep(c: Config, s: System, a: Action)
    requires StrictTotalOrder(c.less)
    requires a.Query? && |s.schedulers| <= 1 && SingleInv(s) && Enabled(c, s, a)
    ensures SingleInv(Step(c, s, a))
  {
    ListDueFacts(c.less, s.table, s.schedulers[a.i].now, c.batchSize);
  }

  lemma ApiStep(c: Config, s: System, a: Action)
    requires a.ApiCreate? || a.ApiUpdate? || a.ApiDelete?
    requires SingleInv(s) && Enabled(c, s, a)
    ensures SingleInv(Step(c, s, a))
  {
    var s' := Step(c, s, a);
    var e := if a.ApiDelete? then Event("", "", 0, 0, "", "", 0) else a.event;
    var id := if a.ApiDelete? then a.id else "";
    StatementsKeepWellFormed(s.table, e, id, 0);
    ApiAddsNoMark(s.table, e, id);
    NoNewMark(s, s');
  }

  /** A step of a process that touches neither the events table nor the log. */
  lemma ControlStep(s: System, s': System)
    requires SingleInv(s)
    requires s'.table == s.table && s'.log == s.log && PublishesPromptly(s') && |s'.schedulers| == |s.schedulers|
    requires forall i | 0 <= i < |s.schedulers| ::
      || s'.schedulers[i] == s.schedulers[i]
      || s'.schedulers[i].Idle? || s'.schedulers[i].Cleaning? || s'.schedulers[i].Querying?
    ensures SingleInv(s')
  {
    forall i | 0 <= i < |s.schedulers| ensures BatchInv(s', s'.schedulers[i]) {
      assert BatchInv(s, s.schedulers[i]);
    }
  }

  lemma GarbageStep(c: Config, s: System, a: Action)
    requires a.AppendGarbage? && SingleInv(s) && Enabled(c, s, a)
    ensures SingleInv(Step(c, s, a))
  {
    var s' := Step(c, s, a);
    forall id ensures LastFor(s'.log, id) == LastFor(s.log, id) { LastForAppend(s.log, a.payload, id); }
    forall i | 0 <= i < |s.schedulers| ensures BatchInv(s', s'.schedulers[i]) {
      assert BatchInv(s, s.schedulers[i]);
    }
  }

  lemma CleanupStep(c: Config, s: System, a: Action)
    requires a.Cleanup? && SingleInv(s) && Enabled(c, s, a)
    ensures SingleInv(Step(c, s, a))
  {
    var cleaned := s.(table := Step(c, s, a).table);
    FewerEvents(s.table, cleaned.table);
    NoNewMark(s, cleaned);
    ControlStep(cleaned, Step(c, s, a));
  }

  lemma SingleStep(c: Config, s: System, a: Action)
    requires StrictTotalOrder(c.less)
    requires PublishesInOrder(c, |s.schedulers|) && SingleInv(s) && Enabled(c, s, a)
    ensures SingleInv(Step(c, s, a)) && |Step(c, s, a).schedulers| == |s.schedulers|
  {
    if a.ApiCreate? || a.ApiUpdate? || a.ApiDelete? {
      ApiStep(c, s, a);
    } else if a.AppendGarbage? {
      GarbageStep(c, s, a);
    } else if a.Cleanup? {
      CleanupStep(c, s, a);
    } else if a.Query? {
      QueryStep(c, s, a);
    } else if a.Send? {
      SendStep(c, s, a);
    } else if a.Mark? {
      MarkStep(c, s, a);
    } else {
      ControlStep(s, Step(c, s, a));
    }
  }
}
