/**
 What the delivery protocol guarantees over every run.
 */
module DeliveryTheorems {
  import opened Domain
  import opened Listings
  import opened EventTable
  import opened Delivery

  // ----- runs

  lemma {:induction false} RunsConcat(c: Config, s: System, run: seq<Action>, more: seq<Action>)
    requires Runs(c, s, run) && Runs(c, Exec(c, s, run), more)
    ensures Runs(c, s, run + more) && Exec(c, s, run + more) == Exec(c, Exec(c, s, run), more)
    decreases |run|
  {
    if run == [] {
      assert run + more == more;
    } else {
      RunsConcat(c, Step(c, s, run[0]), run[1..], more);
      assert (run + more)[1..] == run[1..] + more;
    }
  }

  lemma RunsSnoc(c: Config, s: System, run: seq<Action>, a: Action)
    requires Runs(c, s, run) && Enabled(c, Exec(c, s, run), a)
    ensures Runs(c, s, run + [a]) && Exec(c, s, run + [a]) == Step(c, Exec(c, s, run), a)
  {
    var s' := Exec(c, s, run);
    assert [a][1..] == [] && Runs(c, Step(c, s', a), []);
    RunsConcat(c, s, run, [a]);
  }

  // ----- exactly-once effect

  /** No save and no commit takes effect after it ended. */
  predicate StoresInTime(c: Config) {
    Saves !in c.late && Commits !in c.late
  }

  lemma PromptStep(c: Config, s: System, a: Action)
    requires StoresInTime(c) && StoresPromptly(s) && Enabled(c, s, a)
    ensures StoresPromptly(Step(c, s, a))
  {
  }

  lemma {:induction false} StorerRun(c: Config, s: System, run: seq<Action>)
    requires StorerInv(s) && StoresPromptly(s) && StoresInTime(c) && Runs(c, s, run)
    ensures StorerInv(Exec(c, s, run))
    decreases |run|
  {
    if run != [] {
      StorerStep(c, s, run[0]);
      PromptStep(c, s, run[0]);
      StorerRun(c, Step(c, s, run[0]), run[1..]);
    }
  }

  /**
   Whatever crashes, redeliveries and ambiguous saves and commits occurred, the
   notifications table is what saving each of the first k, or k + 1, messages exactly
   once and in order gives, where k is the committed offset.
   */
  lemma ExactlyOnceEffect(c: Config, n: nat, run: seq<Action>)
    requires n == 0 || StoresInTime(c)
    requires Runs(c, Initial(n), run)
    ensures var s := Exec(c, Initial(n), run); Saved(s.notes, s.log, s.committed)
  {
    if StoresInTime(c) {
      StorerRun(c, Initial(n), run);
    } else {
      SilentRun(c, Initial(n), run);
      var s := Exec(c, Initial(n), run);
      UnreadableReplay(s.log[..s.committed]);
    }
  }

  // ----- without a scheduler nothing readable is ever written

  ghost predicate Unreadable(log: seq<Payload>) {
    forall k | 0 <= k < |log| :: Decode(log[k]).None?
  }

  lemma {:induction false} UnreadableReplay(log: seq<Payload>)
    requires Unreadable(log)
    ensures Replay(log) == map[]
  {
    if log != [] { UnreadableReplay(log[..|log| - 1]); }
  }

  lemma {:induction false} UnreadableLast(log: seq<Payload>, id: string)
    requires Unreadable(log)
    ensures LastFor(log, id).None?
  {
    if log != [] { UnreadableLast(log[..|log| - 1], id); }
  }

  ghost predicate Silent(s: System) {
    && s.schedulers == [] && Unreadable(s.log) && s.notes == map[] && s.committed <= |s.log|
    && (s.storer.Fetched? || s.storer.Handled? ==> s.storer.pos < |s.log|)
    && (forall k | 0 <= k < |s.inFlight| ::
          match s.inFlight[k]
          case SaveOf(p) => Decode(p).None?
          case CommitOf(offset) => offset <= |s.log|
          case _ => false)
  }

  lemma SilentStep(c: Config, s: System, a: Action)
    requires Silent(s) && Enabled(c, s, a)
    ensures Silent(Step(c, s, a))
  {
  }

  lemma {:induction false} SilentRun(c: Config, s: System, run: seq<Action>)
    requires Silent(s) && Runs(c, s, run)
    ensures Silent(Exec(c, s, run))
    decreases |run|
  {
    if run != [] {
      SilentStep(c, s, run[0]);
      SilentRun(c, Step(c, s, run[0]), run[1..]);
    }
  }

  // ----- end-to-end delivery

  /** Once the storer has caught up, each marked event has its current content stored. */
  ghost predicate Delivered(s: System) {
    s.committed == |s.log| ==>
      forall id | id in s.table && s.table[id].sentAt.Some? ::
        && id in s.notes && s.notes[id].eventId == id
        && s.notes[id].title == s.table[id].event.title
        && s.notes[id].eventAt == s.table[id].event.startAt
        && s.notes[id].userId == s.table[id].event.userId
  }

  lemma {:induction false} SingleRun(c: Config, s: System, run: seq<Action>)
    requires StrictTotalOrder(c.less)
    requires PublishesInOrder(c, |s.schedulers|) && SingleInv(s) && Runs(c, s, run)
    ensures SingleInv(Exec(c, s, run))
    decreases |run|
  {
    if run != [] {
      SingleStep(c, s, run[0]);
      SingleRun(c, Step(c, s, run[0]), run[1..]);
    }
  }

  /** With one scheduler and no late message or mark, the last message about a marked row is its content. */
  lemma LastMessageIsContent(c: Config, n: nat, run: seq<Action>)
    requires StrictTotalOrder(c.less) && PublishesInOrder(c, n) && Runs(c, Initial(n), run)
    ensures MarkedIsLast(Exec(c, Initial(n), run))
  {
    SingleRun(c, Initial(n), run);
  }

  lemma {:induction false} LastForId(log: seq<Payload>, id: string)
    ensures LastFor(log, id).Some? ==> LastFor(log, id).value.eventId == id
  {
    if log != [] { LastForId(log[..|log| - 1], id); }
  }

  /** Saved rows and marked rows both as the log says: a storer that has caught up holds what is marked. */
  lemma LastIsDelivered(s: System)
    requires Saved(s.notes, s.log, s.committed) && MarkedIsLast(s)
    ensures Delivered(s)
  {
    if s.committed == |s.log| {
      assert s.log[..s.committed] == s.log;
      forall id | id in s.table && s.table[id].sentAt.Some?
        ensures id in s.notes && s.notes[id] == NotificationOf(s.table[id].event) && s.notes[id].eventId == id
      {
        ReplayIsLast(s.log, id);
        LastForId(s.log, id);
      }
    }
  }

  /** Everything takes effect in order: one scheduler and nothing late, or no scheduler. */
  predicate Orderly(c: Config, n: nat) {
    n == 0 || (n == 1 && c.late == {})
  }

  lemma EndToEndDelivery(c: Config, n: nat, run: seq<Action>)
    requires StrictTotalOrder(c.less) && Orderly(c, n) && Runs(c, Initial(n), run)
    ensures Delivered(Exec(c, Initial(n), run))
    ensures MarkedIsLast(Exec(c, Initial(n), run))
  {
    ExactlyOnceEffect(c, n, run);
    LastMessageIsContent(c, n, run);
    LastIsDelivered(Exec(c, Initial(n), run));
  }

  // ----- the storer can always catch up

  /** The storer handles and commits the next message. */
  lemma ConsumeOne(c: Config, s: System) returns (run: seq<Action>)
    requires s.storer.Ready? && s.storer.pos < |s.log|
    ensures Runs(c, s, run)
    ensures var pos := s.storer.pos;
      Exec(c, s, run) == s.(notes := Upsert(s.notes, s.log[pos]), committed := pos + 1, storer := Ready(pos + 1))
  {
    run := [] + [Fetch];
    RunsSnoc(c, s, [], Fetch);
    RunsSnoc(c, s, run, Handle(true, false, true));
    run := run + [Handle(true, false, true)];
    RunsSnoc(c, s, run, Commit(true, false, true));
    run := run + [Commit(true, false, true)];
  }

  /** The storer starts, or starts again, at the committed offset. */
  lemma Restart(c: Config, s: System) returns (run: seq<Action>)
    ensures Runs(c, s, run) && Exec(c, s, run) == s.(storer := Ready(s.committed))
  {
    run := [] + [StopStorer];
    RunsSnoc(c, s, [], StopStorer);
    RunsSnoc(c, s, run, StartStorer);
    run := run + [StartStorer];
  }

  /** From any state the protocol can reach, the storer alone can consume the whole log. */
  lemma CatchUp(c: Config, s: System) returns (run: seq<Action>)
    requires Saved(s.notes, s.log, s.committed)
    ensures Runs(c, s, run)
    ensures Exec(c, s, run) == s.(committed := |s.log|, notes := Replay(s.log), storer := Ready(|s.log|))
  {
    run := Restart(c, s);
    var s' := Exec(c, s, run);
    assert s.log[..|s.log|] == s.log;
    var more := ConsumeRest(c, s');
    RunsConcat(c, s, run, more);
    run := run + more;
  }

  lemma {:induction false} ConsumeRest(c: Config, s: System) returns (run: seq<Action>)
    requires Saved(s.notes, s.log, s.committed) && s.storer == Ready(s.committed)
    ensures Runs(c, s, run)
    ensures Exec(c, s, run) == s.(committed := |s.log|, notes := Replay(s.log), storer := Ready(|s.log|))
    decreases |s.log| - s.committed
  {
    assert s.log[..|s.log|] == s.log;
    run := [];
    if s.committed < |s.log| {
      run := ConsumeOne(c, s);
      SavedNext(s.notes, s.log, s.committed);
      var more := ConsumeRest(c, Exec(c, s, run));
      RunsConcat(c, s, run, more);
      run := run + more;
    }
  }

  /** So a marked event's notification is never lost: the storer can always come to hold it. */
  lemma MarkedCanBeStored(c: Config, n: nat, run: seq<Action>, id: string) returns (more: seq<Action>)
    requires StrictTotalOrder(c.less) && Orderly(c, n) && Runs(c, Initial(n), run)
    requires id in Exec(c, Initial(n), run).table && Exec(c, Initial(n), run).table[id].sentAt.Some?
    ensures Runs(c, Initial(n), run + more)
    ensures var s := Exec(c, Initial(n), run + more);
      && s.table == Exec(c, Initial(n), run).table
      && id in s.notes && s.notes[id] == NotificationOf(s.table[id].event)
  {
    ExactlyOnceEffect(c, n, run);
    SharedRun(c, Initial(n), run);
    more := CatchUp(c, Exec(c, Initial(n), run));
    RunsConcat(c, Initial(n), run, more);
    EndToEndDelivery(c, n, run + more);
  }

  // ----- several schedulers

  /** Some message, though perhaps not the last, carries the content of each marked row. */
  ghost predicate MarkedWasSent(s: System) {
    forall id | id in s.table && s.table[id].sentAt.Some? ::
      Encoded(NotificationOf(s.table[id].event)) in s.log
  }

  ghost predicate SharedInv(s: System) {
    && WellFormed(s.table)
    && MarkedWasSent(s)
    && (forall i | 0 <= i < |s.schedulers| && s.schedulers[i].Marking? && s.schedulers[i].batch != [] ::
          Encoded(NotificationOf(s.schedulers[i].batch[0])) in s.log)
    && (forall k | 0 <= k < |s.inFlight| && s.inFlight[k].MarkOf? ::
          Encoded(NotificationOf(s.inFlight[k].event)) in s.log)
  }

  lemma SharedLogStep(c: Config, s: System, a: Action)
    requires (a.Send? || a.AppendGarbage?) && SharedInv(s) && Enabled(c, s, a)
    ensures SharedInv(Step(c, s, a))
  {
    var s' := Step(c, s, a);
    assert forall p | p in s.log :: p in s'.log;
    if a.Send? && a.ok {
      var p := Encoded(NotificationOf(s.schedulers[a.i].batch[0]));
      assert Copies(p, a.copies)[0] == p;
      assert p in s'.log;
    }
  }

  lemma SharedTableStep(c: Config, s: System, a: Action)
    requires a.ApiCreate? || a.ApiUpdate? || a.ApiDelete? || a.Cleanup?
    requires SharedInv(s) && Enabled(c, s, a)
    ensures SharedInv(Step(c, s, a))
  {
    var e := if a.ApiCreate? || a.ApiUpdate? then a.event else Event("", "", 0, 0, "", "", 0);
    var id := if a.ApiDelete? then a.id else "";
    var time := if a.Cleanup? then a.cutoff else 0;
    StatementsKeepWellFormed(s.table, e, id, time);
    ApiAddsNoMark(s.table, e, id);
  }

  lemma SharedMarkStep(c: Config, s: System, a: Action)
    requires a.Mark? && SharedInv(s) && Enabled(c, s, a)
    ensures SharedInv(Step(c, s, a))
  {
    StatementsKeepWellFormed(s.table, s.schedulers[a.i].batch[0], "", s.schedulers[a.i].now);
  }

  lemma SharedLanding(c: Config, s: System, a: Action)
    requires a.Land? && SharedInv(s) && Enabled(c, s, a)
    ensures SharedInv(Step(c, s, a))
  {
    var s', effect := Step(c, s, a), s.inFlight[a.k];
    assert forall p | p in s.log :: p in s'.log;
    if effect.MarkOf? { StatementsKeepWellFormed(s.table, effect.event, "", effect.sentAt); }
    forall k | 0 <= k < |s'.inFlight| && s'.inFlight[k].MarkOf?
      ensures Encoded(NotificationOf(s'.inFlight[k].event)) in s'.log
    {
      assert s'.inFlight[k] == s.inFlight[if k < a.k then k else k + 1];
    }
  }

  lemma SharedStep(c: Config, s: System, a: Action)
    requires SharedInv(s) && Enabled(c, s, a)
    ensures SharedInv(Step(c, s, a))
  {
    if a.Send? || a.AppendGarbage? {
      SharedLogStep(c, s, a);
    } else if a.ApiCreate? || a.ApiUpdate? || a.ApiDelete? || a.Cleanup? {
      SharedTableStep(c, s, a);
    } else if a.Mark? {
      SharedMarkStep(c, s, a);
    } else if a.Land? {
      SharedLanding(c, s, a);
    }
  }

  lemma {:induction false} SharedRun(c: Config, s: System, run: seq<Action>)
    requires SharedInv(s) && Runs(c, s, run)
    ensures SharedInv(Exec(c, s, run))
    decreases |run|
  {
    if run != [] {
      SharedStep(c, s, run[0]);
      SharedRun(c, Step(c, s, run[0]), run[1..]);
    }
  }

  /** With any number of schedulers a mark still proves that the row's content was sent. */
  lemma MarkProvesSent(c: Config, n: nat, run: seq<Action>)
    requires Runs(c, Initial(n), run)
    ensures MarkedWasSent(Exec(c, Initial(n), run))
  {
    SharedRun(c, Initial(n), run);
  }

  // ----- two schedulers can leave stale content behind

  const OLD_EVENT := Event("e", "A", 100, 200, "", "u", 50)
  const NEW_EVENT := Event("e", "B", 100, 200, "", "u", 50)

  lemma ExamplesAreValid()
    ensures ValidEvent(NEW_EVENT) && ValidEvent(OLD_EVENT)
  {
    assert !IsSpace("e"[0]) && !IsSpace("A"[0]) && !IsSpace("B"[0]) && !IsSpace("u"[0]);
  }

  lemma SingleRowListing(c: Config, e: Event)
    requires StrictTotalOrder(c.less) && c.batchSize >= 1 && (e == OLD_EVENT || e == NEW_EVENT)
    ensures ListDue(c.less, map["e" := Row(e, None)], 60, c.batchSize) == [e]
  {
    var t := map["e" := Row(e, None)];
    assert DueEvents(t, 60) == {e} by { assert Due(t["e"], 60); }
    ListingExists(c.less, {e});
    assert [e][0] == e && Elements([e]) == {e};
    ListingUnique(c.less, {e}, [e], Listing(c.less, {e}));
  }

  lemma SingleRowStored(e: Event)
    requires e == OLD_EVENT || e == NEW_EVENT
    ensures EventTable.Create(map[], e) == (map["e" := Row(e, None)], Done)
    ensures EventTable.Update(map["e" := Row(OLD_EVENT, None)], e) == (map["e" := Row(e, None)], Done)
  {
    assert !IsSpace(e.id[0]) && !IsSpace(e.title[0]) && !IsSpace(e.userId[0]);
    assert e.title[0] != ' ' && e.userId[0] != ' ';
    assert ValidEvent(e) && RowChecks(e);
    assert NoOverlap(map["e" := Row(e, None)]);
    assert map["e" := Row(OLD_EVENT, None)]["e" := Row(e, None)] == map["e" := Row(e, None)];
  }

  /** Scheduler i begins a cycle at time 60 and lists the only row of the table. */
  lemma ListsTheRow(c: Config, s: System, i: nat, e: Event)
    requires StrictTotalOrder(c.less) && c.batchSize >= 1 && (e == OLD_EVENT || e == NEW_EVENT)
    requires i < |s.schedulers| && s.schedulers[i].Idle? && s.table == map["e" := Row(e, None)]
    ensures var run := [Begin(i, 60), Cleanup(i, 1, true, true), Query(i, true)];
      && Runs(c, s, run)
      && Exec(c, s, run) == s.(schedulers := s.schedulers[i := Sending(60, [e], 1 < c.batchSize, false)])
  {
    SingleRowListing(c, e);
    RunsSnoc(c, s, [], Begin(i, 60));
    RunsSnoc(c, s, [] + [Begin(i, 60)], Cleanup(i, 1, true, true));
    assert DeleteBefore(s.table, 1) == s.table;
    RunsSnoc(c, s, [] + [Begin(i, 60)] + [Cleanup(i, 1, true, true)], Query(i, true));
    assert [] + [Begin(i, 60)] + [Cleanup(i, 1, true, true)] + [Query(i, true)]
        == [Begin(i, 60), Cleanup(i, 1, true, true), Query(i, true)];
  }

  /** Someone writes to the topic, the event is created, and the first scheduler lists it. */
  lemma ListsOld(c: Config, n: nat, log: seq<Payload>) returns (run: seq<Action>)
    requires StrictTotalOrder(c.less) && c.batchSize >= 1 && n >= 1
    requires log == [] || (|log| == 1 && Decode(log[0]).None?)
    ensures Runs(c, Initial(n), run)
    ensures Exec(c, Initial(n), run) == Initial(n).(
      table := map["e" := Row(OLD_EVENT, None)], log := log,
      schedulers := Initial(n).schedulers[0 := Sending(60, [OLD_EVENT], 1 < c.batchSize, false)])
  {
    var s0 := Initial(n);
    run := [];
    if log != [] {
      RunsSnoc(c, s0, run, AppendGarbage(log[0]));
      run := run + [AppendGarbage(log[0])];
    }
    SingleRowStored(OLD_EVENT);
    RunsSnoc(c, s0, run, ApiCreate(OLD_EVENT));
    run := run + [ApiCreate(OLD_EVENT)];
    var list := [Begin(0, 60), Cleanup(0, 1, true, true), Query(0, true)];
    ListsTheRow(c, Exec(c, s0, run), 0, OLD_EVENT);
    RunsConcat(c, s0, run, list);
    run := run + list;
  }

  /** Both schedulers hold the event, one the old content and one the new. */
  lemma BothList(c: Config, n: nat) returns (run: seq<Action>)
    requires StrictTotalOrder(c.less) && c.batchSize >= 1 && n >= 2
    ensures Runs(c, Initial(n), run)
    ensures var s := Exec(c, Initial(n), run);
      && s.table == map["e" := Row(NEW_EVENT, None)] && s.log == [] && |s.schedulers| == n
      && s.schedulers[0] == Sending(60, [OLD_EVENT], 1 < c.batchSize, false)
      && s.schedulers[1] == Sending(60, [NEW_EVENT], 1 < c.batchSize, false)
      && Unstarted(s)
  {
    var s0 := Initial(n);
    run := ListsOld(c, n, []);
    SingleRowStored(NEW_EVENT);
    RunsSnoc(c, s0, run, ApiUpdate(NEW_EVENT));
    run := run + [ApiUpdate(NEW_EVENT)];
    var list := [Begin(1, 60), Cleanup(1, 1, true, true), Query(1, true)];
    ListsTheRow(c, Exec(c, s0, run), 1, NEW_EVENT);
    RunsConcat(c, s0, run, list);
    run := run + list;
  }

  /** The storer never ran. */
  ghost predicate Unstarted(s: System) {
    s.committed == 0 && s.notes == map[] && s.storer.Stopped?
  }

  /** When the last message about a marked row is not its content, a storer that catches up misses it. */
  lemma StoreStale(c: Config, n: nat, run: seq<Action>) returns (run': seq<Action>)
    requires Runs(c, Initial(n), run)
    requires Unstarted(Exec(c, Initial(n), run)) && !MarkedIsLast(Exec(c, Initial(n), run))
    ensures Runs(c, Initial(n), run') && !Delivered(Exec(c, Initial(n), run'))
  {
    var s := Exec(c, Initial(n), run);
    SharedRun(c, Initial(n), run);
    assert s.log[..0] == [];
    var more := CatchUp(c, s);
    RunsConcat(c, Initial(n), run, more);
    run' := run + more;
    var id :| id in s.table && s.table[id].sentAt.Some?
      && LastFor(s.log, id) != Some(NotificationOf(s.table[id].event));
    ReplayIsLast(s.log, id);
  }

  /**
   Two schedulers list the event around an update; the second publishes and marks the new
   content, then the first publishes the old content it still holds. The mark keeps the
   new content from ever being sent again, and the storer is left with the old one.
   */
  lemma StaleDelivery(c: Config, n: nat) returns (run: seq<Action>, run': seq<Action>)
    requires StrictTotalOrder(c.less) && c.batchSize >= 1 && n >= 2
    ensures Runs(c, Initial(n), run) && !MarkedIsLast(Exec(c, Initial(n), run))
    ensures Runs(c, Initial(n), run') && !Delivered(Exec(c, Initial(n), run'))
  {
    var s0 := Initial(n);
    run := BothList(c, n);
    var more := StaleSend(c, Exec(c, s0, run));
    RunsConcat(c, s0, run, more);
    run := run + more;
    ContentsDiffer();
    run' := StoreStale(c, n, run);
  }

  lemma ContentsDiffer()
    ensures NotificationOf(OLD_EVENT) != NotificationOf(NEW_EVENT)
  {
    assert "A"[0] != "B"[0];
  }

  lemma StaleSend(c: Config, s: System) returns (run: seq<Action>)
    requires |s.schedulers| >= 2 && s.table == map["e" := Row(NEW_EVENT, None)] && s.log == []
    requires s.schedulers[0] == Sending(60, [OLD_EVENT], 1 < c.batchSize, false)
    requires s.schedulers[1] == Sending(60, [NEW_EVENT], 1 < c.batchSize, false)
    requires Unstarted(s)
    ensures Runs(c, s, run)
    ensures var s' := Exec(c, s, run);
      && s'.table == map["e" := Row(NEW_EVENT, Some(60))] && Unstarted(s')
      && LastFor(s'.log, "e") == Some(NotificationOf(OLD_EVENT))
  {
    ExamplesAreValid();
    run := Publish(c, s, 1, NEW_EVENT);
    var s1 := Exec(c, s, run);
    RunsSnoc(c, s, run, Send(0, 1, 0, true));
    run := run + [Send(0, 1, 0, true)];
    LastForCopies(s1.log, Encoded(NotificationOf(OLD_EVENT)), 1, "e");
  }

  /** A scheduler publishes and marks the only row, which it listed. */
  lemma Publish(c: Config, s: System, i: nat, e: Event) returns (run: seq<Action>)
    requires (e == OLD_EVENT || e == NEW_EVENT) && i < |s.schedulers|
    requires s.schedulers[i] == Sending(60, [e], 1 < c.batchSize, false) && s.table == map["e" := Row(e, None)]
    ensures Runs(c, s, run)
    ensures Exec(c, s, run) == s.(
      table := map["e" := Row(e, Some(60))], log := s.log + [Encoded(NotificationOf(e))],
      schedulers := s.schedulers[i := Sending(60, [], 1 < c.batchSize, false)])
  {
    ExamplesAreValid();
    RunsSnoc(c, s, [], Send(i, 1, 0, true));
    run := [] + [Send(i, 1, 0, true)];
    var s1 := Exec(c, s, run);
    assert Copies(Encoded(NotificationOf(e)), 1) == [Encoded(NotificationOf(e))];
    assert s1 == s.(log := s.log + [Encoded(NotificationOf(e))],
      schedulers := s.schedulers[i := Marking(60, [e], 1 < c.batchSize, false)]);
    assert Unchanged(s1.table, e);
    assert MarkSent(s1.table, e, 60).0 == map["e" := Row(e, Some(60))];
    RunsSnoc(c, s, run, Mark(i, true, false, true));
    run := run + [Mark(i, true, false, true)];
    assert [e][1..] == [];
  }

  // ----- one late message can leave stale content behind

  /** The scheduler gives up a send of the old content, which stays in flight; the event is updated. */
  lemma GivesUp(c: Config, n: nat) returns (run: seq<Action>)
    requires StrictTotalOrder(c.less) && c.batchSize >= 1 && n >= 1 && Sends in c.late
    ensures Runs(c, Initial(n), run)
    ensures Exec(c, Initial(n), run) == Initial(n).(
      table := map["e" := Row(NEW_EVENT, None)], inFlight := [Message(Encoded(NotificationOf(OLD_EVENT)))])
  {
    var s0 := Initial(n);
    ExamplesAreValid();
    run := ListsOld(c, n, []);
    RunsSnoc(c, s0, run, Send(0, 0, 1, false));
    run := run + [Send(0, 0, 1, false)];
    assert s0.schedulers[0 := Idle] == s0.schedulers;
    SingleRowStored(NEW_EVENT);
    RunsSnoc(c, s0, run, ApiUpdate(NEW_EVENT));
    run := run + [ApiUpdate(NEW_EVENT)];
  }

  /**
   With a single scheduler: a send of the old content is given up while its message is still
   under way; the event is updated, published and marked; then the old message lands last.
   */
  lemma LateMessage(c: Config, n: nat) returns (run: seq<Action>, run': seq<Action>)
    requires StrictTotalOrder(c.less) && c.batchSize >= 1 && n >= 1 && Sends in c.late
    ensures Runs(c, Initial(n), run) && !MarkedIsLast(Exec(c, Initial(n), run))
    ensures Runs(c, Initial(n), run') && !Delivered(Exec(c, Initial(n), run'))
  {
    var s0 := Initial(n);
    ExamplesAreValid();
    run := GivesUp(c, n);
    var more := ListAndPublish(c, Exec(c, s0, run), NEW_EVENT);
    RunsConcat(c, s0, run, more);
    run := run + more;
    var s := Exec(c, s0, run);
    RunsSnoc(c, s0, run, Land(0));
    run := run + [Land(0)];
    LastForAppend(s.log, Encoded(NotificationOf(OLD_EVENT)), "e");
    ContentsDiffer();
    run' := StoreStale(c, n, run);
  }

  // ----- one late mark, too

  const FOREIGN: Payload := Garbage([])

  /** The messages of both contents, after one that is not readable. */
  ghost function BothMessages(): seq<Payload> {
    [FOREIGN, Encoded(NotificationOf(OLD_EVENT)), Encoded(NotificationOf(NEW_EVENT))]
  }

  /** The first content is published, and its mark reported lost; later tells whether it is still to come. */
  lemma PublishOld(c: Config, n: nat, later: bool) returns (run: seq<Action>)
    requires StrictTotalOrder(c.less) && c.batchSize >= 1 && n >= 1 && (later ==> Marks in c.late)
    ensures Runs(c, Initial(n), run)
    ensures var s := Exec(c, Initial(n), run);
      && s == Initial(n).(table := s.table, log := BothMessages()[..2], inFlight := s.inFlight)
      && s.inFlight == (if later then [MarkOf(OLD_EVENT, 60)] else [])
      && s.table == map["e" := Row(OLD_EVENT, if later then None else Some(60))]
  {
    var s0 := Initial(n);
    ExamplesAreValid();
    run := ListsOld(c, n, [FOREIGN]);
    RunsSnoc(c, s0, run, Send(0, 1, 0, true));
    run := run + [Send(0, 1, 0, true)];
    var s := Exec(c, s0, run);
    assert Unchanged(s.table, OLD_EVENT);
    RunsSnoc(c, s0, run, Mark(0, !later, later, false));
    run := run + [Mark(0, !later, later, false)];
    assert s0.schedulers[0 := Idle] == s0.schedulers;
  }

  /** Then the event is updated, and the new content published and marked. */
  lemma PublishBoth(c: Config, n: nat, later: bool) returns (run: seq<Action>)
    requires StrictTotalOrder(c.less) && c.batchSize >= 1 && n >= 1 && (later ==> Marks in c.late)
    ensures Runs(c, Initial(n), run)
    ensures var s := Exec(c, Initial(n), run);
      && s.table == map["e" := Row(NEW_EVENT, Some(60))] && s.log == BothMessages() && Unstarted(s)
      && s.inFlight == (if later then [MarkOf(OLD_EVENT, 60)] else [])
  {
    var s0 := Initial(n);
    run := PublishOld(c, n, later);
    UpdateStored(if later then None else Some(60));
    RunsSnoc(c, s0, run, ApiUpdate(NEW_EVENT));
    run := run + [ApiUpdate(NEW_EVENT)];
    var more := ListAndPublish(c, Exec(c, s0, run), NEW_EVENT);
    RunsConcat(c, s0, run, more);
    run := run + more;
  }

  lemma ListAndPublish(c: Config, s: System, e: Event) returns (run: seq<Action>)
    requires StrictTotalOrder(c.less) && c.batchSize >= 1 && (e == OLD_EVENT || e == NEW_EVENT)
    requires |s.schedulers| >= 1 && s.schedulers[0].Idle? && s.table == map["e" := Row(e, None)]
    ensures Runs(c, s, run)
    ensures Exec(c, s, run) == s.(
      table := map["e" := Row(e, Some(60))], log := s.log + [Encoded(NotificationOf(e))],
      schedulers := s.schedulers[0 := Sending(60, [], 1 < c.batchSize, false)])
  {
    run := [Begin(0, 60), Cleanup(0, 1, true, true), Query(0, true)];
    ListsTheRow(c, s, 0, e);
    var more := Publish(c, Exec(c, s, run), 0, e);
    RunsConcat(c, s, run, more);
    run := run + more;
  }

  lemma UpdateStored(sentAt: Option<Time>)
    ensures EventTable.Update(map["e" := Row(OLD_EVENT, sentAt)], NEW_EVENT) == (map["e" := Row(NEW_EVENT, None)], Done)
    ensures EventTable.Update(map["e" := Row(NEW_EVENT, sentAt)], OLD_EVENT) == (map["e" := Row(OLD_EVENT, None)], Done)
  {
    ExamplesAreValid();
    ValidPassesChecks(OLD_EVENT);
    ValidPassesChecks(NEW_EVENT);
    assert map["e" := Row(OLD_EVENT, sentAt)]["e" := Row(NEW_EVENT, None)] == map["e" := Row(NEW_EVENT, None)];
    assert map["e" := Row(NEW_EVENT, sentAt)]["e" := Row(OLD_EVENT, None)] == map["e" := Row(OLD_EVENT, None)];
  }

  /**
   A mark of the old content is given up. The event is updated, published and marked, and
   then updated back: the mark lands on the old content, while the last message is the new.
   */
  lemma LateMark(c: Config, n: nat) returns (run: seq<Action>, run': seq<Action>)
    requires StrictTotalOrder(c.less) && c.batchSize >= 1 && n >= 1 && Marks in c.late
    ensures Runs(c, Initial(n), run) && !MarkedIsLast(Exec(c, Initial(n), run))
    ensures Runs(c, Initial(n), run') && !Delivered(Exec(c, Initial(n), run'))
  {
    var s0 := Initial(n);
    run := PublishBoth(c, n, true);
    UpdateStored(Some(60));
    RunsSnoc(c, s0, run, ApiUpdate(OLD_EVENT));
    run := run + [ApiUpdate(OLD_EVENT)];
    var s := Exec(c, s0, run);
    assert Unchanged(s.table, OLD_EVENT);
    RunsSnoc(c, s0, run, Land(0));
    run := run + [Land(0)];
    LastIsNew();
    ContentsDiffer();
    assert Exec(c, s0, run).table["e"] == Row(OLD_EVENT, Some(60));
    run' := StoreStale(c, n, run);
  }

  lemma LastIsNew()
    ensures LastFor(BothMessages(), "e") == Some(NotificationOf(NEW_EVENT))
    ensures "e" in Replay(BothMessages()) && Replay(BothMessages())["e"] == NotificationOf(NEW_EVENT)
  {
    ExamplesAreValid();
    LastForAppend(BothMessages()[..2], BothMessages()[2], "e");
    assert BothMessages() == BothMessages()[..2] + [BothMessages()[2]];
    ReplayIsLast(BothMessages(), "e");
  }

  // ----- one late save, or two late commits

  /** The old content saved last, although the offset is past the new content. */
  ghost predicate Overwritten(s: System) {
    && s.table == map["e" := Row(NEW_EVENT, Some(60))] && s.log == BothMessages() && s.committed == 3
    && "e" in s.notes && s.notes["e"] == NotificationOf(OLD_EVENT)
  }

  lemma OverwrittenIsWrong(s: System)
    requires Overwritten(s)
    ensures !Delivered(s) && !Saved(s.notes, s.log, s.committed)
  {
    ContentsDiffer();
    LastIsNew();
    assert s.log[..3] == s.log;
    assert s.table["e"].sentAt.Some?;
  }

  /** A save of the old content is given up, done again and followed by the new content; then it lands. */
  lemma LateSave(c: Config, n: nat) returns (run: seq<Action>)
    requires StrictTotalOrder(c.less) && c.batchSize >= 1 && n >= 1 && Saves in c.late
    ensures Runs(c, Initial(n), run)
    ensures !Delivered(Exec(c, Initial(n), run))
    ensures var s := Exec(c, Initial(n), run); !Saved(s.notes, s.log, s.committed)
  {
    var s0 := Initial(n);
    run := PublishBoth(c, n, false);
    var more := GivesUpSave(c, Exec(c, s0, run));
    RunsConcat(c, s0, run, more);
    run := run + more;
    var s := Exec(c, s0, run);
    assert Saved(s.notes, s.log, s.committed) by { ReplayNext(s.log, 0); assert s.log[..0] == []; }
    more := CatchUp(c, s);
    RunsConcat(c, s0, run, more);
    run := run + more;
    RunsSnoc(c, s0, run, Land(0));
    run := run + [Land(0)];
    ExamplesAreValid();
    OverwrittenIsWrong(Exec(c, s0, run));
  }

  lemma GivesUpSave(c: Config, s: System) returns (run: seq<Action>)
    requires Unstarted(s) && s.log == BothMessages() && s.inFlight == [] && Saves in c.late
    ensures Runs(c, s, run)
    ensures Exec(c, s, run) ==
      s.(committed := 1, inFlight := [SaveOf(Encoded(NotificationOf(OLD_EVENT)))])
  {
    run := StartOne(c, s);
    RunsSnoc(c, s, run, Fetch);
    run := run + [Fetch];
    RunsSnoc(c, s, run, Handle(false, true, false));
    run := run + [Handle(false, true, false)];
  }

  /** The storer starts and gets past the unreadable message. */
  lemma StartOne(c: Config, s: System) returns (run: seq<Action>)
    requires s.committed == 0 && s.log == BothMessages()
    ensures Runs(c, s, run) && Exec(c, s, run) == s.(committed := 1, storer := Ready(1))
  {
    run := Restart(c, s);
    var more := ConsumeOne(c, Exec(c, s, run));
    RunsConcat(c, s, run, more);
    run := run + more;
  }

  /** The storer handles the next message, and its commit is given up. */
  lemma GivesUpCommit(c: Config, s: System) returns (run: seq<Action>)
    requires s.storer.Ready? && s.storer.pos < |s.log| && Commits in c.late
    ensures Runs(c, s, run)
    ensures var pos := s.storer.pos;
      Exec(c, s, run) == s.(notes := Upsert(s.notes, s.log[pos]), storer := Stopped,
        inFlight := s.inFlight + [CommitOf(pos + 1)])
  {
    run := [] + [Fetch];
    RunsSnoc(c, s, [], Fetch);
    RunsSnoc(c, s, run, Handle(true, false, true));
    run := run + [Handle(true, false, true)];
    RunsSnoc(c, s, run, Commit(false, true, false));
    run := run + [Commit(false, true, false)];
  }

  /** Two commits are given up, of the first message and of the last. */
  lemma GivesUpBoth(c: Config, s: System) returns (run: seq<Action>)
    requires Unstarted(s) && s.log == BothMessages() && s.inFlight == [] && Commits in c.late
    ensures Runs(c, s, run)
    ensures var s' := Exec(c, s, run);
      && s' == s.(notes := s'.notes, committed := 2, storer := Stopped, inFlight := [CommitOf(1), CommitOf(3)])
  {
    run := Restart(c, s);
    var more := GivesUpCommit(c, Exec(c, s, run));
    RunsConcat(c, s, run, more);
    run := run + more;
    more := StartOne(c, Exec(c, s, run));
    RunsConcat(c, s, run, more);
    run := run + more;
    more := ConsumeOne(c, Exec(c, s, run));
    RunsConcat(c, s, run, more);
    run := run + more;
    more := GivesUpCommit(c, Exec(c, s, run));
    RunsConcat(c, s, run, more);
    run := run + more;
  }

  /** The first commit takes the offset back, the old content is saved again, then the last commit lands. */
  lemma GoesBack(c: Config, s: System) returns (run: seq<Action>)
    requires s.table == map["e" := Row(NEW_EVENT, Some(60))] && s.log == BothMessages()
    requires s.inFlight == [CommitOf(1), CommitOf(3)]
    ensures Runs(c, s, run) && Overwritten(Exec(c, s, run))
  {
    ExamplesAreValid();
    RunsSnoc(c, s, [], Land(0));
    run := [] + [Land(0)];
    var more := Restart(c, Exec(c, s, run));
    RunsConcat(c, s, run, more);
    run := run + more;
    RunsSnoc(c, s, run, Fetch);
    run := run + [Fetch];
    RunsSnoc(c, s, run, Handle(true, false, true));
    run := run + [Handle(true, false, true)];
    RunsSnoc(c, s, run, Land(0));
    run := run + [Land(0)];
  }

  lemma LateCommit(c: Config, n: nat) returns (run: seq<Action>)
    requires StrictTotalOrder(c.less) && c.batchSize >= 1 && n >= 1 && Commits in c.late
    ensures Runs(c, Initial(n), run)
    ensures !Delivered(Exec(c, Initial(n), run))
    ensures var s := Exec(c, Initial(n), run); !Saved(s.notes, s.log, s.committed)
  {
    var s0 := Initial(n);
    run := PublishBoth(c, n, false);
    var more := GivesUpBoth(c, Exec(c, s0, run));
    RunsConcat(c, s0, run, more);
    run := run + more;
    more := GoesBack(c, Exec(c, s0, run));
    RunsConcat(c, s0, run, more);
    run := run + more;
    OverwrittenIsWrong(Exec(c, s0, run));
  }

  // ----- the exact conditions

  /** The last message is the content of every marked row, exactly without late messages and marks. */
  lemma LastMessageIff(c: Config, n: nat)
    requires StrictTotalOrder(c.less) && c.batchSize >= 1
    ensures (forall run | Runs(c, Initial(n), run) :: MarkedIsLast(Exec(c, Initial(n), run))) <==>
      n == 0 || (n == 1 && Sends !in c.late && Marks !in c.late)
  {
    if PublishesInOrder(c, n) {
      forall run | Runs(c, Initial(n), run) ensures MarkedIsLast(Exec(c, Initial(n), run)) {
        LastMessageIsContent(c, n, run);
      }
    } else if n >= 2 {
      var run, _ := StaleDelivery(c, n);
    } else if Sends in c.late {
      var run, _ := LateMessage(c, n);
    } else {
      var run, _ := LateMark(c, n);
    }
  }

  /** Saving is exactly-once in effect, exactly without late saves and commits. */
  lemma ExactlyOnceIff(c: Config, n: nat)
    requires StrictTotalOrder(c.less) && c.batchSize >= 1
    ensures (forall run | Runs(c, Initial(n), run) ::
        var s := Exec(c, Initial(n), run); Saved(s.notes, s.log, s.committed)) <==>
      n == 0 || (Saves !in c.late && Commits !in c.late)
  {
    if n == 0 || StoresInTime(c) {
      forall run | Runs(c, Initial(n), run)
        ensures var s := Exec(c, Initial(n), run); Saved(s.notes, s.log, s.committed)
      {
        ExactlyOnceEffect(c, n, run);
      }
    } else if Saves in c.late {
      var run := LateSave(c, n);
    } else {
      var run := LateCommit(c, n);
    }
  }

  /** Delivery is guaranteed exactly with no scheduler, or with one and no call that takes effect late. */
  lemma DeliveryIffOrderly(c: Config, n: nat)
    requires StrictTotalOrder(c.less) && c.batchSize >= 1
    ensures (forall run | Runs(c, Initial(n), run) :: Delivered(Exec(c, Initial(n), run))) <==>
      n == 0 || (n == 1 && c.late == {})
  {
    if Orderly(c, n) {
      forall run | Runs(c, Initial(n), run) ensures Delivered(Exec(c, Initial(n), run)) {
        EndToEndDelivery(c, n, run);
      }
    } else if n >= 2 {
      var _, run := StaleDelivery(c, n);
    } else {
      var kind :| kind in c.late;
      var run := LateDelivery(c, n, kind);
    }
  }

  /** Any one kind of late effect suffices to break delivery, with a single scheduler. */
  lemma LateDelivery(c: Config, n: nat, kind: Kind) returns (run: seq<Action>)
    requires StrictTotalOrder(c.less) && c.batchSize >= 1 && n >= 1 && kind in c.late
    ensures Runs(c, Initial(n), run) && !Delivered(Exec(c, Initial(n), run))
  {
    match kind
    case Sends => var _, r := LateMessage(c, n); run := r;
    case Marks => var _, r := LateMark(c, n); run := r;
    case Saves => run := LateSave(c, n);
    case Commits => run := LateCommit(c, n);
  }

  // ----- nothing is invented

  ghost function Events(t: Table): set<Event> {
    set id | id in t :: t[id].event
  }

  /** Every event that was in the table at some point of the run. */
  ghost function EverStored(c: Config, s: System, run: seq<Action>): set<Event>
    requires Runs(c, s, run)
    decreases |run|
  {
    if run == [] then Events(s.table)
    else Events(s.table) + EverStored(c, Step(c, s, run[0]), run[1..])
  }

  /** n describes one of the events of known. */
  ghost predicate DescribesOne(n: Notification, known: set<Event>) {
    exists e :: e in known && Describes(n, e)
  }

  /** The notification an effect still carries. */
  function Carried(effect: Effect): Option<Notification> {
    match effect
    case Message(p) => Decode(p)
    case SaveOf(p) => Decode(p)
    case _ => None
  }

  /** Every notification in the topic, in the notifications table or in flight. */
  ghost predicate Written(s: System, n: Notification) {
    || (exists k :: 0 <= k < |s.log| && Decode(s.log[k]) == Some(n))
    || (exists id :: id in s.notes && s.notes[id] == n)
    || (exists k :: 0 <= k < |s.inFlight| && Carried(s.inFlight[k]) == Some(n))
  }

  ghost predicate OriginInv(s: System, known: set<Event>) {
    && WellFormed(s.table)
    && (forall id | id in s.table :: s.table[id].event in known)
    && (forall i, j | 0 <= i < |s.schedulers| && (s.schedulers[i].Sending? || s.schedulers[i].Marking?)
          && 0 <= j < |s.schedulers[i].batch| :: s.schedulers[i].batch[j] in known)
    && (forall n | Written(s, n) :: DescribesOne(n, known))
  }

  lemma WrittenLanding(c: Config, s: System, a: Action, n: Notification)
    requires a.Land? && Enabled(c, s, a) && Written(Step(c, s, a), n)
    ensures Written(s, n)
  {
    var s' := Step(c, s, a);
    assert Carried(s.inFlight[a.k]) == Some(n) ==> Written(s, n);
    assert forall k | 0 <= k < |s'.inFlight| :: s'.inFlight[k] == s.inFlight[if k < a.k then k else k + 1];
    assert forall k | 0 <= k < |s.log| :: s'.log[k] == s.log[k];
  }

  lemma WrittenSend(c: Config, s: System, a: Action, n: Notification)
    requires a.Send? && Enabled(c, s, a) && Written(Step(c, s, a), n)
    ensures Written(s, n) || n == NotificationOf(s.schedulers[a.i].batch[0])
  {
    var s' := Step(c, s, a);
    assert forall k | 0 <= k < |s.inFlight| :: s'.inFlight[k] == s.inFlight[k];
    assert forall k | 0 <= k < |s.log| :: s'.log[k] == s.log[k];
  }

  /** A step writes nothing new but the notification of the event at hand. */
  lemma WrittenStep(c: Config, s: System, a: Action, n: Notification)
    requires Enabled(c, s, a) && Written(Step(c, s, a), n)
    ensures Written(s, n) || (a.Send? && n == NotificationOf(s.schedulers[a.i].batch[0]))
  {
    if a.Land? {
      WrittenLanding(c, s, a, n);
    } else if a.Send? {
      WrittenSend(c, s, a, n);
    } else {
      var s' := Step(c, s, a);
      assert forall k | 0 <= k < |s.inFlight| :: s'.inFlight[k] == s.inFlight[k];
      assert forall k | 0 <= k < |s.log| :: s'.log[k] == s.log[k];
    }
  }

  lemma OriginGrows(s: System, known: set<Event>, known': set<Event>)
    requires OriginInv(s, known) && known <= known'
    ensures OriginInv(s, known')
  {
    forall n | Written(s, n) ensures DescribesOne(n, known') {
      assert DescribesOne(n, known);
    }
  }

  /** The table and the batches hold known events still. */
  lemma RowsKnown(c: Config, s: System, a: Action, known: set<Event>)
    requires StrictTotalOrder(c.less) && OriginInv(s, known) && Enabled(c, s, a)
    ensures var s' := Step(c, s, a);
      && WellFormed(s'.table)
      && (forall i, j | 0 <= i < |s'.schedulers| && (s'.schedulers[i].Sending? || s'.schedulers[i].Marking?)
          && 0 <= j < |s'.schedulers[i].batch| :: s'.schedulers[i].batch[j] in known)
  {
    if a.ApiCreate? || a.ApiUpdate? || a.ApiDelete? || a.Cleanup? {
      var e := if a.ApiCreate? || a.ApiUpdate? then a.event else Event("", "", 0, 0, "", "", 0);
      StatementsKeepWellFormed(s.table, e, if a.ApiDelete? then a.id else "", if a.Cleanup? then a.cutoff else 0);
    } else if a.Query? {
      ListDueFacts(c.less, s.table, s.schedulers[a.i].now, c.batchSize);
    } else if a.Mark? {
      var p := s.schedulers[a.i];
      StatementsKeepWellFormed(s.table, p.batch[0], "", p.now);
      assert a.ok ==> forall j | 0 <= j < |p.batch[1..]| :: p.batch[1..][j] == p.batch[j + 1];
    } else if a.Land? && s.inFlight[a.k].MarkOf? {
      StatementsKeepWellFormed(s.table, s.inFlight[a.k].event, "", s.inFlight[a.k].sentAt);
    }
  }

  lemma OriginStep(c: Config, s: System, a: Action, known: set<Event>)
    requires StrictTotalOrder(c.less) && OriginInv(s, known) && Enabled(c, s, a)
    ensures OriginInv(Step(c, s, a), known + Events(Step(c, s, a).table))
  {
    var s' := Step(c, s, a);
    var known' := known + Events(s'.table);
    RowsKnown(c, s, a, known);
    OriginGrows(s, known, known');
    forall n | Written(s', n) ensures DescribesOne(n, known') {
      WrittenStep(c, s, a, n);
    }
  }

  lemma {:induction false} OriginRun(c: Config, s: System, run: seq<Action>, known: set<Event>)
    requires StrictTotalOrder(c.less) && OriginInv(s, known) && Runs(c, s, run)
    ensures OriginInv(Exec(c, s, run), known + EverStored(c, s, run))
    decreases |run|
  {
    if run == [] {
      OriginGrows(s, known, known + EverStored(c, s, run));
    } else {
      var s' := Step(c, s, run[0]);
      OriginStep(c, s, run[0], known);
      OriginRun(c, s', run[1..], known + Events(s'.table));
      OriginGrows(Exec(c, s, run), known + Events(s'.table) + EverStored(c, s', run[1..]),
                  known + EverStored(c, s, run));
    }
  }

  /** Each stored notification describes an event that the table held at some point of the run. */
  lemma NothingInvented(c: Config, n: nat, run: seq<Action>, id: string)
    requires StrictTotalOrder(c.less) && Runs(c, Initial(n), run)
    requires id in Exec(c, Initial(n), run).notes
    ensures DescribesOne(Exec(c, Initial(n), run).notes[id], EverStored(c, Initial(n), run))
  {
    var s := Exec(c, Initial(n), run);
    OriginRun(c, Initial(n), run, {});
    assert Written(s, s.notes[id]);
    assert {} + EverStored(c, Initial(n), run) == EverStored(c, Initial(n), run);
  }
}
