/**
 * The polling routine: one cycle queries the eligible appointments and dispatches them;
 * cycles repeat on a timer over a notification table that only this routine writes.
 */
module Polling {
  import Notifications
  import opened Eligibility
  import opened Dispatch

  /**
   * Which dispatch loop a cycle runs: `AsWritten` is the program's loop, which a NULL phone
   * ends; `Isolated` is the per-item loop that the inner `try` evidently intends.
   */
  datatype Loop = AsWritten | Isolated

  /** The selected appointments a cycle gets to: as written, those before the first NULL phone. */
  function Reached(loop: Loop, selected: seq<Appointment>): (d: seq<Appointment>)
    ensures d <= selected
  {
    match loop
    case AsWritten => selected[..FirstMissingPhone(selected)]
    case Isolated => selected
  }

  /** The program's loop gets only to appointments with a phone, and stops at a NULL one. */
  lemma ReachedStopsAtMissingPhone(loop: Loop, selected: seq<Appointment>)
    ensures loop == AsWritten ==> forall i :: 0 <= i < |Reached(loop, selected)| ==> Reached(loop, selected)[i].phone.Some?
    ensures |Reached(loop, selected)| < |selected| ==>
      loop == AsWritten && selected[|Reached(loop, selected)|].phone.None?
  {
  }

  /**
   * One call of the polling routine at time `now`. `fetched` is false when the query
   * throws; the routine's `catch` then ends the cycle with nothing sent and nothing written.
   * Otherwise the isolated loop runs over the appointments the chosen loop gets to;
   * `CycleIsProgramLoop` shows that for `AsWritten` this is the program's loop itself.
   */
  function Cycle(loop: Loop, appointments: seq<Appointment>, table: Notifications.Table, now: int,
                 fetched: bool, oracle: nat -> Attempt): (b: Batch)
    ensures fetched ==> |b.outcomes| == |Reached(loop, Select(appointments, table, now))|
  {
    if !fetched then Batch([], [], table)
    else Run(Reached(loop, Select(appointments, table, now)), oracle, table)
  }

  /**
   * With the program's loop, a cycle's batch is exactly what the loop as written produces on
   * the selected appointments: a failed query leaves everything as it was, and a NULL phone
   * ends the loop with the batch built so far.
   */
  lemma CycleIsProgramLoop(appointments: seq<Appointment>, table: Notifications.Table, now: int,
                           fetched: bool, oracle: nat -> Attempt)
    ensures !fetched ==> Cycle(AsWritten, appointments, table, now, fetched, oracle) == Batch([], [], table)
    ensures fetched ==>
      Cycle(AsWritten, appointments, table, now, fetched, oracle) ==
      RunAsWritten(Select(appointments, table, now), oracle, table).batch
  {
    if fetched {
      AsWrittenStopsAtMissingPhone(Select(appointments, table, now), oracle, table);
    }
  }

  /** The program's loop met a NULL phone and the outer `catch` ended the cycle early. */
  predicate Aborted(loop: Loop, appointments: seq<Appointment>, table: Notifications.Table, now: int,
                    fetched: bool, oracle: nat -> Attempt)
  {
    fetched && loop == AsWritten && RunAsWritten(Select(appointments, table, now), oracle, table).aborted
  }

  /** A cycle reaches every selected appointment exactly when it does not abort. */
  lemma ReachedAllUnlessAborted(loop: Loop, appointments: seq<Appointment>, table: Notifications.Table,
                                now: int, oracle: nat -> Attempt)
    ensures var selected := Select(appointments, table, now);
      Reached(loop, selected) == selected <==> !Aborted(loop, appointments, table, now, true, oracle)
  {
    var selected := Select(appointments, table, now);
    AsWrittenStopsAtMissingPhone(selected, oracle, table);
    if loop == AsWritten && FirstMissingPhone(selected) == |selected| {
      assert selected[..|selected|] == selected;
    }
  }

  /**
   * The sends of a cycle, in ascending time order: one per selected appointment with a phone
   * for the isolated loop; as written, one per selected appointment before the first NULL
   * phone and none after it. None goes to an appointment that already has a sent record.
   */
  lemma CycleSendsOnlyPending(loop: Loop, appointments: seq<Appointment>, table: Notifications.Table,
                              now: int, fetched: bool, oracle: nat -> Attempt)
    ensures !fetched ==> Cycle(loop, appointments, table, now, fetched, oracle).sends == []
    ensures fetched && loop == Isolated ==>
      Cycle(loop, appointments, table, now, fetched, oracle).sends == SendsOf(Select(appointments, table, now))
    ensures fetched && loop == AsWritten ==>
      var selected := Select(appointments, table, now);
      && Cycle(loop, appointments, table, now, fetched, oracle).sends == SendsOf(selected[..FirstMissingPhone(selected)])
      && |Cycle(loop, appointments, table, now, fetched, oracle).sends| == FirstMissingPhone(selected)
    ensures forall a :: a in Select(appointments, table, now) ==> !Notifications.SentFor(table, a.id)
  {
    if fetched {
      var selected := Select(appointments, table, now);
      RunSendsEveryItem(Reached(loop, selected), oracle, table);
      if loop == AsWritten {
        ReachedStopsAtMissingPhone(loop, selected);
        SendsOfAllPhones(Reached(loop, selected));
      }
    }
  }

  /** A cycle never clears a sent record and keeps the table's unique key. */
  lemma CycleKeepsRecords(loop: Loop, appointments: seq<Appointment>, table: Notifications.Table, now: int,
                          fetched: bool, oracle: nat -> Attempt)
    ensures forall k :: Notifications.SentFor(table, k) ==>
      Notifications.SentFor(Cycle(loop, appointments, table, now, fetched, oracle).table, k)
    ensures Notifications.KeysUnique(table) ==>
      Notifications.KeysUnique(Cycle(loop, appointments, table, now, fetched, oracle).table)
  {
    if fetched {
      RunRecordsOnlyDeliveries(Reached(loop, Select(appointments, table, now)), oracle, table);
    }
  }

  /**
   * After a cycle that reached every selected appointment and delivered each one, running the
   * query again at the same time returns nothing: nobody is reminded twice.
   */
  lemma RerunAfterFullSuccess(loop: Loop, appointments: seq<Appointment>, table: Notifications.Table,
                              now: int, oracle: nat -> Attempt)
    requires !Aborted(loop, appointments, table, now, true, oracle)
    requires forall o :: o in Cycle(loop, appointments, table, now, true, oracle).outcomes ==> o == Delivered
    ensures Select(appointments, Cycle(loop, appointments, table, now, true, oracle).table, now) == []
  {
    var selected := Select(appointments, table, now);
    var b := Cycle(loop, appointments, table, now, true, oracle);
    ReachedAllUnlessAborted(loop, appointments, table, now, oracle);
    assert b == Run(selected, oracle, table);
    AllDeliveredAllSent(selected, oracle, table);
    CycleKeepsRecords(loop, appointments, table, now, true, oracle);
    forall a | a in appointments
      ensures !Eligible(a, b.table, now)
    {
      if Eligible(a, table, now) {
        assert a in selected;
      }
    }
    NothingEligible(appointments, b.table, now);
  }

  lemma AllDeliveredAllSent(items: seq<Appointment>, oracle: nat -> Attempt, table: Notifications.Table)
    requires forall o :: o in Run(items, oracle, table).outcomes ==> o == Delivered
    ensures forall a :: a in items ==> Notifications.SentFor(Run(items, oracle, table).table, a.id)
  {
    var b := Run(items, oracle, table);
    RunRecordsOnlyDeliveries(items, oracle, table);
    forall a | a in items
      ensures Notifications.SentFor(b.table, a.id)
    {
      var i :| 0 <= i < |items| && items[i] == a;
      assert b.outcomes[i] in b.outcomes;
      assert DeliveredId(items, b.outcomes, a.id);
    }
  }

  lemma NothingEligible(appointments: seq<Appointment>, table: Notifications.Table, now: int)
    requires forall a :: a in appointments ==> !Eligible(a, table, now)
    ensures Select(appointments, table, now) == []
  {
  }

  /** A selected appointment whose id the cycle did not deliver is selected again at the same time. */
  lemma UndeliveredStaysSelected(loop: Loop, appointments: seq<Appointment>, table: Notifications.Table,
                                 now: int, oracle: nat -> Attempt, a: Appointment)
    requires a in Select(appointments, table, now)
    requires !DeliveredId(Reached(loop, Select(appointments, table, now)),
                          Cycle(loop, appointments, table, now, true, oracle).outcomes, a.id)
    ensures a in Select(appointments, Cycle(loop, appointments, table, now, true, oracle).table, now)
  {
    RunRecordsOnlyDeliveries(Reached(loop, Select(appointments, table, now)), oracle, table);
  }

  /**
   * The at-least-once exposure: an appointment whose message went out but whose record
   * failed (and was not delivered under another row) is selected again at the same time.
   */
  lemma RecordFailureResends(loop: Loop, appointments: seq<Appointment>, table: Notifications.Table, now: int,
                             oracle: nat -> Attempt, i: nat)
    requires i < |Cycle(loop, appointments, table, now, true, oracle).outcomes|
    requires Cycle(loop, appointments, table, now, true, oracle).outcomes[i] == RecordFailed
    requires !DeliveredId(Reached(loop, Select(appointments, table, now)),
                          Cycle(loop, appointments, table, now, true, oracle).outcomes,
                          Reached(loop, Select(appointments, table, now))[i].id)
    ensures Reached(loop, Select(appointments, table, now))[i] in
      Select(appointments, Cycle(loop, appointments, table, now, true, oracle).table, now)
  {
    var selected := Select(appointments, table, now);
    var reached := Reached(loop, selected);
    assert reached[i] == selected[i];
    UndeliveredStaysSelected(loop, appointments, table, now, oracle, reached[i]);
  }

  /**
   * As written, the appointment whose NULL phone aborted the loop is left unrecorded and is
   * selected again at the same time, unless another row with its id was delivered.
   */
  lemma AbortLeavesRowSelected(appointments: seq<Appointment>, table: Notifications.Table, now: int,
                               oracle: nat -> Attempt)
    requires Aborted(AsWritten, appointments, table, now, true, oracle)
    ensures var selected := Select(appointments, table, now);
      var m := FirstMissingPhone(selected);
      && m < |selected| && selected[m].phone.None?
      && (!DeliveredId(selected[..m], Cycle(AsWritten, appointments, table, now, true, oracle).outcomes, selected[m].id) ==>
          selected[m] in Select(appointments, Cycle(AsWritten, appointments, table, now, true, oracle).table, now))
  {
    var selected := Select(appointments, table, now);
    var m := FirstMissingPhone(selected);
    AsWrittenStopsAtMissingPhone(selected, oracle, table);
    if !DeliveredId(selected[..m], Cycle(AsWritten, appointments, table, now, true, oracle).outcomes, selected[m].id) {
      UndeliveredStaysSelected(AsWritten, appointments, table, now, oracle, selected[m]);
    }
  }

  /** One tick of the timer: the appointments table as it then is, the time, and what the world does. */
  datatype Poll = Poll(appointments: seq<Appointment>, now: int, fetched: bool, oracle: nat -> Attempt)

  function CycleOf(loop: Loop, poll: Poll, table: Notifications.Table): Batch {
    Cycle(loop, poll.appointments, table, poll.now, poll.fetched, poll.oracle)
  }

  /**
   * A run of the timer: tables[j] is the notification table before poll j and tables[|polls|]
   * the table after the last one; every poll's cycle runs the same loop.
   */
  predicate IsHistory(loop: Loop, polls: seq<Poll>, tables: seq<Notifications.Table>) {
    && |tables| == |polls| + 1
    && forall j :: 0 <= j < |polls| ==> tables[j + 1] == CycleOf(loop, polls[j], tables[j]).table
  }

  /** Sent records survive every later cycle. */
  lemma {:induction false} SentPersists(loop: Loop, polls: seq<Poll>, tables: seq<Notifications.Table>,
                                        p: nat, q: nat, k: int)
    requires IsHistory(loop, polls, tables)
    requires p <= q < |tables|
    requires Notifications.SentFor(tables[p], k)
    ensures Notifications.SentFor(tables[q], k)
    decreases q - p
  {
    if p < q {
      NextCycleKeepsSent(loop, polls, tables, p, k);
      SentPersists(loop, polls, tables, p + 1, q, k);
    }
  }

  /** The cycle of poll j keeps the sent rows of the table it starts from. */
  lemma NextCycleKeepsSent(loop: Loop, polls: seq<Poll>, tables: seq<Notifications.Table>, j: nat, k: int)
    requires IsHistory(loop, polls, tables)
    requires j < |polls|
    requires Notifications.SentFor(tables[j], k)
    ensures Notifications.SentFor(tables[j + 1], k)
  {
    var poll := polls[j];
    assert tables[j + 1] == CycleOf(loop, poll, tables[j]).table;
    CycleKeepsRecords(loop, poll.appointments, tables[j], poll.now, poll.fetched, poll.oracle);
  }

  /**
   * No double notification across cycles: once cycle p delivered the reminder for an
   * appointment id, no later cycle q selects any appointment with that id, whatever the
   * appointments table and the clock say by then.
   */
  lemma NeverNotifiedTwice(loop: Loop, polls: seq<Poll>, tables: seq<Notifications.Table>, p: nat, q: nat, i: nat)
    requires IsHistory(loop, polls, tables)
    requires p < q < |polls|
    requires polls[p].fetched
    requires i < |Select(polls[p].appointments, tables[p], polls[p].now)|
    requires i < |CycleOf(loop, polls[p], tables[p]).outcomes|
    requires CycleOf(loop, polls[p], tables[p]).outcomes[i] == Delivered
    ensures forall a :: a in Select(polls[q].appointments, tables[q], polls[q].now) ==>
      a.id != Select(polls[p].appointments, tables[p], polls[p].now)[i].id
  {
    var k := Select(polls[p].appointments, tables[p], polls[p].now)[i].id;
    DeliveredIsSent(loop, polls[p], tables[p], i);
    assert tables[p + 1] == CycleOf(loop, polls[p], tables[p]).table;
    SentPersists(loop, polls, tables, p + 1, q, k);
    SentExcludesSelection(polls[q].appointments, tables[q], polls[q].now, k);
  }

  /** The query never selects an appointment whose id already has a sent row. */
  lemma SentExcludesSelection(appointments: seq<Appointment>, t: Notifications.Table, now: int, k: int)
    requires Notifications.SentFor(t, k)
    ensures forall a :: a in Select(appointments, t, now) ==> a.id != k
  {
  }

  /** The i-th selected appointment, once delivered, has a sent row after the cycle. */
  lemma DeliveredIsSent(loop: Loop, poll: Poll, before: Notifications.Table, i: nat)
    requires poll.fetched
    requires i < |Select(poll.appointments, before, poll.now)|
    requires i < |CycleOf(loop, poll, before).outcomes|
    requires CycleOf(loop, poll, before).outcomes[i] == Delivered
    ensures Notifications.SentFor(CycleOf(loop, poll, before).table, Select(poll.appointments, before, poll.now)[i].id)
  {
    var selected := Select(poll.appointments, before, poll.now);
    var reached := Reached(loop, selected);
    var b := CycleOf(loop, poll, before);
    assert reached[i] == selected[i];
    RunRecordsOnlyDeliveries(reached, poll.oracle, before);
    assert DeliveredId(reached, b.outcomes, selected[i].id);
  }
}
