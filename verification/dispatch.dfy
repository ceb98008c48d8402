/**
 * Processing one appointment, and a batch of them in order: send a reminder and record
 * each successful send in the notification table. `Run` is the per-item loop and
 * `RunAsWritten` the loop as the program has it.
 */
module Dispatch {
  import Contact
  import Notifications
  import opened Eligibility

  /**
   * What the outside world does to the attempt at the i-th item of a batch:
   * whether `sendMessage` resolves, whether the upsert resolves, and NOW() at the upsert.
   */
  datatype Attempt = Attempt(sendOk: bool, writeOk: bool, at: int)

  /** Stands for the reminder text, built from the client's name and the appointment time. */
  datatype Message = Reminder(clientName: string, scheduledAt: int)

  /** One call of `sendMessage`: the address and the message. */
  datatype Send = Send(to: string, message: Message)

  /** How the processing of one appointment ended. */
  datatype Outcome =
    | NoAddress      // the phone column is NULL: no address can be built
    | SendFailed     // the send was rejected; nothing is recorded
    | RecordFailed   // the message went out but the upsert failed
    | Delivered      // the message went out and the row says enviado = 1

  /** What a run over a batch leaves: one outcome per processed item, the sends made, the table. */
  datatype Batch = Batch(outcomes: seq<Outcome>, sends: seq<Send>, table: Notifications.Table)

  function ReminderFor(a: Appointment, phone: string): Send {
    Send(Contact.Normalise(phone), Reminder(a.clientName, a.scheduledAt))
  }

  /**
   * One appointment: build the address and the message, send, and on success upsert the
   * row. Every failure, including a missing phone, ends this item only.
   */
  function Process(a: Appointment, attempt: Attempt, table: Notifications.Table): (b: Batch)
    ensures |b.outcomes| == 1
    ensures b.outcomes[0] == NoAddress <==> a.phone.None?
    ensures b.outcomes[0] == SendFailed <==> a.phone.Some? && !attempt.sendOk
    ensures b.outcomes[0] == RecordFailed <==> a.phone.Some? && attempt.sendOk && !attempt.writeOk
    ensures b.outcomes[0] == Delivered <==> a.phone.Some? && attempt.sendOk && attempt.writeOk
    ensures |b.sends| == if a.phone.Some? then 1 else 0
    ensures b.outcomes[0] != Delivered ==> b.table == table
    ensures b.outcomes[0] == Delivered ==> b.table == Notifications.Upsert(table, a.id, attempt.at)
  {
    match a.phone
    case None => Batch([NoAddress], [], table)
    case Some(phone) =>
      var send := ReminderFor(a, phone);
      if !attempt.sendOk then Batch([SendFailed], [send], table)
      else if !attempt.writeOk then Batch([RecordFailed], [send], table)
      else Batch([Delivered], [send], Notifications.Upsert(table, a.id, attempt.at))
  }

  /** The sends a batch is expected to make: one per appointment that has a phone, in order. */
  function SendsOf(items: seq<Appointment>): seq<Send> {
    if items == [] then []
    else
      (match items[0].phone
       case None => []
       case Some(phone) => [ReminderFor(items[0], phone)])
      + SendsOf(items[1..])
  }

  /** Some item with this id ended Delivered. */
  predicate DeliveredId(items: seq<Appointment>, outcomes: seq<Outcome>, id: int) {
    exists i :: 0 <= i < |items| && i < |outcomes| && items[i].id == id && outcomes[i] == Delivered
  }

  /**
   * The per-item loop that the inner `try` evidently intends: the corrected form of the
   * `for ... of` loop at bot.js:69-71, where a NULL phone fails only its own item.
   * `RunAsWritten` is the loop as written.
   */
  function Run(items: seq<Appointment>, oracle: nat -> Attempt, table: Notifications.Table): (b: Batch)
    ensures |b.outcomes| == |items|
    decreases |items|
  {
    if items == [] then Batch([], [], table)
    else
      var n := |items| - 1;
      var before := Run(items[..n], oracle, table);
      var last := Process(items[n], oracle(n), before.table);
      Batch(before.outcomes + last.outcomes, before.sends + last.sends, last.table)
  }

  /**
   * Failure isolation: how item i ends depends only on its own phone and its own attempt,
   * never on what happened to the items before it.
   */
  lemma {:induction false} RunIsolatesFailures(items: seq<Appointment>, oracle: nat -> Attempt,
                                               table: Notifications.Table)
    ensures forall i :: 0 <= i < |items| ==>
      (Run(items, oracle, table).outcomes[i] == NoAddress <==> items[i].phone.None?)
    ensures forall i :: 0 <= i < |items| ==>
      (Run(items, oracle, table).outcomes[i] == SendFailed <==> items[i].phone.Some? && !oracle(i).sendOk)
    ensures forall i :: 0 <= i < |items| ==>
      (Run(items, oracle, table).outcomes[i] == RecordFailed <==> items[i].phone.Some? && oracle(i).sendOk && !oracle(i).writeOk)
    ensures forall i :: 0 <= i < |items| ==>
      (Run(items, oracle, table).outcomes[i] == Delivered <==> items[i].phone.Some? && oracle(i).sendOk && oracle(i).writeOk)
    decreases |items|
  {
    forall i | 0 <= i < |items|
      ensures Run(items, oracle, table).outcomes[i] == Process(items[i], oracle(i), Run(items[..i], oracle, table).table).outcomes[0]
    {
      OutcomeSettled(items, i, oracle, table);
      assert items[..i + 1][..i] == items[..i];
    }
  }

  /** Once item j has been processed, later items never change its outcome. */
  lemma {:induction false} OutcomeSettled(items: seq<Appointment>, j: nat, oracle: nat -> Attempt,
                                          table: Notifications.Table)
    requires j < |items|
    ensures Run(items, oracle, table).outcomes[j] == Run(items[..j + 1], oracle, table).outcomes[j]
    decreases |items|
  {
    var n := |items| - 1;
    if j < n {
      var before := Run(items[..n], oracle, table);
      assert Run(items, oracle, table).outcomes[j] == before.outcomes[j];
      OutcomeSettled(items[..n], j, oracle, table);
      assert items[..n][..j + 1] == items[..j + 1];
    } else {
      assert items[..j + 1] == items;
    }
  }

  /** When every appointment has a phone, each gets exactly one send. */
  lemma {:induction false} SendsOfAllPhones(items: seq<Appointment>)
    requires forall i :: 0 <= i < |items| ==> items[i].phone.Some?
    ensures |SendsOf(items)| == |items|
  {
    if items != [] {
      assert items[0].phone.Some?;
      SendsOfAllPhones(items[1..]);
    }
  }

  lemma {:induction false} SendsOfAppend(a: seq<Appointment>, b: seq<Appointment>)
    ensures SendsOf(a + b) == SendsOf(a) + SendsOf(b)
  {
    if a == [] {
      assert a + b == b;
    } else {
      assert (a + b)[0] == a[0];
      assert (a + b)[1..] == a[1..] + b;
      SendsOfAppend(a[1..], b);
    }
  }

  /**
   * Every appointment with a phone gets exactly one send attempt, in query order,
   * whatever happened to the items before it.
   */
  lemma {:induction false} RunSendsEveryItem(items: seq<Appointment>, oracle: nat -> Attempt, table: Notifications.Table)
    ensures Run(items, oracle, table).sends == SendsOf(items)
    decreases |items|
  {
    if items != [] {
      var n := |items| - 1;
      RunSendsEveryItem(items[..n], oracle, table);
      assert items == items[..n] + [items[n]];
      SendsOfAppend(items[..n], [items[n]]);
      assert SendsOf([items[n]]) == SendsOf([items[n]][..1]) + SendsOf([]);
    }
  }

  lemma DeliveredIdSnoc(items: seq<Appointment>, outcomes: seq<Outcome>, id: int)
    requires |items| == |outcomes| > 0
    ensures DeliveredId(items, outcomes, id) <==>
      DeliveredId(items[..|items| - 1], outcomes[..|items| - 1], id)
      || (items[|items| - 1].id == id && outcomes[|items| - 1] == Delivered)
  {
    var n := |items| - 1;
    if DeliveredId(items, outcomes, id) {
      var i :| 0 <= i < |items| && i < |outcomes| && items[i].id == id && outcomes[i] == Delivered;
      if i < n {
        assert items[..n][i] == items[i] && outcomes[..n][i] == outcomes[i];
      }
    }
    if DeliveredId(items[..n], outcomes[..n], id) {
      var i :| 0 <= i < n && items[..n][i].id == id && outcomes[..n][i] == Delivered;
      assert items[i].id == id && outcomes[i] == Delivered;
    }
  }

  /**
   * The notification table after a batch: a row says sent exactly when it did before or some
   * item with that id was Delivered; the rows of every other id are untouched; the unique
   * key survives, and a delivered id has its single row with enviado = 1.
   */
  lemma {:induction false} RunRecordsOnlyDeliveries(items: seq<Appointment>, oracle: nat -> Attempt,
                                                    table: Notifications.Table)
    ensures Notifications.KeysUnique(table) ==> Notifications.KeysUnique(Run(items, oracle, table).table)
    ensures forall k :: Notifications.SentFor(Run(items, oracle, table).table, k) <==>
      Notifications.SentFor(table, k) || DeliveredId(items, Run(items, oracle, table).outcomes, k)
    ensures forall k :: !DeliveredId(items, Run(items, oracle, table).outcomes, k) ==>
      Notifications.RowsFor(Run(items, oracle, table).table, k) == Notifications.RowsFor(table, k)
    ensures forall k :: Notifications.KeysUnique(table) && DeliveredId(items, Run(items, oracle, table).outcomes, k) ==>
      && |Notifications.RowsFor(Run(items, oracle, table).table, k)| == 1
      && Notifications.RowsFor(Run(items, oracle, table).table, k)[0].sentFlag == 1
    decreases |items|
  {
    var b := Run(items, oracle, table);
    if items == [] {
    } else {
      var n := |items| - 1;
      var before := Run(items[..n], oracle, table);
      RunRecordsOnlyDeliveries(items[..n], oracle, table);
      assert b.outcomes[..n] == before.outcomes;
      forall k ensures DeliveredId(items, b.outcomes, k) <==>
        DeliveredId(items[..n], before.outcomes, k) || (items[n].id == k && b.outcomes[n] == Delivered)
      {
        DeliveredIdSnoc(items, b.outcomes, k);
      }
    }
  }

  /** A run that may have been cut short by an exception the item's own handler does not catch. */
  datatype Partial = Partial(batch: Batch, aborted: bool)

  /**
   * The loop as the code has it: a NULL phone makes `telefone.replace` throw before the
   * per-item `try` is entered, so the cycle's outer `catch` ends the whole loop.
   */
  function RunAsWritten(items: seq<Appointment>, oracle: nat -> Attempt, table: Notifications.Table): (p: Partial)
    ensures |p.batch.outcomes| <= |items|
    ensures !p.aborted ==> |p.batch.outcomes| == |items|
    ensures p.aborted ==> |p.batch.outcomes| < |items| && items[|p.batch.outcomes|].phone.None?
    decreases |items|
  {
    if items == [] then Partial(Batch([], [], table), false)
    else
      var n := |items| - 1;
      var before := RunAsWritten(items[..n], oracle, table);
      if before.aborted then before
      else if items[n].phone.None? then Partial(before.batch, true)
      else
        var last := Process(items[n], oracle(n), before.batch.table);
        Partial(Batch(before.batch.outcomes + last.outcomes, before.batch.sends + last.sends, last.table), false)
  }

  /** The index of the first appointment without a phone, or |items| when there is none. */
  function FirstMissingPhone(items: seq<Appointment>): (k: nat)
    ensures k <= |items|
    ensures forall i :: 0 <= i < k ==> items[i].phone.Some?
    ensures k < |items| ==> items[k].phone.None?
  {
    if items == [] || items[0].phone.None? then 0
    else 1 + FirstMissingPhone(items[1..])
  }

  /**
   * The loop as written behaves like the per-item-isolated loop on the items before the first
   * NULL phone and processes nothing from that item on.
   */
  lemma AsWrittenStopsAtMissingPhone(items: seq<Appointment>, oracle: nat -> Attempt, table: Notifications.Table)
    ensures var k := FirstMissingPhone(items);
      && RunAsWritten(items, oracle, table).batch == Run(items[..k], oracle, table)
      && (RunAsWritten(items, oracle, table).aborted <==> k < |items|)
  {
    var k := FirstMissingPhone(items);
    if k < |items| {
      AsWrittenAbortsAt(items, k, oracle, table);
    } else {
      assert items[..k] == items;
      AsWrittenAllPhones(items, oracle, table);
    }
  }

  /** With every phone present the loop as written is the isolated loop. */
  lemma {:induction false} AsWrittenAllPhones(items: seq<Appointment>, oracle: nat -> Attempt, table: Notifications.Table)
    requires forall i :: 0 <= i < |items| ==> items[i].phone.Some?
    ensures RunAsWritten(items, oracle, table) == Partial(Run(items, oracle, table), false)
    decreases |items|
  {
    if items != [] {
      var n := |items| - 1;
      AsWrittenAllPhones(items[..n], oracle, table);
      RunAsWrittenStep(items, oracle, table);
    }
  }

  /** The first NULL phone at index m: the loop as written stops there, having run items[..m]. */
  lemma {:induction false} AsWrittenAbortsAt(items: seq<Appointment>, m: nat, oracle: nat -> Attempt,
                                             table: Notifications.Table)
    requires m < |items| && items[m].phone.None?
    requires forall i :: 0 <= i < m ==> items[i].phone.Some?
    ensures RunAsWritten(items, oracle, table) == Partial(Run(items[..m], oracle, table), true)
    decreases |items|
  {
    var n := |items| - 1;
    var prefix := items[..n];
    if n == m {
      assert prefix == items[..m];
      AsWrittenAllPhones(prefix, oracle, table);
      RunAsWrittenAbortsHere(items, oracle, table);
    } else {
      assert prefix[m] == items[m];
      assert prefix[..m] == items[..m];
      AsWrittenAbortsAt(prefix, m, oracle, table);
      RunAsWrittenAborted(items, oracle, table);
    }
  }

  lemma RunAsWrittenAborted(items: seq<Appointment>, oracle: nat -> Attempt, table: Notifications.Table)
    requires items != [] && RunAsWritten(items[..|items| - 1], oracle, table).aborted
    ensures RunAsWritten(items, oracle, table) == RunAsWritten(items[..|items| - 1], oracle, table)
  {
  }

  lemma RunAsWrittenAbortsHere(items: seq<Appointment>, oracle: nat -> Attempt, table: Notifications.Table)
    requires items != [] && items[|items| - 1].phone.None?
    requires !RunAsWritten(items[..|items| - 1], oracle, table).aborted
    ensures RunAsWritten(items, oracle, table) == Partial(RunAsWritten(items[..|items| - 1], oracle, table).batch, true)
  {
  }

  /** When nothing before the last item aborted and it has a phone, both loops take the same step. */
  lemma RunAsWrittenStep(items: seq<Appointment>, oracle: nat -> Attempt, table: Notifications.Table)
    requires items != [] && items[|items| - 1].phone.Some?
    requires !RunAsWritten(items[..|items| - 1], oracle, table).aborted
    requires RunAsWritten(items[..|items| - 1], oracle, table).batch == Run(items[..|items| - 1], oracle, table)
    ensures RunAsWritten(items, oracle, table) == Partial(Run(items, oracle, table), false)
  {
  }

  /**
   * A NULL phone in front of a deliverable appointment: the isolated loop still delivers the
   * second one; the loop as written never sends it and leaves it unrecorded.
   */
  lemma MissingPhoneStarvesLaterItems(first: Appointment, second: Appointment, oracle: nat -> Attempt,
                                      table: Notifications.Table)
    requires first.phone.None? && second.phone.Some?
    requires oracle(1).sendOk && oracle(1).writeOk
    requires !Notifications.SentFor(table, second.id)
    ensures Run([first, second], oracle, table).outcomes[1] == Delivered
    ensures Notifications.SentFor(Run([first, second], oracle, table).table, second.id)
    ensures RunAsWritten([first, second], oracle, table).aborted
    ensures RunAsWritten([first, second], oracle, table).batch.sends == []
    ensures !Notifications.SentFor(RunAsWritten([first, second], oracle, table).batch.table, second.id)
  {
    var items := [first, second];
    assert items[..1] == [first];
    assert [first][..0] == [];
    assert RunAsWritten([first], oracle, table) == Partial(Batch([], [], table), true);
    assert RunAsWritten(items, oracle, table) == Partial(Batch([], [], table), true);
    RunIsolatesFailures(items, oracle, table);
    RunRecordsOnlyDeliveries(items, oracle, table);
    assert DeliveredId(items, Run(items, oracle, table).outcomes, second.id);
  }
}
