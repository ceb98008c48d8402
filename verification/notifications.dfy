/**
 * The delivery log: rows of the notification table, one per appointment,
 * and the insert-or-update that records a successful send.
 */
module Notifications {

  /** A row (agendamento_id, enviado, enviado_em); times are seconds. */
  datatype Notification = Notification(appointmentId: int, sentFlag: int, sentAt: int)

  type Table = seq<Notification>

  /** The table's unique key on the appointment id, which the upsert relies on. */
  predicate KeysUnique(t: Table) {
    forall i, j :: 0 <= i < j < |t| ==> t[i].appointmentId != t[j].appointmentId
  }

  /** Some row for the appointment says it was sent (`enviado = 1`). */
  predicate SentFor(t: Table, id: int) {
    exists n :: n in t && n.appointmentId == id && n.sentFlag == 1
  }

  /** The rows that belong to one appointment, in table order. */
  function RowsFor(t: Table, id: int): (r: seq<Notification>)
    ensures forall n :: n in r <==> n in t && n.appointmentId == id
    ensures |r| <= |t|
  {
    if t == [] then []
    else if t[0].appointmentId == id then [t[0]] + RowsFor(t[1..], id)
    else RowsFor(t[1..], id)
  }

  /**
   * `INSERT ... VALUES (id, 1, at) ON DUPLICATE KEY UPDATE enviado = 1, enviado_em = at`:
   * the row with this key is overwritten in place, or a new row is appended.
   */
  function Upsert(t: Table, id: int, at: int): (r: Table)
    ensures KeysUnique(t) ==> KeysUnique(r)
    ensures KeysUnique(t) ==> RowsFor(r, id) == [Notification(id, 1, at)]
    ensures forall k :: k != id ==> RowsFor(r, k) == RowsFor(t, k)
    ensures forall k :: SentFor(r, k) <==> k == id || SentFor(t, k)
    ensures |r| == |t| + (if RowsFor(t, id) == [] then 1 else 0)
  {
    if t == [] then [Notification(id, 1, at)]
    else if t[0].appointmentId == id then
      UpsertHit(t, id, at);
      [t[0].(sentFlag := 1, sentAt := at)] + t[1..]
    else
      var rest := Upsert(t[1..], id, at);
      UpsertMiss(t, id, at, rest);
      [t[0]] + rest
  }

  /** The upsert's contract when the first row holds the key: that row is updated in place. */
  lemma UpsertHit(t: Table, id: int, at: int)
    requires t != [] && t[0].appointmentId == id
    ensures var r := [t[0].(sentFlag := 1, sentAt := at)] + t[1..];
      && (KeysUnique(t) ==> KeysUnique(r))
      && (KeysUnique(t) ==> RowsFor(r, id) == [Notification(id, 1, at)])
      && (forall k :: k != id ==> RowsFor(r, k) == RowsFor(t, k))
      && (forall k :: SentFor(r, k) <==> k == id || SentFor(t, k))
      && |r| == |t| + (if RowsFor(t, id) == [] then 1 else 0)
  {
    var r := [t[0].(sentFlag := 1, sentAt := at)] + t[1..];
    assert t == [t[0]] + t[1..];
    SentForCons(r[0], t[1..]);
    SentForCons(t[0], t[1..]);
    if KeysUnique(t) {
      NoRowsFor(t[1..], id);
    }
  }

  /** The upsert's contract when the first row holds another key, given the contract for the rest. */
  lemma UpsertMiss(t: Table, id: int, at: int, rest: Table)
    requires t != [] && t[0].appointmentId != id
    requires KeysUnique(t[1..]) ==> KeysUnique(rest)
    requires KeysUnique(t[1..]) ==> RowsFor(rest, id) == [Notification(id, 1, at)]
    requires forall k :: k != id ==> RowsFor(rest, k) == RowsFor(t[1..], k)
    requires forall k :: SentFor(rest, k) <==> k == id || SentFor(t[1..], k)
    requires |rest| == |t[1..]| + (if RowsFor(t[1..], id) == [] then 1 else 0)
    ensures var r := [t[0]] + rest;
      && (KeysUnique(t) ==> KeysUnique(r))
      && (KeysUnique(t) ==> RowsFor(r, id) == [Notification(id, 1, at)])
      && (forall k :: k != id ==> RowsFor(r, k) == RowsFor(t, k))
      && (forall k :: SentFor(r, k) <==> k == id || SentFor(t, k))
      && |r| == |t| + (if RowsFor(t, id) == [] then 1 else 0)
  {
    MissKeepsRows(t, id, rest);
    if KeysUnique(t) {
      KeysUniqueTail(t);
      MissKeepsKeys(t, id, rest);
    }
    MissKeepsSent(t, id, rest);
  }

  /** Dropping the first row keeps the key unique. */
  lemma KeysUniqueTail(t: Table)
    requires t != [] && KeysUnique(t)
    ensures KeysUnique(t[1..])
  {
    forall i, j | 0 <= i < j < |t[1..]|
      ensures t[1..][i].appointmentId != t[1..][j].appointmentId
    {
      assert t[1..][i] == t[i + 1] && t[1..][j] == t[j + 1];
    }
  }

  /** Rows of other keys are those of the tail, plus the unchanged head. */
  lemma MissKeepsRows(t: Table, id: int, rest: Table)
    requires t != []
    requires forall k :: k != id ==> RowsFor(rest, k) == RowsFor(t[1..], k)
    ensures forall k :: k != id ==> RowsFor([t[0]] + rest, k) == RowsFor(t, k)
    ensures id != t[0].appointmentId ==>
      RowsFor([t[0]] + rest, id) == RowsFor(rest, id) && RowsFor(t, id) == RowsFor(t[1..], id)
  {
    var r := [t[0]] + rest;
    assert r[0] == t[0] && r[1..] == rest;
  }

  /** Sent flags of the tail carry over once the unchanged head is put back. */
  lemma MissKeepsSent(t: Table, id: int, rest: Table)
    requires t != []
    requires forall k :: SentFor(rest, k) <==> k == id || SentFor(t[1..], k)
    ensures forall k :: SentFor([t[0]] + rest, k) <==> k == id || SentFor(t, k)
  {
    assert t == [t[0]] + t[1..];
    SentForCons(t[0], rest);
    SentForCons(t[0], t[1..]);
  }

  /** The head's key cannot reappear in an upsert of the tail on another key. */
  lemma MissKeepsKeys(t: Table, id: int, rest: Table)
    requires t != [] && t[0].appointmentId != id && KeysUnique(t)
    requires KeysUnique(rest)
    requires forall k :: k != id ==> RowsFor(rest, k) == RowsFor(t[1..], k)
    ensures KeysUnique([t[0]] + rest)
  {
    forall n | n in rest
      ensures n.appointmentId != t[0].appointmentId
    {
      var k := n.appointmentId;
      if k != id {
        assert n in RowsFor(rest, k);
        var m :| 0 <= m < |t[1..]| && t[1..][m] == n;
        assert t[m + 1] == n;
      }
    }
    var r := [t[0]] + rest;
    forall i, j | 0 <= i < j < |r|
      ensures r[i].appointmentId != r[j].appointmentId
    {
      assert r[j] == rest[j - 1] && rest[j - 1] in rest;
      if i > 0 {
        assert r[i] == rest[i - 1];
      }
    }
  }

  lemma SentForCons(n: Notification, t: Table)
    ensures forall k :: SentFor([n] + t, k) <==> (n.appointmentId == k && n.sentFlag == 1) || SentFor(t, k)
  {
    forall k | SentFor([n] + t, k)
      ensures (n.appointmentId == k && n.sentFlag == 1) || SentFor(t, k)
    {
      var m :| m in [n] + t && m.appointmentId == k && m.sentFlag == 1;
      if m != n {
        assert m in t;
      }
    }
    forall k | SentFor(t, k)
      ensures SentFor([n] + t, k)
    {
      var m :| m in t && m.appointmentId == k && m.sentFlag == 1;
      assert m in [n] + t;
    }
    forall k | n.appointmentId == k && n.sentFlag == 1
      ensures SentFor([n] + t, k)
    {
      assert n in [n] + t;
    }
  }

  lemma NoRowsFor(t: Table, id: int)
    requires forall i :: 0 <= i < |t| ==> t[i].appointmentId != id
    ensures RowsFor(t, id) == []
  {
  }

  /** A row without its timestamp: what `NOT EXISTS (... enviado = 1)` can observe. */
  datatype Flag = Flag(appointmentId: int, sentFlag: int)

  function Flags(t: Table): (r: seq<Flag>)
    ensures |r| == |t|
    ensures forall i :: 0 <= i < |t| ==> r[i] == Flag(t[i].appointmentId, t[i].sentFlag)
  {
    seq(|t|, i requires 0 <= i < |t| => Flag(t[i].appointmentId, t[i].sentFlag))
  }

  /** A second upsert for the same key only moves the timestamp. */
  lemma {:induction false} UpsertTwice(t: Table, id: int, first: int, second: int)
    ensures Upsert(Upsert(t, id, first), id, second) == Upsert(t, id, second)
  {
    if t != [] && t[0].appointmentId != id {
      UpsertTwice(t[1..], id, first, second);
      assert Upsert(t, id, first)[1..] == Upsert(t[1..], id, first);
    }
  }

  /** The ids and flags an upsert leaves do not depend on its timestamp. */
  lemma {:induction false} UpsertFlagsIgnoreTime(t: Table, id: int, first: int, second: int)
    ensures Flags(Upsert(t, id, first)) == Flags(Upsert(t, id, second))
  {
    if t != [] && t[0].appointmentId != id {
      UpsertFlagsIgnoreTime(t[1..], id, first, second);
      assert Upsert(t, id, first)[1..] == Upsert(t[1..], id, first);
      assert Upsert(t, id, second)[1..] == Upsert(t[1..], id, second);
    }
  }

  /** Recording the same appointment twice leaves the same ids and flags as recording it once. */
  lemma {:induction false} UpsertIdempotent(t: Table, id: int, first: int, second: int)
    ensures Flags(Upsert(Upsert(t, id, first), id, second)) == Flags(Upsert(t, id, first))
    ensures KeysUnique(t) ==> RowsFor(Upsert(Upsert(t, id, first), id, second), id) == [Notification(id, 1, second)]
  {
    UpsertTwice(t, id, first, second);
    UpsertFlagsIgnoreTime(t, id, first, second);
  }
}
