/**
 * The eligibility query of a polling cycle: appointments still booked, due
 * between one and twenty-six hours from now, with no sent notification,
 * in ascending order of their time.
 */
module Eligibility {
  import opened Wrappers
  import Notifications

  /** Times are seconds, the resolution of a MySQL DATETIME and of NOW(). */
  const Hour: int := 3600

  /** The status value of an appointment that is still booked. */
  const Booked: string := "agendado"

  /** A row of the appointments table; the phone column may be NULL. */
  datatype Appointment = Appointment(
    id: int,
    clientName: string,
    scheduledAt: int,
    phone: Option<string>,
    status: string)

  /**
   * `data_horario BETWEEN NOW() AND NOW() + 26 HOUR AND data_horario > NOW() + 1 HOUR`,
   * with both ends of BETWEEN inclusive.
   */
  predicate InWindow(t: int, now: int) {
    now <= t <= now + 26 * Hour && t > now + Hour
  }

  /** The whole WHERE clause for one appointment. */
  predicate Eligible(a: Appointment, table: Notifications.Table, now: int) {
    && a.status == Booked
    && InWindow(a.scheduledAt, now)
    && !Notifications.SentFor(table, a.id)
  }

  /** The rows satisfying the WHERE clause, in table order. */
  function FilterEligible(s: seq<Appointment>, table: Notifications.Table, now: int): (r: seq<Appointment>)
    ensures |r| <= |s|
  {
    if s == [] then []
    else if Eligible(s[0], table, now) then [s[0]] + FilterEligible(s[1..], table, now)
    else FilterEligible(s[1..], table, now)
  }

  /** The filter keeps each eligible row as often as it occurs, and nothing else. */
  lemma {:induction false} FilterCounts(s: seq<Appointment>, table: Notifications.Table, now: int)
    ensures forall a ::
      multiset(FilterEligible(s, table, now))[a] == if Eligible(a, table, now) then multiset(s)[a] else 0
  {
    if s != [] {
      assert s == [s[0]] + s[1..];
      FilterCounts(s[1..], table, now);
    }
  }

  predicate SortedByTime(s: seq<Appointment>) {
    forall i, j :: 0 <= i < j < |s| ==> s[i].scheduledAt <= s[j].scheduledAt
  }

  /** Places a before the first appointment of a sorted sequence that is not earlier than it. */
  function Insert(a: Appointment, s: seq<Appointment>): (r: seq<Appointment>)
    requires SortedByTime(s)
    ensures SortedByTime(r)
    ensures multiset(r) == multiset(s) + multiset{a}
  {
    if s == [] || a.scheduledAt <= s[0].scheduledAt then
      SortedCons(a, s);
      [a] + s
    else
      assert s == [s[0]] + s[1..];
      var rest := Insert(a, s[1..]);
      LowerBoundOf(s[0], a, s[1..], rest);
      SortedCons(s[0], rest);
      [s[0]] + rest
  }

  /** Two appointments at the same time come out in table order. */
  lemma TiesKeepTableOrder(x: Appointment, y: Appointment)
    requires x.scheduledAt == y.scheduledAt
    ensures SortByTime([x, y]) == [x, y]
  {
    assert [x, y][1..] == [y];
    assert [y][1..] == [];
  }

  /** Prepending a lower bound keeps a sequence sorted. */
  lemma SortedCons(x: Appointment, s: seq<Appointment>)
    requires SortedByTime(s)
    requires forall y :: y in s ==> x.scheduledAt <= y.scheduledAt
    ensures SortedByTime([x] + s)
  {
    forall i, j | 0 <= i < j < |[x] + s|
      ensures ([x] + s)[i].scheduledAt <= ([x] + s)[j].scheduledAt
    {
      if i == 0 {
        assert ([x] + s)[j] == s[j - 1];
        assert s[j - 1] in s;
      }
    }
  }

  /** A bound on a and on every element of s bounds every element of a permutation of s + [a]. */
  lemma LowerBoundOf(x: Appointment, a: Appointment, s: seq<Appointment>, r: seq<Appointment>)
    requires multiset(r) == multiset(s) + multiset{a}
    requires x.scheduledAt <= a.scheduledAt
    requires forall y :: y in s ==> x.scheduledAt <= y.scheduledAt
    ensures forall y :: y in r ==> x.scheduledAt <= y.scheduledAt
  {
    forall y | y in r
      ensures x.scheduledAt <= y.scheduledAt
    {
      assert y in multiset(r);
      if y != a {
        assert y in multiset(s);
      }
    }
  }

  /** `ORDER BY data_horario ASC`, as an insertion sort. */
  function SortByTime(s: seq<Appointment>): (r: seq<Appointment>)
    ensures SortedByTime(r)
    ensures multiset(r) == multiset(s)
  {
    if s == [] then []
    else
      assert s == [s[0]] + s[1..];
      Insert(s[0], SortByTime(s[1..]))
  }

  /** The rows the query returns at time `now`. */
  function Select(appointments: seq<Appointment>, table: Notifications.Table, now: int): (r: seq<Appointment>)
    ensures SortedByTime(r)
    ensures forall a :: a in r <==> a in appointments && Eligible(a, table, now)
    ensures forall a :: multiset(r)[a] == if Eligible(a, table, now) then multiset(appointments)[a] else 0
  {
    var r := SortByTime(FilterEligible(appointments, table, now));
    FilterCounts(appointments, table, now);
    assert forall a :: a in r <==> a in multiset(r);
    assert forall a :: a in appointments <==> a in multiset(appointments);
    r
  }

  /** The two lower bounds of the WHERE clause collapse: the window is (now + 1h, now + 26h]. */
  lemma WindowBounds(t: int, now: int)
    ensures InWindow(t, now) <==> now + Hour < t <= now + 26 * Hour
  {
  }

  /**
   * Appointments at now+30min, now+2h, now+25h and now+27h, and one at now+3h
   * already notified: only the ones at now+2h and now+25h are selected, in that order.
   */
  lemma SelectExample(now: int, soon: Appointment, twoHours: Appointment, dayAhead: Appointment,
                      tooFar: Appointment, notified: Appointment)
    requires soon == Appointment(1, "Ana", now + 30 * 60, Some("11 1111-1111"), Booked)
    requires twoHours == Appointment(2, "Bruno", now + 2 * Hour, Some("11 2222-2222"), Booked)
    requires dayAhead == Appointment(3, "Carla", now + 25 * Hour, Some("11 3333-3333"), Booked)
    requires tooFar == Appointment(4, "Davi", now + 27 * Hour, Some("11 4444-4444"), Booked)
    requires notified == Appointment(5, "Elisa", now + 3 * Hour, Some("11 5555-5555"), Booked)
    ensures Select([soon, twoHours, dayAhead, tooFar, notified], [Notifications.Notification(5, 1, now)], now)
      == [twoHours, dayAhead]
  {
    var table := [Notifications.Notification(5, 1, now)];
    assert table[0] in table;
    ExampleOrder(now, table, soon, twoHours, dayAhead, tooFar, notified);
  }

  lemma ExampleOrder(now: int, table: Notifications.Table, a: Appointment, b: Appointment, c: Appointment,
                     d: Appointment, e: Appointment)
    requires !Eligible(a, table, now) && Eligible(b, table, now) && Eligible(c, table, now)
    requires !Eligible(d, table, now) && !Eligible(e, table, now)
    requires b.scheduledAt < c.scheduledAt
    ensures Select([a, b, c, d, e], table, now) == [b, c]
  {
    var all := [a, b, c, d, e];
    assert all[1..] == [b, c, d, e] && all[2..] == [c, d, e] && all[3..] == [d, e] && all[4..] == [e];
    assert FilterEligible([e], table, now) == [];
    assert FilterEligible([d, e], table, now) == [];
    assert FilterEligible([c, d, e], table, now) == [c];
    assert FilterEligible([b, c, d, e], table, now) == [b, c];
    assert FilterEligible(all, table, now) == [b, c];
    assert SortByTime([c]) == [c];
    assert [b, c][1..] == [c];
    assert SortByTime([b, c]) == Insert(b, [c]) == [b, c];
  }
}
