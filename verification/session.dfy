/**
 * The connection handler: reconnect after any close that is not a logout, and on every
 * open run one polling cycle at once and arm a periodic timer that runs one per period.
 * The model counts calls to connect, cycles run and timers armed.
 */
module Session {
  import opened Wrappers

  /** The status code of a close caused by the account logging out (`DisconnectReason.loggedOut`). */
  const LoggedOut: int := 401

  /**
   * Where the single session stands; the code keeps this implicit in which handler runs next.
   * `Ended` is the terminal phase after a logout close; a recoverable close goes straight
   * back to `Connecting`.
   */
  datatype Phase = Connecting | Open | Ended

  /**
   * What reaches the handler: a `connection.update` with `connection` 'close' and the status
   * code of the last disconnect's error when there is one, one with 'open', any other update
   * (a QR code, 'connecting'), or one period of the five-minute timers elapsing.
   */
  datatype Event = Close(statusCode: Option<int>) | Opened | OtherUpdate | Tick

  datatype State = State(phase: Phase, connects: nat, cycles: nat, timers: nat)

  /** Module load calls connect once. */
  const Start: State := State(Connecting, 1, 0, 0)

  /** `statusCode !== DisconnectReason.loggedOut`: a missing code also reconnects. */
  predicate Recoverable(code: Option<int>) {
    code != Some(LoggedOut)
  }

  /** The handler as written: every open arms one more interval, and none is ever cleared. */
  function StepAsWritten(s: State, e: Event): State {
    match e
    case Close(code) =>
      if Recoverable(code) then s.(phase := Connecting, connects := s.connects + 1)
      else s.(phase := Ended)
    case Opened => s.(phase := Open, cycles := s.cycles + 1, timers := s.timers + 1)
    case OtherUpdate => s
    case Tick => s.(cycles := s.cycles + s.timers)
  }

  /** The handler with the periodic timer armed once, on the first open. */
  function Step(s: State, e: Event): State {
    match e
    case Opened => s.(phase := Open, cycles := s.cycles + 1, timers := if s.timers == 0 then 1 else s.timers)
    case _ => StepAsWritten(s, e)
  }

  function ReplayAsWritten(events: seq<Event>): State
    decreases |events|
  {
    if events == [] then Start
    else StepAsWritten(ReplayAsWritten(events[..|events| - 1]), events[|events| - 1])
  }

  function Replay(events: seq<Event>): State
    decreases |events|
  {
    if events == [] then Start
    else Step(Replay(events[..|events| - 1]), events[|events| - 1])
  }

  function CountOpens(events: seq<Event>): (n: nat)
    ensures n <= |events|
  {
    if events == [] then 0
    else CountOpens(events[..|events| - 1]) + (if events[|events| - 1].Opened? then 1 else 0)
  }

  function CountRecoverableCloses(events: seq<Event>): (n: nat)
    ensures n <= |events|
  {
    if events == [] then 0
    else
      var e := events[|events| - 1];
      CountRecoverableCloses(events[..|events| - 1]) + (if e.Close? && Recoverable(e.statusCode) then 1 else 0)
  }

  /** Every open runs one cycle, and every tick runs one cycle per open that came before it. */
  function CyclesExpected(events: seq<Event>): nat
    decreases |events|
  {
    if events == [] then 0
    else
      var before := events[..|events| - 1];
      var e := events[|events| - 1];
      CyclesExpected(before) + (if e.Opened? then 1 else if e.Tick? then CountOpens(before) else 0)
  }

  /**
   * The handler as written, over any history: one connect at start plus exactly one per
   * recoverable close (none for a logout), one armed timer per open, and the cycles that follow.
   */
  lemma {:induction false} ReplayAsWrittenCounts(events: seq<Event>)
    ensures ReplayAsWritten(events).connects == 1 + CountRecoverableCloses(events)
    ensures ReplayAsWritten(events).timers == CountOpens(events)
    ensures ReplayAsWritten(events).cycles == CyclesExpected(events)
    decreases |events|
  {
    if events != [] {
      ReplayAsWrittenCounts(events[..|events| - 1]);
    }
  }

  /**
   * The reconnect decision: a close leads to exactly one new connect unless its status
   * code is the logout code, which leads to none and a terminal phase.
   */
  lemma ClosePolicy(events: seq<Event>, code: Option<int>)
    ensures var s := ReplayAsWritten(events);
      var t := ReplayAsWritten(events + [Close(code)]);
      && (code != Some(LoggedOut) ==> t.connects == s.connects + 1 && t.phase == Connecting)
      && (code == Some(LoggedOut) ==> t.connects == s.connects && t.phase == Ended)
      && t.cycles == s.cycles && t.timers == s.timers
  {
    assert (events + [Close(code)])[..|events|] == events;
  }

  /** An open runs one cycle at once and leaves one more timer armed than before. */
  lemma OpenArmsAnotherTimer(events: seq<Event>)
    ensures var s := ReplayAsWritten(events);
      var t := ReplayAsWritten(events + [Opened]);
      t.cycles == s.cycles + 1 && t.timers == s.timers + 1 && t.connects == s.connects && t.phase == Open
  {
    assert (events + [Opened])[..|events|] == events;
  }

  /** With the timer armed once, at most one interval exists and a tick runs at most one cycle. */
  lemma {:induction false} ReplayArmsOneTimer(events: seq<Event>)
    ensures Replay(events).timers == if CountOpens(events) == 0 then 0 else 1
    ensures Replay(events).connects == 1 + CountRecoverableCloses(events)
    decreases |events|
  {
    if events != [] {
      ReplayArmsOneTimer(events[..|events| - 1]);
    }
  }

  /**
   * Open, a recoverable close, open again, one period: the handler as written has two
   * intervals armed and runs two cycles for that period; with the timer armed once it runs one.
   */
  lemma RepeatedOpensDoubleTheCycles(events: seq<Event>)
    requires events == [Opened, Close(None), Opened, Tick]
    ensures ReplayAsWritten(events).timers == 2
    ensures ReplayAsWritten(events).cycles == 4
    ensures Replay(events).timers == 1
    ensures Replay(events).cycles == 3
  {
    assert events[..3] == [Opened, Close(None), Opened];
    assert events[..3][..2] == [Opened, Close(None)];
    assert events[..3][..2][..1] == [Opened];
    assert [Opened][..0] == [];
    assert ReplayAsWritten([Opened]) == State(Open, 1, 1, 1);
    assert ReplayAsWritten([Opened, Close(None)]) == State(Connecting, 2, 1, 1);
    assert ReplayAsWritten([Opened, Close(None), Opened]) == State(Open, 2, 2, 2);
    assert Replay([Opened]) == State(Open, 1, 1, 1);
    assert Replay([Opened, Close(None)]) == State(Connecting, 2, 1, 1);
    assert Replay([Opened, Close(None), Opened]) == State(Open, 2, 2, 1);
  }
}
