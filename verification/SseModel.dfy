/** The event-stream client of the external console (examples/external-console/app.js, lines
  * 443-527 and 923-926) as a state machine, and what holds over all its runs. */
module SseModel {

  /** A row of the event log; how an event is turned into one does not matter here. */
  type Row = string

  const MAX_EVENTS: nat := 500
  const BASE_DELAY: nat := 1000
  const MAX_DELAY: nat := 30000

  datatype Status = Disconnected | Connecting | Connected | Reconnecting

  /** Down: nothing is under way. Live: one source, opened to resume after an event ("" for the
    * beginning). Waiting: a reconnect timer is pending. */
  datatype Link = Down | Live(since: string) | Waiting

  datatype State = State(link: Link, status: Status, delay: nat, lastEventId: string, log: seq<Row>, signedIn: bool)

  const INITIAL := State(Down, Disconnected, BASE_DELAY, "", [], false)

  /** What can happen. An error is closed when the browser has given the source up. */
  datatype Step =
    | Connect
    | Disconnect(manual: bool)
    | Opened
    | Message(id: string, row: Row)
    | Error(closed: bool)
    | TimerFires
    | Clear
    | SetUser(signedIn: bool)

  function Min(a: nat, b: nat): nat { if a < b then a else b }

  function Last(n: nat, rows: seq<Row>): seq<Row> {
    if |rows| <= n then rows else rows[|rows| - n..]
  }

  function Dropped(s: State, manual: bool): State {
    s.(link := Down, status := Disconnected, delay := if manual then BASE_DELAY else s.delay)
  }

  function Dialled(s: State): State { s.(link := Live(s.lastEventId), status := Connecting) }

  /** One step. Events of a source without handlers, and timers that are not pending, do nothing. */
  function Next(s: State, step: Step): State {
    match step
    case Connect => Dialled(s)
    case Disconnect(manual) => Dropped(s, manual)
    case Opened => if s.link.Live? then s.(status := Status.Connected, delay := BASE_DELAY) else s
    case Message(id, row) =>
      if s.link.Live? then
        s.(lastEventId := if id != "" then id else s.lastEventId, log := Last(MAX_EVENTS, s.log + [row]))
      else s
    case Error(closed) =>
      if !s.link.Live? then s
      else if closed then s.(link := Waiting, status := Reconnecting, delay := Min(s.delay * 2, MAX_DELAY))
      else s.(status := Reconnecting)
    case TimerFires => if !s.link.Waiting? then s else if s.signedIn then Dialled(s) else s.(link := Down)
    case Clear => s.(log := [])
    case SetUser(signedIn) => s.(signedIn := signedIn)
  }

  function Run(steps: seq<Step>): State {
    if steps == [] then INITIAL else Next(Run(steps[..|steps| - 1]), steps[|steps| - 1])
  }

  // ---- histories -------------------------------------------------------------

  /** The rows delivered since the log was last cleared, all of them. */
  ghost function Received(steps: seq<Step>): seq<Row> {
    if steps == [] then []
    else
      var before, step := steps[..|steps| - 1], steps[|steps| - 1];
      if step.Clear? then []
      else if step.Message? && Run(before).link.Live? then Received(before) + [step.row]
      else Received(before)
  }

  /** The closed errors since the last open or manual disconnect. */
  ghost function Failures(steps: seq<Step>): nat {
    if steps == [] then 0
    else
      var before, step := steps[..|steps| - 1], steps[|steps| - 1];
      if step == Disconnect(true) || (step.Opened? && Run(before).link.Live?) then 0
      else if step == Error(true) && Run(before).link.Live? then Failures(before) + 1
      else Failures(before)
  }

  /** The last non-empty id ever delivered. */
  ghost function LastId(steps: seq<Step>): string {
    if steps == [] then ""
    else
      var before, step := steps[..|steps| - 1], steps[|steps| - 1];
      if step.Message? && step.id != "" && Run(before).link.Live? then step.id else LastId(before)
  }

  /** The steps up to and including the last that opened a source. */
  ghost function LastOpening(steps: seq<Step>): seq<Step> {
    if steps == [] then []
    else
      var before, step := steps[..|steps| - 1], steps[|steps| - 1];
      if step.Connect? || (step.TimerFires? && Run(before).link.Waiting? && Run(before).signedIn) then steps
      else LastOpening(before)
  }

  function Pow2(k: nat): nat { if k == 0 then 1 else 2 * Pow2(k - 1) }

  // ---- what every run keeps --------------------------------------------------

  lemma LastOfLast(n: nat, rows: seq<Row>, row: Row)
    ensures Last(n, Last(n, rows) + [row]) == Last(n, rows + [row])
  {
  }

  /** The log is exactly the last 500 rows delivered since it was cleared. */
  lemma {:induction false} LogIsTail(steps: seq<Step>)
    ensures Run(steps).log == Last(MAX_EVENTS, Received(steps))
    decreases |steps|
  {
    if steps != [] {
      var before, step := steps[..|steps| - 1], steps[|steps| - 1];
      LogIsTail(before);
      if step.Message? { LastOfLast(MAX_EVENTS, Received(before), step.row); }
    }
  }

  /** Capped exponential backoff: after k closed errors the delay is min(1000 * 2^k, 30000). */
  lemma {:induction false} DelayIsBackoff(steps: seq<Step>)
    ensures Run(steps).delay == Min(BASE_DELAY * Pow2(Failures(steps)), MAX_DELAY)
    decreases |steps|
  {
    if steps != [] {
      var before, step := steps[..|steps| - 1], steps[|steps| - 1];
      DelayIsBackoff(before);
      assert Pow2(Failures(before) + 1) == 2 * Pow2(Failures(before));
    }
  }

  lemma {:induction false} LastEventIdIsLast(steps: seq<Step>)
    ensures Run(steps).lastEventId == LastId(steps)
    decreases |steps|
  {
    if steps != [] { LastEventIdIsLast(steps[..|steps| - 1]); }
  }

  /** A live source was opened to resume after the last id delivered before it was opened. */
  lemma {:induction false} ResumesAfterLastId(steps: seq<Step>)
    requires Run(steps).link.Live?
    ensures LastOpening(steps) != [] && LastOpening(steps) <= steps
    ensures Run(steps).link.since == LastId(LastOpening(steps))
    decreases |steps|
  {
    var before, step := steps[..|steps| - 1], steps[|steps| - 1];
    if step.Connect? || (step.TimerFires? && Run(before).link.Waiting? && Run(before).signedIn) {
      LastEventIdIsLast(before);
    } else {
      ResumesAfterLastId(before);
    }
  }

  /** What the badge says of the link. */
  ghost predicate StatusAgrees(s: State) {
    && (s.link.Live? ==> s.status != Disconnected)
    && (s.link.Waiting? ==> s.status == Reconnecting)
    && (s.link.Down? ==> s.status == Disconnected || s.status == Reconnecting)
  }

  lemma {:induction false} StatusAlwaysAgrees(steps: seq<Step>)
    ensures StatusAgrees(Run(steps))
    decreases |steps|
  {
    if steps != [] { StatusAlwaysAgrees(steps[..|steps| - 1]); }
  }

  /** The badge can be left at "reconnecting" with nothing under way, exactly by a timer that
    * fires while nobody is signed in. */
  lemma StuckReconnecting(s: State, step: Step)
    requires StatusAgrees(s) && !(s.link.Down? && s.status == Reconnecting)
    ensures var t := Next(s, step);
      t.link.Down? && t.status == Reconnecting <==> step.TimerFires? && s.link.Waiting? && !s.signedIn
  {
  }

  // ---- in numbers ------------------------------------------------------------

  /** Before the first step: nothing under way, an empty log, a delay of one second. */
  lemma Beginning()
    ensures Run([]) == State(Down, Disconnected, 1000, "", [], false)
  {
  }

  /** The log holds the last five hundred rows. */
  lemma LogInNumbers(steps: seq<Step>)
    ensures var rows := Received(steps);
      Run(steps).log == if |rows| <= 500 then rows else rows[|rows| - 500..]
  {
    LogIsTail(steps);
  }

  /** The delay is a second, doubled for each failure, and at most half a minute. */
  lemma DelayInNumbers(steps: seq<Step>)
    ensures var delay := 1000 * Pow2(Failures(steps));
      Run(steps).delay == if delay < 30000 then delay else 30000
  {
    DelayIsBackoff(steps);
  }

  lemma {:induction false} Pow2Is(k: nat)
    ensures Pow2(0) == 1 && Pow2(k + 1) == Pow2(k) + Pow2(k)
  {
  }

  /** The badge after each kind of step. */
  lemma BadgeFollows(s: State, step: Step)
    ensures step.Connect? ==> Next(s, step).status == Connecting
    ensures step.Disconnect? ==> Next(s, step).status == Disconnected
    ensures step.Opened? && s.link.Live? ==> Next(s, step).status == Status.Connected
    ensures step.Error? && s.link.Live? ==> Next(s, step).status == Reconnecting
    ensures step.TimerFires? && s.link.Waiting? ==> Next(s, step).status == if s.signedIn then Connecting else s.status
    ensures step.Message? || step.Clear? || step.SetUser? ==> Next(s, step).status == s.status
    ensures (step.Opened? || step.Error?) && !s.link.Live? ==> Next(s, step) == s
    ensures step.TimerFires? && !s.link.Waiting? ==> Next(s, step) == s
  {
  }
}
