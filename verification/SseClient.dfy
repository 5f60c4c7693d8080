/** The console's shared state and handlers, over the browser's event sources and timers
  * (examples/external-console/app.js, lines 177-195 and 443-527). */
module SseClient {
  import opened SseModel

  datatype ReadyState = CONNECTING | OPEN | CLOSED

  /** A browser event source, with which of its handlers are set. */
  class EventSource {
    const since: string
    var readyState: ReadyState
    var onopen: bool
    var onmessage: bool
    var onerror: bool

    constructor (since: string)
      ensures this.since == since && readyState == CONNECTING && !onopen && !onmessage && !onerror
    {
      this.since := since;
      readyState := CONNECTING;
      onopen, onmessage, onerror := false, false, false;
    }

    method Close()
      modifies this`readyState
      ensures readyState == CLOSED
    {
      readyState := CLOSED;
    }
  }

  class Client {
    // The page's state object.
    var sse: EventSource?
    var sseStatus: Status
    var reconnectTimer: nat // 0 stands for null: timer ids are positive
    var reconnectDelay: nat
    var lastEventId: string // "" stands for null
    var events: seq<Row>
    var signedIn: bool

    // The browser's side: the timers still to fire, and every source ever created.
    var pending: set<nat>
    var lastTimer: nat
    ghost var sources: set<EventSource>

    /** A source is attached when some handler of it is set. */
    static predicate Attached(es: EventSource)
      reads es
    {
      es.onopen || es.onmessage || es.onerror
    }

    ghost predicate Valid()
      reads this, sources
    {
      && (sse != null ==> sse in sources && sse.onopen && sse.onmessage && sse.onerror)
      // at most one source has handlers: every other is detached and closed
      && (forall es :: es in sources && es != sse ==> !Attached(es) && es.readyState == CLOSED)
      // a live source excludes a pending timer, and at most one timer is pending
      && (sse != null ==> pending == {})
      && pending <= {reconnectTimer}
      && (forall t :: t in pending ==> 0 < t <= lastTimer)
      && reconnectTimer <= lastTimer
      && |events| <= MAX_EVENTS
      && BASE_DELAY <= reconnectDelay <= MAX_DELAY
    }

    /** At most one source has handlers, and while one has, no timer is pending. */
    lemma OneConnection(a: EventSource, b: EventSource)
      requires Valid() && a in sources && b in sources && Attached(a) && Attached(b)
      ensures a == b == sse && pending == {}
    {
    }

    ghost function View(): State
      reads this, sse
    {
      State(if sse != null then Live(sse.since) else if pending != {} then Waiting else Down,
            sseStatus, reconnectDelay, lastEventId, events, signedIn)
    }

    constructor ()
      ensures Valid() && View() == INITIAL && sources == {}
    {
      sse, sseStatus, reconnectTimer, reconnectDelay := null, Disconnected, 0, BASE_DELAY;
      lastEventId, events, signedIn := "", [], false;
      pending, lastTimer, sources := {}, 0, {};
    }

    method ClearTimeout(timer: nat)
      modifies this`pending
      ensures pending == old(pending) - {timer}
    {
      pending := pending - {timer};
    }

    method SetTimeout() returns (timer: nat)
      modifies this`pending, this`lastTimer
      ensures timer == old(lastTimer) + 1 == lastTimer && pending == old(pending) + {timer}
    {
      lastTimer := lastTimer + 1;
      timer := lastTimer;
      pending := pending + {timer};
    }

    method DisconnectSSE(manual: bool)
      requires Valid()
      modifies this, sources
      ensures Valid() && sources == old(sources)
      ensures View() == Next(old(View()), Disconnect(manual))
    {
      if reconnectTimer != 0 {
        ClearTimeout(reconnectTimer);
        reconnectTimer := 0;
      }
      if sse != null {
        sse.onopen := false;
        sse.onerror := false;
        sse.onmessage := false;
        sse.Close();
        sse := null;
      }
      sseStatus := Disconnected;
      if manual {
        reconnectDelay := BASE_DELAY;
      }
    }

    method ConnectSSE()
      requires Valid()
      modifies this, sources
      ensures Valid() && sse != null && fresh(sse) && sources == old(sources) + {sse}
      ensures View() == Next(old(View()), Connect)
    {
      DisconnectSSE(false);
      sseStatus := Connecting;
      var es := new EventSource(lastEventId);
      sse := es;
      es.onopen := true;
      es.onmessage := true;
      es.onerror := true;
      sources := sources + {es};
    }

    /** The handlers run only for a source that has them set, and that is the current one. */
    method OnOpen(es: EventSource)
      requires Valid() && es in sources && es.onopen
      modifies this
      ensures Valid() && sources == old(sources) && es == sse
      ensures View() == Next(old(View()), Opened) && old(View()).link.Live?
    {
      sseStatus := Status.Connected;
      reconnectDelay := BASE_DELAY;
    }

    method OnMessage(es: EventSource, id: string, row: Row)
      requires Valid() && es in sources && es.onmessage
      modifies this
      ensures Valid() && sources == old(sources) && es == sse
      ensures View() == Next(old(View()), Message(id, row)) && old(View()).link.Live?
    {
      if id != "" {
        lastEventId := id;
      }
      events := events + [row];
      if |events| > MAX_EVENTS {
        events := events[|events| - MAX_EVENTS..];
      }
    }

    /** jitter is the random part of the wait, below half a second; scheduled is the wait asked for. */
    method OnError(es: EventSource, jitter: nat) returns (scheduled: nat)
      requires Valid() && es in sources && es.onerror && jitter < 500
      modifies this, sources
      ensures Valid() && sources == old(sources)
      ensures View() == Next(old(View()), Error(old(es.readyState) == CLOSED)) && old(View()).link.Live?
      ensures old(es.readyState) == CLOSED ==> scheduled == old(reconnectDelay) + jitter
    {
      scheduled := 0;
      sseStatus := Reconnecting;
      if es.readyState == CLOSED {
        DisconnectSSE(false);
        scheduled := Min(reconnectDelay, MAX_DELAY) + jitter;
        reconnectDelay := Min(reconnectDelay * 2, MAX_DELAY);
        sseStatus := Reconnecting;
        reconnectTimer := SetTimeout();
      }
    }

    /** The browser gives the source up, and reports it. */
    method Fail(es: EventSource, jitter: nat)
      requires Valid() && es in sources && es.onerror && jitter < 500
      modifies this, sources
      ensures Valid() && sources == old(sources)
      ensures View() == Next(old(View()), Error(true))
    {
      es.Close();
      var scheduled := OnError(es, jitter);
    }

    /** A pending timer fires: it leaves reconnectTimer as it was. */
    method TimerFired(timer: nat)
      requires Valid() && timer in pending
      modifies this, sources
      ensures Valid() && old(sources) <= sources && fresh(sources - old(sources))
      ensures View() == Next(old(View()), TimerFires) && old(View()).link.Waiting?
    {
      pending := pending - {timer};
      if signedIn {
        ConnectSSE();
      }
    }

    method ClearEvents()
      requires Valid()
      modifies this
      ensures Valid() && sources == old(sources)
      ensures View() == Next(old(View()), Clear)
    {
      events := [];
    }

    method SetSignedIn(now: bool)
      requires Valid()
      modifies this
      ensures Valid() && sources == old(sources)
      ensures View() == Next(old(View()), SetUser(now))
    {
      signedIn := now;
    }
  }

  /** What the browser does with the page, one step at a time: a handler runs only while it is set,
    * and a timer fires only while it is pending. */
  method Perform(c: Client, step: Step, jitter: nat)
    requires c.Valid() && jitter < 500
    modifies c, c.sources
    ensures c.Valid() && old(c.sources) <= c.sources && fresh(c.sources - old(c.sources))
    ensures c.View() == Next(old(c.View()), step)
  {
    match step
    case Connect => c.ConnectSSE();
    case Disconnect(manual) => c.DisconnectSSE(manual);
    case Opened =>
      if c.sse != null {
        c.sse.readyState := OPEN;
        c.OnOpen(c.sse);
      }
    case Message(id, row) =>
      if c.sse != null {
        c.OnMessage(c.sse, id, row);
      }
    case Error(closed) =>
      if c.sse != null {
        if closed {
          c.Fail(c.sse, jitter);
        } else {
          c.sse.readyState := CONNECTING;
          var scheduled := c.OnError(c.sse, jitter);
        }
      }
    case TimerFires =>
      if c.pending != {} {
        var timer :| timer in c.pending;
        c.TimerFired(timer);
      }
    case Clear => c.ClearEvents();
    case SetUser(signedIn) => c.SetSignedIn(signedIn);
  }

  /** A page from its loading through any steps: the client's fields are what the state machine's
    * run says they are, so the log is the last 500 rows received and the delay the capped backoff
    * of the failures. */
  method RunPage(steps: seq<Step>, jitter: nat -> nat) returns (c: Client)
    requires forall i :: jitter(i) < 500
    ensures fresh(c) && c.Valid() && c.View() == Run(steps)
    ensures c.events == Last(MAX_EVENTS, Received(steps)) && c.lastEventId == LastId(steps)
    ensures c.reconnectDelay == Min(BASE_DELAY * Pow2(Failures(steps)), MAX_DELAY)
    ensures c.sse != null ==> LastOpening(steps) <= steps && c.sse.since == LastId(LastOpening(steps))
  {
    c := new Client();
    for i := 0 to |steps|
      invariant fresh(c) && fresh(c.sources) && c.Valid()
      invariant c.View() == Run(steps[..i])
    {
      assert steps[..i + 1][..i] == steps[..i];
      Perform(c, steps[i], jitter(i));
    }
    assert steps[..|steps|] == steps;
    LogIsTail(steps);
    DelayIsBackoff(steps);
    LastEventIdIsLast(steps);
    if c.sse != null { ResumesAfterLastId(steps); }
  }
}
