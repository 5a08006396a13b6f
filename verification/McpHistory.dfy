/** What the Host's state says about the messages, timers and clicks of the whole run that led to it. */
module McpHistory {
  import opened Options
  import opened McpHost

  /** The Host just before event k of a run from a fresh page. */
  ghost function At(origin: string, events: seq<Event>, k: nat): Host
    requires k <= |events|
  {
    Run(Initial(origin), events[..k])
  }

  lemma StepAt(origin: string, events: seq<Event>, k: nat)
    requires k < |events|
    ensures At(origin, events, k + 1) == Step(At(origin, events, k), events[k])
    ensures TimersFit(At(origin, events, k)) && TimersFit(At(origin, events, k + 1))
  {
    var front := events[..k + 1];
    assert front[..|front| - 1] == events[..k] && front[|front| - 1] == events[k];
    EveryRunFits(origin, events[..k]);
    EveryRunFits(origin, events[..k + 1]);
  }

  /* ---- who is heard ---- */

  /** A JSON-RPC message from the View's own window and origin. */
  ghost predicate Hears(h: Host, raw: Raw) {
    h.frame == Frame(raw.source) && raw.origin == h.origin && raw.message.Some?
  }

  /** Only such a message can change more than the log; one from another window changes nothing at all. */
  lemma HearsExactly(h: Host, raw: Raw)
    ensures Accepts(h, raw) <==> Hears(h, raw)
    ensures h.frame != Frame(raw.source) ==> Step(h, Deliver(raw)) == h
    ensures h.frame == Frame(raw.source) && !Hears(h, raw) ==> Step(h, Deliver(raw)) == Log(h, Rejected)
  {
  }

  ghost predicate Attaches(events: seq<Event>, i: nat, k: nat, frame: Frame) {
    i < k <= |events| && events[i] == Attach(frame) && forall j :: i < j < k ==> !events[j].Attach?
  }

  lemma FrameStays(h: Host, e: Event)
    ensures Step(h, e).frame == if e.Attach? then e.frame else h.frame
  {
    StepSummary(h, e);
  }

  /** The frame is the one attached last, if any was. */
  lemma {:induction false} FrameExactly(origin: string, events: seq<Event>, k: nat)
    requires k <= |events|
    ensures var frame := At(origin, events, k).frame;
            (exists i: nat :: Attaches(events, i, k, frame))
            || (frame == NoFrame && forall j :: 0 <= j < k ==> !events[j].Attach?)
  {
    if k > 0 {
      var m := k - 1;
      var frame := At(origin, events, m).frame;
      FrameExactly(origin, events, m);
      StepAt(origin, events, m);
      FrameStays(At(origin, events, m), events[m]);
      if events[m].Attach? {
        assert Attaches(events, m, k, events[m].frame);
      } else if i: nat :| Attaches(events, i, m, frame) {
        assert Attaches(events, i, k, frame);
      }
    }
  }

  ghost predicate Restarts(events: seq<Event>, i: nat, k: nat, origin: string) {
    i < k <= |events| && events[i] == Restart(origin) && forall j :: i < j < k ==> !events[j].Restart?
  }

  lemma OriginStays(h: Host, e: Event)
    ensures Step(h, e).origin == if e.Restart? then e.origin else h.origin
  {
    assert RequestTeardown(h).origin == h.origin;
    if e.Deliver? && Accepts(h, e.raw) && e.raw.message.value.Notification? {
      var asked := Log(Log(h, Incoming), Info);
      assert RequestTeardown(asked).origin == asked.origin == h.origin;
    }
  }

  /** The origin listened to is the one of the last restart, or the first one. */
  lemma {:induction false} OriginExactly(origin: string, events: seq<Event>, k: nat)
    requires k <= |events|
    ensures var now := At(origin, events, k).origin;
            (exists i: nat :: Restarts(events, i, k, now))
            || (now == origin && forall j :: 0 <= j < k ==> !events[j].Restart?)
  {
    if k > 0 {
      var m := k - 1;
      var before := At(origin, events, m).origin;
      OriginExactly(origin, events, m);
      StepAt(origin, events, m);
      OriginStays(At(origin, events, m), events[m]);
      if events[m].Restart? {
        assert Restarts(events, m, k, events[m].origin);
      } else if i: nat :| Restarts(events, i, m, before) {
        assert Restarts(events, i, k, before);
      }
    }
  }

  /* ---- the acknowledgement ---- */

  /** No session starts between events i and k. */
  ghost predicate SameSession(events: seq<Event>, i: nat, k: nat) {
    k <= |events| && forall j :: i <= j < k ==> !events[j].Restart?
  }

  /** A ready Host is told to tear down, by the button or by a View that it hears. */
  ghost predicate Told(h: Host, e: Event) {
    && h.phase == Ready
    && (e == PressTeardown
        || (e.Deliver? && Hears(h, e.raw) && e.raw.message.value.Notification?
            && e.raw.message.value.methodName == "ui/notifications/request-teardown"))
  }

  ghost predicate Begins(origin: string, events: seq<Event>, i: nat) {
    i < |events| && Told(At(origin, events, i), events[i])
  }

  /** Event e, met in state h, ends the wait for the teardown request with that number: a response to it, which
      acknowledges it unless it carries an error, or the end of its time, which does not. */
  ghost predicate Ends(h: Host, e: Event, number: nat, timer: nat, acknowledged: bool) {
    || (e.Deliver? && Hears(h, e.raw)
        && e.raw.message.value == Response(Text("host-teardown-" + Decimal(number)), !acknowledged))
    || (e == Fire(timer) && !acknowledged)
  }

  /** Event j is the first to end the wait that event i began. */
  ghost predicate EndsAt(origin: string, events: seq<Event>, i: nat, j: nat, acknowledged: bool) {
    && i < j < |events|
    && var number, timer := At(origin, events, i).nextRequestId, At(origin, events, i).nextTimer;
       && Ends(At(origin, events, j), events[j], number, timer, acknowledged)
       && Waits(origin, events, i, j)
  }

  /** No event between i and k ends the wait that event i began. */
  ghost predicate Waits(origin: string, events: seq<Event>, i: nat, k: nat)
    requires i < |events| && k <= |events|
  {
    var number, timer := At(origin, events, i).nextRequestId, At(origin, events, i).nextTimer;
    forall j, answer :: i < j < k ==> !Ends(At(origin, events, j), events[j], number, timer, answer)
  }

  /** Waiting for the response to the teardown request of that number, with that timer running. */
  ghost predicate Waiting(h: Host, number: nat, timer: nat) {
    h.phase == TearingDown && h.acknowledged == None
      && h.waiter == Some(Waiter("host-teardown-" + Decimal(number), timer))
  }

  lemma ToldExactly(h: Host, e: Event)
    ensures Told(h, e) <==> StartsTeardown(h, e)
  {
    if e.Deliver? {
      HearsExactly(h, e.raw);
    }
  }

  lemma AskedWaits(h: Host)
    requires h.phase == Ready
    ensures Waiting(RequestTeardown(h), h.nextRequestId, h.nextTimer)
  {
  }

  lemma ToldStartsWaiting(h: Host, e: Event)
    requires Told(h, e)
    ensures Waiting(Step(h, e), h.nextRequestId, h.nextTimer)
  {
    ToldExactly(h, e);
    NamesDiffer();
    AskedWaits(h);
    AskedWaits(Log(Log(h, Incoming), Info));
  }

  lemma WaitingStep(h: Host, e: Event, number: nat, timer: nat)
    requires TimersFit(h) && Waiting(h, number, timer) && !e.Restart?
    requires forall answer :: !Ends(h, e, number, timer, answer)
    ensures Waiting(Step(h, e), number, timer)
  {
    if e.Deliver? {
      HearsExactly(h, e.raw);
      if Hears(h, e.raw) && e.raw.message.value.Response? {
        assert !Ends(h, e, number, timer, !e.raw.message.value.isError);
      }
    } else if e.Fire? {
      assert !Ends(h, e, number, timer, false);
    }
  }

  lemma EndingStep(h: Host, e: Event, number: nat, timer: nat, acknowledged: bool)
    requires TimersFit(h) && Waiting(h, number, timer) && Ends(h, e, number, timer, acknowledged)
    ensures Step(h, e).phase == TornDown && Step(h, e).acknowledged == Some(acknowledged)
  {
    if e.Deliver? {
      HearsExactly(h, e.raw);
    }
  }

  /** Once torn down, nothing but a restart touches the phase or the verdict. */
  lemma TornDownStays(h: Host, e: Event)
    requires TimersFit(h) && h.phase == TornDown && !e.Restart?
    ensures Step(h, e).phase == TornDown && Step(h, e).acknowledged == h.acknowledged
  {
  }

  /** Before a teardown, no step sets the verdict. */
  lemma QuietStep(h: Host, e: Event)
    requires TimersFit(h) && h.phase !in {TearingDown, TornDown} && !Told(h, e)
    ensures Step(h, e).phase !in {TearingDown, TornDown}
    ensures Step(h, e).acknowledged == if e.Restart? then None else h.acknowledged
  {
    ToldExactly(h, e);
    StepSummary(h, e);
  }

  lemma {:induction false} WaitOf(origin: string, events: seq<Event>, i: nat, k: nat)
    requires Begins(origin, events, i) && i < k && SameSession(events, i, k) && Waits(origin, events, i, k)
    ensures Waiting(At(origin, events, k), At(origin, events, i).nextRequestId, At(origin, events, i).nextTimer)
    decreases k
  {
    var number, timer := At(origin, events, i).nextRequestId, At(origin, events, i).nextTimer;
    var m := k - 1;
    StepAt(origin, events, m);
    if m == i {
      ToldStartsWaiting(At(origin, events, i), events[i]);
    } else {
      WaitOf(origin, events, i, m);
      WaitingStep(At(origin, events, m), events[m], number, timer);
    }
  }

  lemma {:induction false} VerdictOf(origin: string, events: seq<Event>, i: nat, j: nat, answer: bool, k: nat)
    requires Begins(origin, events, i) && EndsAt(origin, events, i, j, answer) && j < k && SameSession(events, i, k)
    ensures At(origin, events, k).phase == TornDown && At(origin, events, k).acknowledged == Some(answer)
    decreases k
  {
    StepAt(origin, events, k - 1);
    if k == j + 1 {
      WaitOf(origin, events, i, j);
      EndingStep(At(origin, events, j), events[j], At(origin, events, i).nextRequestId,
                 At(origin, events, i).nextTimer, answer);
    } else {
      VerdictOf(origin, events, i, j, answer, k - 1);
      TornDownStays(At(origin, events, k - 1), events[k - 1]);
    }
  }

  /** The wait that event i began has ended by k: here is how. */
  lemma {:induction false} EndOf(origin: string, events: seq<Event>, i: nat, k: nat) returns (j: nat, answer: bool)
    requires i < |events| && k <= |events| && !Waits(origin, events, i, k)
    ensures j < k && EndsAt(origin, events, i, j, answer)
    decreases k
  {
    var number, timer := At(origin, events, i).nextRequestId, At(origin, events, i).nextTimer;
    if Waits(origin, events, i, k - 1) {
      j := k - 1;
      answer :| Ends(At(origin, events, j), events[j], number, timer, answer);
    } else {
      j, answer := EndOf(origin, events, i, k - 1);
    }
  }

  ghost predicate BeganInSession(origin: string, events: seq<Event>, i: nat, k: nat) {
    i < k && Begins(origin, events, i) && SameSession(events, i, k)
  }

  /** In a session in which no teardown began, there is none going on and no verdict. */
  lemma {:induction false} NoneBegan(origin: string, events: seq<Event>, k: nat)
    requires k <= |events| && forall i: nat :: !BeganInSession(origin, events, i, k)
    ensures At(origin, events, k).phase !in {TearingDown, TornDown} && At(origin, events, k).acknowledged == None
    decreases k
  {
    if k > 0 {
      var m := k - 1;
      StepAt(origin, events, m);
      if !events[m].Restart? {
        forall i: nat ensures !BeganInSession(origin, events, i, m) {
          assert !BeganInSession(origin, events, i, k);
        }
        assert !BeganInSession(origin, events, m, k);
        NoneBegan(origin, events, m);
        QuietStep(At(origin, events, m), events[m]);
      }
    }
  }

  /** The verdict on a teardown, over every run: there is one exactly when a teardown began in this session and its
      wait has ended, and it says whether the first thing to end the wait was a response without an error; a wait that
      ran out of time and one that met an error both count as unacknowledged. */
  lemma AcknowledgedExactly(origin: string, events: seq<Event>, acknowledged: bool)
    ensures var h, n := At(origin, events, |events|), |events|;
            h.acknowledged == Some(acknowledged)
            <==> exists i: nat, j: nat ::
                   BeganInSession(origin, events, i, n) && EndsAt(origin, events, i, j, acknowledged)
  {
    var n := |events|;
    if i: nat :| BeganInSession(origin, events, i, n) {
      if Waits(origin, events, i, n) {
        WaitOf(origin, events, i, n);
      } else {
        var j, answer := EndOf(origin, events, i, n);
        VerdictOf(origin, events, i, j, answer, n);
      }
    } else {
      NoneBegan(origin, events, n);
    }
    if i: nat, j: nat :| BeganInSession(origin, events, i, n) && EndsAt(origin, events, i, j, acknowledged) {
      VerdictOf(origin, events, i, j, acknowledged, n);
    }
  }

  /** The two phases of a teardown: the Host is tearing down exactly while a wait begun in this session lasts, and torn
      down exactly when there is a verdict. */
  lemma TeardownPhasesExactly(origin: string, events: seq<Event>)
    ensures var h, n := At(origin, events, |events|), |events|;
            && (h.phase == TearingDown
                <==> exists i: nat :: BeganInSession(origin, events, i, n) && Waits(origin, events, i, n))
            && (h.phase == TornDown <==> h.acknowledged.Some?)
  {
    var n := |events|;
    if i: nat :| BeganInSession(origin, events, i, n) && Waits(origin, events, i, n) {
      WaitOf(origin, events, i, n);
    } else if i: nat :| BeganInSession(origin, events, i, n) {
      var j, answer := EndOf(origin, events, i, n);
      VerdictOf(origin, events, i, j, answer, n);
    } else {
      NoneBegan(origin, events, n);
    }
  }

  /* ---- the size ---- */

  /** The View is heard to report that size. */
  ghost predicate Reports(h: Host, e: Event, size: Size) {
    e.Deliver? && Hears(h, e.raw)
    && e.raw.message.value == Notification("ui/notifications/size-changed", Some(size))
  }

  lemma SizeStep(h: Host, e: Event)
    ensures e.Restart? ==> Step(h, e).size == None
    ensures forall size :: Reports(h, e, size) ==> Step(h, e).size == Some(size)
    ensures !e.Restart? && (forall size :: !Reports(h, e, size)) ==> Step(h, e).size == h.size
  {
    NamesDiffer();
    if e.Deliver? {
      HearsExactly(h, e.raw);
      if Accepts(h, e.raw) && e.raw.message.value.Notification? {
        SizeOfNotification(h, e.raw.message.value.methodName, e.raw.message.value.size);
        if e.raw.message.value.methodName == SIZE_CHANGED && e.raw.message.value.size.Some? {
          assert Reports(h, e, e.raw.message.value.size.value);
        }
      }
    }
  }

  lemma SizeOfNotification(h: Host, name: string, size: Option<Size>)
    ensures OnNotification(h, name, size).size == if name == SIZE_CHANGED && size.Some? then size else h.size
  {
    NamesDiffer();
  }

  /** Event i reported that size, and neither a report nor a restart has come since. */
  ghost predicate LastReport(origin: string, events: seq<Event>, i: nat, k: nat, size: Size) {
    && i < k <= |events| && Reports(At(origin, events, i), events[i], size)
    && SameSession(events, i, k)
    && forall j, other :: i < j < k ==> !Reports(At(origin, events, j), events[j], other)
  }

  lemma ReportStays(origin: string, events: seq<Event>, m: nat, k: nat, size: Size)
    requires k == m + 1 <= |events| && !events[m].Restart?
    requires forall other :: !Reports(At(origin, events, m), events[m], other)
    ensures (exists i: nat :: LastReport(origin, events, i, k, size))
            <==> exists i: nat :: LastReport(origin, events, i, m, size)
  {
    if i: nat :| LastReport(origin, events, i, k, size) {
      assert !Reports(At(origin, events, m), events[m], size);
      assert LastReport(origin, events, i, m, size);
    }
    if i: nat :| LastReport(origin, events, i, m, size) {
      assert LastReport(origin, events, i, k, size);
    }
  }

  /** The size shown is the last one the View reported in this session, if any. */
  lemma {:induction false} SizeExactly(origin: string, events: seq<Event>, k: nat, size: Size)
    requires k <= |events|
    ensures At(origin, events, k).size == Some(size) <==> exists i: nat :: LastReport(origin, events, i, k, size)
    decreases k
  {
    if k > 0 {
      var m := k - 1;
      StepAt(origin, events, m);
      SizeStep(At(origin, events, m), events[m]);
      SizeExactly(origin, events, m, size);
      if !events[m].Restart? {
        if other :| Reports(At(origin, events, m), events[m], other) {
          assert LastReport(origin, events, m, k, other);
        } else {
          ReportStays(origin, events, m, k, size);
        }
      }
    }
  }

  /* ---- one step, by what is heard ---- */

  ghost predicate Requests(h: Host, e: Event, name: string) {
    e.Deliver? && Hears(h, e.raw) && e.raw.message.value.Request? && e.raw.message.value.methodName == name
  }

  ghost predicate Notifies(h: Host, e: Event, name: string) {
    e.Deliver? && Hears(h, e.raw) && e.raw.message.value.Notification? && e.raw.message.value.methodName == name
  }

  /** The time for `initialized` runs out. */
  ghost predicate HandshakeExpires(h: Host, e: Event) {
    h.initializedTimer.Some? && e == Fire(h.initializedTimer.value)
  }

  /** When each phase of the handshake is entered, kept and left. */
  lemma PhasesExactly(h: Host, e: Event)
    requires TimersFit(h)
    ensures var next := Step(h, e).phase;
            && (next == AwaitingInitialize
                <==> e.Restart? || (h.phase == AwaitingInitialize && !Requests(h, e, "ui/initialize")))
            && (next == AwaitingInitialized
                <==> (h.phase == AwaitingInitialize && Requests(h, e, "ui/initialize"))
                     || (h.phase == AwaitingInitialized && !e.Restart? && !HandshakeExpires(h, e)
                         && !Notifies(h, e, "ui/notifications/initialized")))
            && (next == Ready
                <==> (h.phase == AwaitingInitialized && Notifies(h, e, "ui/notifications/initialized"))
                     || (h.phase == Ready && !e.Restart? && !Told(h, e)))
            && (next == TimedOut
                <==> (h.phase == AwaitingInitialized && HandshakeExpires(h, e)) || (h.phase == TimedOut && !e.Restart?))
  {
    StepSummary(h, e);
    ToldExactly(h, e);
    if e.Deliver? {
      HearsExactly(h, e.raw);
    }
  }

  /** The handshake's timer starts with the reply to `initialize`, under a number no armed timer has, and stays the
      same until it expires or `initialized` comes. */
  lemma HandshakeTimerExactly(h: Host, e: Event)
    requires TimersFit(h) && Step(h, e).phase == AwaitingInitialized
    ensures Step(h, e).initializedTimer
            == if h.phase == AwaitingInitialized then h.initializedTimer else Some(h.nextTimer)
    ensures h.nextTimer !in h.armed
  {
    PhasesExactly(h, e);
    if e.Deliver? {
      HearsExactly(h, e.raw);
    }
  }

  /** Everything that is posted: to a View with a window, one reply for each request heard and one request for each
      teardown begun. */
  lemma PostsExactly(h: Host, e: Event)
    ensures var posted, window := Step(h, e).posted, h.frame.Frame? && h.frame.window.Some?;
            if window && e.Deliver? && Hears(h, e.raw) && e.raw.message.value.Request? then
              var id, name := e.raw.message.value.id, e.raw.message.value.methodName;
              posted == h.posted + [if h.phase == AwaitingInitialize && name == "ui/initialize" then Result(id)
                                    else if h.phase == Ready then MethodNotFound(id) else InvalidRequest(id)]
            else if window && Told(h, e)
              then posted == h.posted + [Teardown("host-teardown-" + Decimal(h.nextRequestId))]
            else posted == h.posted
  {
    StepSummary(h, e);
    ToldExactly(h, e);
    if e.Deliver? {
      HearsExactly(h, e.raw);
    }
  }

  /* ---- the log ---- */

  ghost function Directions(log: seq<LogEntry>): seq<Direction> {
    seq(|log|, i requires 0 <= i < |log| => log[i].direction)
  }

  /** What the log notes of a message that is heard. */
  ghost function MessageNotes(h: Host, message: Message): seq<Direction> {
    match message
    case Request(_, name) =>
      [Incoming, if h.phase == AwaitingInitialize && name == "ui/initialize" then Outgoing
                 else if h.phase == Ready then Info else Refused]
    case Notification(name, _) =>
      if name == "ui/notifications/initialized" && h.phase != AwaitingInitialized then [Incoming, Rejected]
      else if name == "ui/notifications/request-teardown" then
        [Incoming, Info] + (if h.phase == Ready then [Outgoing] else [])
      else [Incoming]
    case Response(id, _) =>
      if h.phase == TearingDown && h.nextRequestId > 0 && id == Text("host-teardown-" + Decimal(h.nextRequestId - 1))
      then [Incoming] else [Rejected]
  }

  /** What the log notes of an event: nothing of strangers, a rejection of what is not a message of the View's, an entry
      for each timer that expires and each request that is sent. */
  ghost function Notes(h: Host, e: Event): seq<Direction> {
    match e
    case Deliver(raw) =>
      if h.frame != Frame(raw.source) then [] else if Hears(h, raw) then MessageNotes(h, raw.message.value)
        else [Rejected]
    case Fire(timer) => if timer in h.armed then [Timeout] else []
    case PressTeardown => if h.phase == Ready then [Outgoing] else []
    case _ => []
  }

  /** `next` has the log of h with these entries added. */
  ghost predicate Logged(h: Host, next: Host, notes: seq<Direction>) {
    next.logId == h.logId + |notes| && Directions(next.log) == Last(Directions(h.log) + notes, 300)
  }

  lemma LogLogs(h: Host, direction: Direction)
    requires |h.log| <= 300
    ensures Logged(h, Log(h, direction), [direction]) && |Log(h, direction).log| <= 300
  {
    assert Directions(h.log + [LogEntry(h.logId + 1, direction)]) == Directions(h.log) + [direction];
  }

  lemma LastAgain(a: seq<Direction>, b: seq<Direction>, c: seq<Direction>, n: nat)
    ensures Last(Last(a + b, n) + c, n) == Last(a + (b + c), n)
  {
    var front, whole := Last(a + b, n), a + b + c;
    assert a + (b + c) == whole;
    if |a + b| > n {
      var cut := |a + b| - n;
      assert front + c == whole[cut..];
      if |c| > 0 {
        assert whole[cut..][|c|..] == whole[cut + |c|..];
      }
    }
  }

  lemma LogsTwice(h: Host, first: Direction, second: Direction)
    requires |h.log| <= 300
    ensures Logged(h, Log(Log(h, first), second), [first, second]) && |Log(Log(h, first), second).log| <= 300
  {
    LogLogs(h, first);
    LogLogs(Log(h, first), second);
    LastAgain(Directions(h.log), [first], [second], 300);
    assert [first] + [second] == [first, second];
  }

  lemma AskLogs(h: Host)
    requires |h.log| <= 300
    ensures Logged(h, RequestTeardown(h), if h.phase == Ready then [Outgoing] else [])
  {
    if h.phase == Ready {
      LogLogs(Post(TeardownBegun(h), Teardown(TeardownId(h.nextRequestId))), Outgoing);
    }
  }

  lemma NotificationLogs(h: Host, name: string, size: Option<Size>)
    requires |h.log| <= 300
    ensures Logged(h, OnNotification(h, name, size), MessageNotes(h, Notification(name, size)))
  {
    NamesDiffer();
    LogLogs(h, Incoming);
    LogsTwice(h, Incoming, Rejected);
    if name == REQUEST_TEARDOWN {
      LogsTwice(h, Incoming, Info);
      var asked := Log(Log(h, Incoming), Info);
      AskLogs(asked);
      var rest := if h.phase == Ready then [Outgoing] else [];
      LastAgain(Directions(h.log), [Incoming, Info], rest, 300);
    }
  }

  lemma RequestLogs(h: Host, id: Id, name: string)
    requires |h.log| <= 300
    ensures Logged(h, OnRequest(h, id, name), MessageNotes(h, Request(id, name)))
  {
    LogsTwice(h, Incoming, Refused);
    LogsTwice(h, Incoming, Info);
    LogsTwice(h, Incoming, Outgoing);
    var logged := Log(h, Incoming);
    assert Log(Post(logged, Result(id)), Outgoing).log == Log(logged, Outgoing).log;
  }

  lemma ResponseLogs(h: Host, id: Id, isError: bool)
    requires TimersFit(h) && |h.log| <= 300
    ensures Logged(h, OnResponse(h, id, isError), MessageNotes(h, Response(id, isError)))
  {
    LogLogs(h, Rejected);
    if h.waiter.Some? {
      LogLogs(Clear(h, h.waiter.value.timer).(waiter := None), Incoming);
    }
  }

  lemma StepLogs(h: Host, e: Event)
    requires TimersFit(h) && LogFits(h) && !e.Restart?
    ensures Logged(h, Step(h, e), Notes(h, e))
  {
    LogLogs(h, Rejected);
    match e {
      case Deliver(raw) =>
        HearsExactly(h, raw);
        if Hears(h, raw) {
          match raw.message.value {
            case Request(id, name) => RequestLogs(h, id, name);
            case Notification(name, size) => NotificationLogs(h, name, size);
            case Response(id, isError) => ResponseLogs(h, id, isError);
          }
        }
      case Fire(timer) => LogLogs(Clear(h, timer), Timeout);
      case PressTeardown => AskLogs(h);
      case Attach(_) =>
    }
  }

  /** Everything this session has noted before event k, oldest first. */
  ghost function SessionNotes(origin: string, events: seq<Event>, k: nat): seq<Direction>
    requires k <= |events|
  {
    if k == 0 || events[k - 1].Restart? then []
    else SessionNotes(origin, events, k - 1) + Notes(At(origin, events, k - 1), events[k - 1])
  }

  /** The log holds the newest 300 notes of the session, in order. */
  lemma {:induction false} LogExactly(origin: string, events: seq<Event>, k: nat)
    requires k <= |events|
    ensures Directions(At(origin, events, k).log) == Last(SessionNotes(origin, events, k), 300)
  {
    if k > 0 {
      var m := k - 1;
      StepAt(origin, events, m);
      if !events[m].Restart? {
        LogExactly(origin, events, m);
        EveryRunFits(origin, events[..m]);
        StepLogs(At(origin, events, m), events[m]);
        var notes := Notes(At(origin, events, m), events[m]);
        LastAgain([], SessionNotes(origin, events, m), notes, 300);
        assert [] + SessionNotes(origin, events, m) == SessionNotes(origin, events, m);
        assert [] + (SessionNotes(origin, events, m) + notes) == SessionNotes(origin, events, m) + notes;
      }
    }
  }

  /* ---- request numbers as text ---- */

  predicate IsDigit(c: char) {
    '0' <= c <= '9'
  }

  function ValueOf(digits: string): nat
    requires forall c :: c in digits ==> IsDigit(c)
  {
    if digits == [] then 0
    else
      var last := digits[|digits| - 1];
      assert IsDigit(last) && last as int >= '0' as int;
      10 * ValueOf(digits[..|digits| - 1]) + (last as int - '0' as int)
  }

  /** A number is written in decimal digits without a leading zero, and reads back as itself. */
  lemma {:induction false} DecimalReads(n: nat)
    ensures var digits := Decimal(n);
            && digits != [] && (forall c :: c in digits ==> IsDigit(c)) && ValueOf(digits) == n
            && (n > 0 ==> digits[0] != '0')
  {
    var digits, last := Decimal(n), n % 10;
    assert ('0' as int + last) as char as int == '0' as int + last;
    if n >= 10 {
      DecimalReads(n / 10);
      assert digits[..|digits| - 1] == Decimal(n / 10);
    } else {
      assert digits[..0] == [];
    }
  }
}
