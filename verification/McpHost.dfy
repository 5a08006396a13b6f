/** The Host half of the MCP Apps handshake in `McpUiLabHost.tsx`: a state machine driven by View messages,
    two timers, a teardown button and session restarts. */
module McpHost {
  import opened Options
  import opened Sequences

  datatype Phase = AwaitingInitialize | AwaitingInitialized | Ready | TimedOut | TearingDown | TornDown

  /** A JSON-RPC id, as the View may choose it. */
  datatype Id = Number(n: int) | Text(s: string)

  datatype Size = Size(width: int, height: int)

  /** A validated JSON-RPC message; a notification's `size` is present when its params carry two numbers. */
  datatype Message =
    | Request(id: Id, methodName: string)
    | Notification(methodName: string, size: Option<Size>)
    | Response(id: Id, isError: bool)

  type Window = nat

  /** A window message: who sent it, from where, and the JSON-RPC message in it, if it is one. */
  datatype Raw = Raw(source: Option<Window>, origin: string, message: Option<Message>)

  /** The iframe: absent, or present with or without a content window. */
  datatype Frame = NoFrame | Frame(window: Option<Window>)

  datatype Direction = Outgoing | Incoming | Rejected | Refused | Timeout | Info

  datatype LogEntry = LogEntry(id: nat, direction: Direction)

  datatype Timer = InitializedTimer | TeardownTimer

  datatype Waiter = Waiter(id: string, timer: nat)

  /** What the Host posts to the View. */
  datatype Out = Result(id: Id) | InvalidRequest(id: Id) | MethodNotFound(id: Id) | Teardown(request: string)

  /** The hook's state and refs, the browser's armed timers, and everything posted so far. */
  datatype Host = Host(phase: Phase, log: seq<LogEntry>, logId: nat, size: Option<Size>, acknowledged: Option<bool>,
                       nextRequestId: nat, waiter: Option<Waiter>, initializedTimer: Option<nat>,
                       armed: map<nat, Timer>, nextTimer: nat, frame: Frame, origin: string, posted: seq<Out>)

  datatype Event =
    | Deliver(raw: Raw)
    | Fire(timer: nat)
    | PressTeardown
    | Attach(frame: Frame)
    | Restart(origin: string)

  const INITIALIZE := "ui/initialize"
  const INITIALIZED := "ui/notifications/initialized"
  const SIZE_CHANGED := "ui/notifications/size-changed"
  const REQUEST_TEARDOWN := "ui/notifications/request-teardown"
  const LOG_LIMIT: nat := 300

  function Decimal(n: nat): string {
    (if n < 10 then [] else Decimal(n / 10)) + [('0' as int + n % 10) as char]
  }

  function TeardownId(n: nat): string {
    "host-teardown-" + Decimal(n)
  }

  function Initial(origin: string): Host {
    Host(AwaitingInitialize, [], 0, None, None, 1, None, None, map[], 0, NoFrame, origin, [])
  }

  /* ---- the handlers as functions ---- */

  function Last<T>(s: seq<T>, k: nat): seq<T> {
    if |s| <= k then s else s[|s| - k..]
  }

  function Log(h: Host, direction: Direction): Host {
    h.(logId := h.logId + 1, log := Last(h.log + [LogEntry(h.logId + 1, direction)], LOG_LIMIT))
  }

  predicate Attached(h: Host) {
    h.frame.Frame? && h.frame.window.Some?
  }

  function Post(h: Host, out: Out): Host {
    if Attached(h) then h.(posted := h.posted + [out]) else h
  }

  function Arm(h: Host, timer: Timer): Host {
    h.(armed := h.armed[h.nextTimer := timer], nextTimer := h.nextTimer + 1)
  }

  function Clear(h: Host, timer: nat): Host {
    h.(armed := h.armed - {timer})
  }

  function TeardownBegun(h: Host): Host {
    h.(nextRequestId := h.nextRequestId + 1, phase := TearingDown, acknowledged := None)
  }

  /** Wait for the response to `id`, for a limited time. */
  function Await(h: Host, id: string): Host {
    Arm(h, TeardownTimer).(waiter := Some(Waiter(id, h.nextTimer)))
  }

  function RequestTeardown(h: Host): Host {
    if h.phase != Ready then h
    else
      var id := TeardownId(h.nextRequestId);
      Await(Log(Post(TeardownBegun(h), Teardown(id)), Outgoing), id)
  }

  function OnNotification(h0: Host, methodName: string, size: Option<Size>): Host {
    var h := Log(h0, Incoming);
    if methodName == INITIALIZED then
      if h.phase != AwaitingInitialized then Log(h, Rejected)
      else (if h.initializedTimer.Some? then Clear(h, h.initializedTimer.value).(initializedTimer := None)
        else h).(phase := Ready)
    else if methodName == SIZE_CHANGED then if size.Some? then h.(size := size) else h
    else if methodName == REQUEST_TEARDOWN then RequestTeardown(Log(h, Info))
    else h
  }

  function OnRequest(h0: Host, id: Id, methodName: string): Host {
    var h := Log(h0, Incoming);
    if h.phase == AwaitingInitialize then
      if methodName != INITIALIZE then Post(Log(h, Refused), InvalidRequest(id))
      else
        var begun := Log(Post(h, Result(id)), Outgoing).(phase := AwaitingInitialized);
        Arm(begun, InitializedTimer).(initializedTimer := Some(h.nextTimer))
    else if h.phase != Ready then Post(Log(h, Refused), InvalidRequest(id))
    else Post(Log(h, Info), MethodNotFound(id))
  }

  function OnResponse(h: Host, id: Id, isError: bool): Host {
    if h.waiter.Some? && Text(h.waiter.value.id) == id
    then
      var cleared := Log(Clear(h, h.waiter.value.timer).(waiter := None), Incoming);
      cleared.(acknowledged := Some(!isError), phase := TornDown)
    else Log(h, Rejected)
  }

  /** The message comes from the View's own window. */
  predicate FromView(h: Host, raw: Raw) {
    h.frame.Frame? && raw.source == h.frame.window
  }

  predicate Accepts(h: Host, raw: Raw) {
    FromView(h, raw) && raw.origin == h.origin && raw.message.Some?
  }

  function OnMessage(h: Host, raw: Raw): Host {
    if !FromView(h, raw) then h
    else if !Accepts(h, raw) then Log(h, Rejected)
    else
      match raw.message.value
      case Request(id, methodName) => OnRequest(h, id, methodName)
      case Notification(methodName, size) => OnNotification(h, methodName, size)
      case Response(id, isError) => OnResponse(h, id, isError)
  }

  /** An armed timer runs its callback; a cleared one never does. */
  function OnFire(h: Host, timer: nat): Host {
    if timer !in h.armed then h
    else
      match h.armed[timer]
      case InitializedTimer =>
        if h.phase == AwaitingInitialized then Log(Clear(h, timer), Timeout).(phase := TimedOut) else Clear(h, timer)
      case TeardownTimer =>
        Log(Clear(h, timer), Timeout).(acknowledged := Some(false), phase := TornDown, waiter := None)
  }

  /** The effect's cleanup and the next session's start. The initialized timer's ref keeps its stale value. */
  function OnRestart(h: Host, origin: string): Host {
    var cleaned := if h.initializedTimer.Some? then Clear(h, h.initializedTimer.value) else h;
    var quiet := if h.waiter.Some? then Clear(cleaned, h.waiter.value.timer) else cleaned;
    quiet.(phase := AwaitingInitialize, log := [], size := None, acknowledged := None, waiter := None, origin := origin)
  }

  function Step(h: Host, e: Event): Host {
    match e
    case Deliver(raw) => OnMessage(h, raw)
    case Fire(timer) => OnFire(h, timer)
    case PressTeardown => RequestTeardown(h)
    case Attach(frame) => h.(frame := frame)
    case Restart(origin) => OnRestart(h, origin)
  }

  function Run(h: Host, events: seq<Event>): Host {
    if events == [] then h else Step(Run(h, events[..|events| - 1]), events[|events| - 1])
  }

  /* ---- what every run keeps ---- */

  /** The timers that should be armed, and nothing else. */
  function ExpectedTimers(h: Host): map<nat, Timer> {
    if h.phase == AwaitingInitialized && h.initializedTimer.Some? then map[h.initializedTimer.value := InitializedTimer]
    else if h.phase == TearingDown && h.waiter.Some? then map[h.waiter.value.timer := TeardownTimer]
    else map[]
  }

  /** A waiter and its timer exist exactly while tearing down, and carry the newest teardown id; the initialized
      timer is armed exactly while awaiting `initialized`; no other timer is armed. */
  ghost predicate TimersFit(h: Host) {
    && (h.waiter.Some? <==> h.phase == TearingDown)
    && (h.phase == AwaitingInitialized ==> h.initializedTimer.Some?)
    && h.armed == ExpectedTimers(h)
    && (forall t :: t in h.armed ==> t < h.nextTimer)
    && (h.waiter.Some? ==> h.nextRequestId > 0 && h.waiter.value.id == TeardownId(h.nextRequestId - 1))
  }

  /** The log is bounded and holds the newest entries, numbered without gaps or repeats. */
  ghost predicate LogFits(h: Host) {
    && |h.log| <= LOG_LIMIT && |h.log| <= h.logId
    && (forall i :: 0 <= i < |h.log| ==> h.log[i].id == h.logId - |h.log| + 1 + i)
  }

  lemma LogKeepsFit(h: Host, direction: Direction)
    requires LogFits(h)
    ensures LogFits(Log(h, direction))
  {
  }

  lemma TeardownKeepsTimers(h: Host)
    requires TimersFit(h)
    ensures TimersFit(RequestTeardown(h))
  {
  }

  lemma NotificationKeepsTimers(h: Host, name: string, size: Option<Size>)
    requires TimersFit(h)
    ensures TimersFit(OnNotification(h, name, size))
  {
    assert TimersFit(Log(h, Incoming));
    if name == REQUEST_TEARDOWN {
      TeardownKeepsTimers(Log(Log(h, Incoming), Info));
    }
  }

  lemma RequestKeepsTimers(h: Host, id: Id, name: string)
    requires TimersFit(h)
    ensures TimersFit(OnRequest(h, id, name))
  {
  }

  lemma ResponseKeepsTimers(h: Host, id: Id, isError: bool)
    requires TimersFit(h)
    ensures TimersFit(OnResponse(h, id, isError))
  {
  }

  lemma StepKeepsTimers(h: Host, e: Event)
    requires TimersFit(h)
    ensures TimersFit(Step(h, e))
  {
    match e {
      case Deliver(raw) =>
        if Accepts(h, raw) {
          match raw.message.value {
            case Request(id, name) => RequestKeepsTimers(h, id, name);
            case Notification(name, size) => NotificationKeepsTimers(h, name, size);
            case Response(id, isError) => ResponseKeepsTimers(h, id, isError);
          }
        }
      case Fire(timer) =>
      case PressTeardown => TeardownKeepsTimers(h);
      case Attach(frame) =>
      case Restart(origin) =>
    }
  }

  lemma TeardownKeepsLog(h: Host)
    requires LogFits(h)
    ensures LogFits(RequestTeardown(h))
  {
    if h.phase == Ready {
      var id := TeardownId(h.nextRequestId);
      LogKeepsFit(Post(TeardownBegun(h), Teardown(id)), Outgoing);
    }
  }

  lemma NotificationKeepsLog(h: Host, name: string, size: Option<Size>)
    requires LogFits(h)
    ensures LogFits(OnNotification(h, name, size))
  {
    var logged := Log(h, Incoming);
    LogKeepsFit(h, Incoming);
    LogKeepsFit(logged, Rejected);
    LogKeepsFit(logged, Info);
    TeardownKeepsLog(Log(logged, Info));
    if name != REQUEST_TEARDOWN {
      assert OnNotification(h, name, size).log in {logged.log, Log(logged, Rejected).log};
    }
  }

  lemma RequestKeepsLog(h: Host, id: Id, name: string)
    requires LogFits(h)
    ensures LogFits(OnRequest(h, id, name))
  {
    var logged := Log(h, Incoming);
    LogKeepsFit(h, Incoming);
    LogKeepsFit(logged, Refused);
    LogKeepsFit(logged, Info);
    LogKeepsFit(Post(logged, Result(id)), Outgoing);
  }

  lemma StepKeepsLog(h: Host, e: Event)
    requires LogFits(h)
    ensures LogFits(Step(h, e))
  {
    LogKeepsFit(h, Rejected);
    match e {
      case Deliver(raw) =>
        if Accepts(h, raw) {
          match raw.message.value {
            case Request(id, name) => RequestKeepsLog(h, id, name);
            case Notification(name, size) => NotificationKeepsLog(h, name, size);
            case Response(id, isError) =>
              if h.waiter.Some? {
                LogKeepsFit(Clear(h, h.waiter.value.timer).(waiter := None), Incoming);
              }
          }
        }
      case Fire(timer) => LogKeepsFit(Clear(h, timer), Timeout);
      case PressTeardown => TeardownKeepsLog(h);
      case Attach(frame) =>
      case Restart(origin) =>
    }
  }

  /** In every run from a fresh page, both hold throughout. */
  lemma {:induction false} EveryRunFits(origin: string, events: seq<Event>)
    ensures TimersFit(Run(Initial(origin), events)) && LogFits(Run(Initial(origin), events))
  {
    if events != [] {
      var before := Run(Initial(origin), events[..|events| - 1]);
      EveryRunFits(origin, events[..|events| - 1]);
      StepKeepsTimers(before, events[|events| - 1]);
      StepKeepsLog(before, events[|events| - 1]);
    }
  }

  /* ---- one step, summarised ---- */

  /** The order a session moves through. */
  predicate Precedes(a: Phase, b: Phase) {
    match a
    case AwaitingInitialize => true
    case AwaitingInitialized => b != AwaitingInitialize
    case Ready => b in {Ready, TearingDown, TornDown}
    case TearingDown => b in {TearingDown, TornDown}
    case _ => a == b
  }

  /** The single reply an accepted request gets. */
  function Reply(phase: Phase, id: Id, name: string): Out {
    if phase == AwaitingInitialize && name == INITIALIZE then Result(id)
    else if phase == Ready then MethodNotFound(id)
    else InvalidRequest(id)
  }

  function PostedWhenAttached(h: Host, outs: seq<Out>): seq<Out> {
    if Attached(h) then outs else []
  }

  /** What a step posts: one reply to an accepted request, one teardown request when the Host starts tearing
      down, and nothing else. */
  function Outputs(h: Host, e: Event): seq<Out> {
    if e.Deliver? && Accepts(h, e.raw) && e.raw.message.value.Request? then
      PostedWhenAttached(h, [Reply(h.phase, e.raw.message.value.id, e.raw.message.value.methodName)])
    else if StartsTeardown(h, e) then PostedWhenAttached(h, [Teardown(TeardownId(h.nextRequestId))])
    else []
  }

  /** The Host is ready and is told, by the button or by the View, to tear down. */
  predicate StartsTeardown(h: Host, e: Event) {
    && h.phase == Ready
    && (e.PressTeardown? || (e.Deliver? && Accepts(h, e.raw) && e.raw.message.value.Notification?
                             && e.raw.message.value.methodName == REQUEST_TEARDOWN))
  }

  /** The phase after a step that is not a restart. */
  function NextPhase(h: Host, e: Event): Phase {
    if StartsTeardown(h, e) then TearingDown
    else
      match e
      case Deliver(raw) =>
        if !Accepts(h, raw) then h.phase
        else (
          match raw.message.value
          case Request(_, name) =>
            if h.phase == AwaitingInitialize && name == INITIALIZE then AwaitingInitialized else h.phase
          case Notification(name, _) => if h.phase == AwaitingInitialized && name == INITIALIZED then Ready else h.phase
          case Response(id, _) => if h.waiter.Some? && id == Text(h.waiter.value.id) then TornDown else h.phase)
      case Fire(timer) =>
        if timer !in h.armed then h.phase
        else if h.armed[timer].TeardownTimer? then TornDown
        else if h.phase == AwaitingInitialized then TimedOut else h.phase
      case _ => h.phase
  }

  ghost predicate Summarised(h: Host, e: Event, next: Host) {
    && next.posted == h.posted + Outputs(h, e)
    && next.phase == (if e.Restart? then AwaitingInitialize else NextPhase(h, e))
    && next.nextRequestId == h.nextRequestId + (if StartsTeardown(h, e) then 1 else 0)
    && (!e.Attach? ==> next.frame == h.frame)
  }

  lemma NamesDiffer()
    ensures INITIALIZED != SIZE_CHANGED && INITIALIZED != REQUEST_TEARDOWN && SIZE_CHANGED != REQUEST_TEARDOWN
  {
    assert |INITIALIZED| == 28 && |SIZE_CHANGED| == 29 && |REQUEST_TEARDOWN| == 33;
  }

  lemma NotificationSummary(h: Host, raw: Raw)
    requires Accepts(h, raw) && raw.message.value.Notification?
    ensures Summarised(h, Deliver(raw), OnMessage(h, raw))
  {
    NamesDiffer();
    var logged := Log(h, Incoming);
    assert logged.posted == h.posted && logged.phase == h.phase;
    if raw.message.value.methodName == REQUEST_TEARDOWN {
      var asked := Log(logged, Info);
      assert OnMessage(h, raw) == RequestTeardown(asked);
    }
  }

  lemma RequestSummary(h: Host, raw: Raw)
    requires Accepts(h, raw) && raw.message.value.Request?
    ensures Summarised(h, Deliver(raw), OnMessage(h, raw))
  {
    var logged := Log(h, Incoming);
    assert logged.posted == h.posted && logged.phase == h.phase;
  }

  lemma StepSummary(h: Host, e: Event)
    ensures Summarised(h, e, Step(h, e))
  {
    if e.Deliver? && Accepts(h, e.raw) {
      if e.raw.message.value.Notification? { NotificationSummary(h, e.raw); }
      if e.raw.message.value.Request? { RequestSummary(h, e.raw); }
    }
  }

  /* ---- the session only moves forward ---- */

  predicate Within(events: seq<Event>) {
    forall e :: e in events ==> !e.Restart?
  }

  lemma StepMovesForward(h: Host, e: Event)
    requires TimersFit(h) && !e.Restart?
    ensures Precedes(h.phase, Step(h, e).phase)
  {
    StepSummary(h, e);
  }

  /** Within a session the phase never goes back, and a session that timed out or was torn down stays so. */
  lemma {:induction false} SessionMovesForward(h: Host, events: seq<Event>)
    requires TimersFit(h) && Within(events)
    ensures TimersFit(Run(h, events)) && Precedes(h.phase, Run(h, events).phase)
    ensures h.phase in {TimedOut, TornDown} ==> Run(h, events).phase == h.phase
  {
    if events != [] {
      var before := Run(h, events[..|events| - 1]);
      SessionMovesForward(h, events[..|events| - 1]);
      StepMovesForward(before, events[|events| - 1]);
      StepKeepsTimers(before, events[|events| - 1]);
    }
  }

  /* ---- teardown ids are never reused ---- */

  /** The numbers of the teardown requests a run issues, in order. */
  function IssuedNumbers(h: Host, events: seq<Event>): seq<nat> {
    if events == [] then []
    else
      var front, last := events[..|events| - 1], events[|events| - 1];
      IssuedNumbers(h, front) + (if StartsTeardown(Run(h, front), last) then [Run(h, front).nextRequestId] else [])
  }

  function IssuedIds(h: Host, events: seq<Event>): seq<string> {
    var numbers := IssuedNumbers(h, events);
    seq(|numbers|, i requires 0 <= i < |numbers| => TeardownId(numbers[i]))
  }

  lemma {:induction false} DecimalIsInjective(m: nat, n: nat)
    requires Decimal(m) == Decimal(n)
    ensures m == n
  {
    var a, b := Decimal(m), Decimal(n);
    assert a[|a| - 1] == b[|b| - 1];
    assert m % 10 == n % 10;
    assert a[..|a| - 1] == b[..|b| - 1];
    if m < 10 || n < 10 {
      assert |Decimal(m / 10)| > 0 && |Decimal(n / 10)| > 0;
      assert m < 10 && n < 10;
    } else {
      DecimalIsInjective(m / 10, n / 10);
    }
  }

  lemma TeardownIdsDiffer(m: nat, n: nat)
    requires m != n
    ensures TeardownId(m) != TeardownId(n)
  {
    if TeardownId(m) == TeardownId(n) {
      TeardownIdIsInjective(m, n);
    }
  }

  lemma TeardownIdIsInjective(m: nat, n: nat)
    requires TeardownId(m) == TeardownId(n)
    ensures m == n
  {
    var prefix := "host-teardown-";
    assert TeardownId(m)[|prefix|..] == Decimal(m) && TeardownId(n)[|prefix|..] == Decimal(n);
    DecimalIsInjective(m, n);
  }

  /** The ids a run issues carry consecutive numbers, across restarts too. */
  lemma {:induction false} NumbersAreConsecutive(h: Host, events: seq<Event>)
    ensures Run(h, events).nextRequestId == h.nextRequestId + |IssuedNumbers(h, events)|
    ensures forall i :: 0 <= i < |IssuedNumbers(h, events)| ==> IssuedNumbers(h, events)[i] == h.nextRequestId + i
  {
    if events != [] {
      NumbersAreConsecutive(h, events[..|events| - 1]);
      StepSummary(Run(h, events[..|events| - 1]), events[|events| - 1]);
    }
  }

  /** Across restarts too, no teardown id is issued twice. */
  lemma IssuedIdsAreDistinct(h: Host, events: seq<Event>)
    ensures forall i, j :: 0 <= i < j < |IssuedIds(h, events)| ==> IssuedIds(h, events)[i] != IssuedIds(h, events)[j]
  {
    NumbersAreConsecutive(h, events);
    var numbers := IssuedNumbers(h, events);
    forall i, j | 0 <= i < j < |numbers| ensures TeardownId(numbers[i]) != TeardownId(numbers[j]) {
      TeardownIdsDiffer(numbers[i], numbers[j]);
    }
  }

  lemma {:induction false} RunConcat(h: Host, a: seq<Event>, b: seq<Event>)
    ensures Run(h, a + b) == Run(Run(h, a), b)
  {
    if b == [] {
      assert a + b == a;
    } else {
      var front := b[..|b| - 1];
      assert (a + b)[..|a + b| - 1] == a + front && (a + b)[|a + b| - 1] == b[|b| - 1];
      RunConcat(h, a, front);
    }
  }

  /** A session that is tearing down, or done, has issued an id of its own. */
  lemma {:induction false} TearingDownIssued(h: Host, events: seq<Event>)
    requires TimersFit(h) && h.phase == AwaitingInitialize && Within(events)
    ensures TimersFit(Run(h, events)) && Run(h, events).nextRequestId >= h.nextRequestId
    ensures Run(h, events).phase in {TearingDown, TornDown} ==> Run(h, events).nextRequestId > h.nextRequestId
  {
    if events != [] {
      var before := Run(h, events[..|events| - 1]);
      TearingDownIssued(h, events[..|events| - 1]);
      StepSummary(before, events[|events| - 1]);
      StepKeepsTimers(before, events[|events| - 1]);
    }
  }

  /** A response acknowledges the teardown exactly when one is in progress and the response names its id,
      the newest one issued; any other response changes nothing but the log. */
  lemma ResponseAcknowledges(h: Host, raw: Raw, id: Id, isError: bool)
    requires TimersFit(h) && Accepts(h, raw) && raw.message == Some(Response(id, isError))
    ensures var next := Step(h, Deliver(raw));
            if h.phase == TearingDown && h.nextRequestId > 0 && id == Text(TeardownId(h.nextRequestId - 1))
            then next.phase == TornDown && next.acknowledged == Some(!isError)
            else next == Log(h, Rejected)
  {
  }

  lemma RunThroughRestart(h: Host, earlier: seq<Event>, next: string, later: seq<Event>)
    ensures Run(h, earlier + [Restart(next)] + later) == Run(OnRestart(Run(h, earlier), next), later)
  {
    RunConcat(h, earlier + [Restart(next)], later);
    var both := earlier + [Restart(next)];
    assert both[..|both| - 1] == earlier && both[|both| - 1] == Restart(next);
  }

  lemma RestartIsFresh(h: Host, next: string)
    requires TimersFit(h)
    ensures var restarted := OnRestart(h, next);
            TimersFit(restarted) && restarted.phase == AwaitingInitialize && restarted.nextRequestId == h.nextRequestId
  {
    StepKeepsTimers(h, Restart(next));
  }

  /** An id issued by a run is older than every id still to be issued. */
  lemma IssuedIdIsOld(h: Host, events: seq<Event>, id: string, n: nat)
    requires id in IssuedIds(h, events) && n >= Run(h, events).nextRequestId
    ensures id != TeardownId(n)
  {
    NumbersAreConsecutive(h, events);
    var i :| 0 <= i < |IssuedIds(h, events)| && IssuedIds(h, events)[i] == id;
    TeardownIdsDiffer(IssuedNumbers(h, events)[i], n);
  }

  /** A response to a teardown of an earlier session never acknowledges, or even disturbs, the current one. */
  lemma EarlierTeardownIsIgnored(origin: string, earlier: seq<Event>, next: string, later: seq<Event>, raw: Raw,
                                 id: string, isError: bool)
    requires Within(later) && id in IssuedIds(Initial(origin), earlier)
    requires raw.message == Some(Response(Text(id), isError))
    ensures var h := Run(Initial(origin), earlier + [Restart(next)] + later);
            Step(h, Deliver(raw)) == h || Step(h, Deliver(raw)) == Log(h, Rejected)
  {
    RunThroughRestart(Initial(origin), earlier, next, later);
    EveryRunFits(origin, earlier);
    RestartIsFresh(Run(Initial(origin), earlier), next);
    var session := OnRestart(Run(Initial(origin), earlier), next);
    TearingDownIssued(session, later);
    var h := Run(session, later);
    if h.phase == TearingDown {
      IssuedIdIsOld(Initial(origin), earlier, id, h.nextRequestId - 1);
    }
    if Accepts(h, raw) {
      ResponseAcknowledges(h, raw, Text(id), isError);
    }
  }

  /* ---- every request gets one reply ---- */

  /** The View's window is attached whenever an event arrives. */
  ghost predicate AttachedThroughout(h: Host, events: seq<Event>) {
    forall k :: 0 <= k < |events| ==> Attached(Run(h, events[..k]))
  }

  predicate IsReply(out: Out) {
    !out.Teardown?
  }

  function ReplyIds(outs: seq<Out>): seq<Id> {
    if outs == [] then []
    else ReplyIds(outs[..|outs| - 1]) + (if IsReply(outs[|outs| - 1]) then [outs[|outs| - 1].id] else [])
  }

  /** The ids of the requests a run accepts, in order. */
  function AcceptedIds(h: Host, events: seq<Event>): seq<Id> {
    if events == [] then []
    else
      var front, last := events[..|events| - 1], events[|events| - 1];
      AcceptedIds(h, front) + AcceptedId(Run(h, front), last)
  }

  lemma {:induction false} ReplyIdsConcat(a: seq<Out>, b: seq<Out>)
    ensures ReplyIds(a + b) == ReplyIds(a) + ReplyIds(b)
  {
    if b == [] {
      assert a + b == a;
    } else {
      assert (a + b)[..|a + b| - 1] == a + b[..|b| - 1];
      ReplyIdsConcat(a, b[..|b| - 1]);
    }
  }

  lemma AttachedPrefix(h: Host, events: seq<Event>)
    requires events != [] && AttachedThroughout(h, events)
    ensures AttachedThroughout(h, events[..|events| - 1]) && Attached(Run(h, events[..|events| - 1]))
  {
    var front := events[..|events| - 1];
    forall k | 0 <= k < |front| ensures Attached(Run(h, front[..k])) {
      assert front[..k] == events[..k];
    }
  }

  /** The id of the request an event delivers, if the Host accepts one. */
  function AcceptedId(h: Host, e: Event): seq<Id> {
    if e.Deliver? && Accepts(h, e.raw) && e.raw.message.value.Request? then [e.raw.message.value.id] else []
  }

  /** What a step posts replies to exactly the request it accepts. */
  lemma RepliesOfStep(h: Host, e: Event)
    requires Attached(h)
    ensures ReplyIds(Outputs(h, e)) == AcceptedId(h, e)
  {
    if Outputs(h, e) != [] {
      assert Outputs(h, e)[..0] == [];
    }
  }

  lemma RepliesAfterStep(h: Host, e: Event)
    requires Attached(h)
    ensures ReplyIds(Step(h, e).posted) == ReplyIds(h.posted) + AcceptedId(h, e)
  {
    StepSummary(h, e);
    ReplyIdsConcat(h.posted, Outputs(h, e));
    RepliesOfStep(h, e);
  }

  /** With the window attached, the replies posted over any run are one per accepted request, in order, each
      carrying the request's id; notifications and responses get none. */
  lemma {:induction false} OneReplyPerRequest(h: Host, events: seq<Event>)
    requires AttachedThroughout(h, events)
    ensures ReplyIds(Run(h, events).posted) == ReplyIds(h.posted) + AcceptedIds(h, events)
  {
    if events != [] {
      var front, last := events[..|events| - 1], events[|events| - 1];
      AttachedPrefix(h, events);
      OneReplyPerRequest(h, front);
      RepliesAfterStep(Run(h, front), last);
      Regroup(ReplyIds(h.posted), AcceptedIds(h, front), AcceptedId(Run(h, front), last));
    }
  }

  /** In general an accepted request is answered exactly when the iframe has a window: a message whose source
      is null is accepted from an iframe whose window is null, and its reply is dropped. */
  lemma ReplyNeedsAWindow(h: Host, raw: Raw, id: Id, name: string)
    requires Accepts(h, raw) && raw.message == Some(Request(id, name))
    ensures Step(h, Deliver(raw)).posted == h.posted + (if h.frame.window.Some? then [Reply(h.phase, id, name)] else [])
  {
    StepSummary(h, Deliver(raw));
  }

  lemma NullSourceIsAcceptedWithoutReply(h: Host, id: Id, name: string)
    requires h.frame == Frame(None)
    ensures var raw := Raw(None, h.origin, Some(Request(id, name)));
            Accepts(h, raw) && Step(h, Deliver(raw)).posted == h.posted
  {
    ReplyNeedsAWindow(h, Raw(None, h.origin, Some(Request(id, name))), id, name);
  }

  /* ---- the shape of a session's traffic ---- */

  /** What a session posts, cut where its phase changes. */
  datatype Traffic = Traffic(refused: seq<Out>, result: seq<Out>, waiting: seq<Out>, ready: seq<Out>,
                             teardown: seq<Out>, closing: seq<Out>)
  {
    function Posts(): seq<Out> {
      refused + result + waiting + ready + teardown + closing
    }
  }

  ghost predicate AllInvalid(outs: seq<Out>) {
    forall o :: o in outs ==> o.InvalidRequest?
  }

  /** Refusals, then at most one result, refusals until `initialized`, then methodNotFound while ready, then at
      most one teardown request and refusals after it. */
  ghost predicate FitsPhase(phase: Phase, t: Traffic) {
    && AllInvalid(t.refused) && AllInvalid(t.waiting) && AllInvalid(t.closing)
    && (forall o :: o in t.ready ==> o.MethodNotFound?)
    && |t.result| == (if phase == AwaitingInitialize then 0 else 1) && (forall o :: o in t.result ==> o.Result?)
    && |t.teardown| == (if phase in {TearingDown, TornDown} then 1 else 0)
       && (forall o :: o in t.teardown ==> o.Teardown?)
    && (t.result == [] ==> t.waiting == [])
    && (phase in {AwaitingInitialize, AwaitingInitialized, TimedOut} ==> t.ready == [])
    && (t.teardown == [] ==> t.closing == [])
  }

  /** Where a step's output goes. */
  function Extend(h: Host, e: Event, t: Traffic): Traffic {
    var outs := Outputs(h, e);
    if outs == [] then t
    else if outs[0].Result? then t.(result := t.result + outs)
    else if outs[0].Teardown? then t.(teardown := t.teardown + outs)
    else if outs[0].MethodNotFound? then t.(ready := t.ready + outs)
    else if h.phase == AwaitingInitialize then t.(refused := t.refused + outs)
    else if h.phase in {AwaitingInitialized, TimedOut} then t.(waiting := t.waiting + outs)
    else t.(closing := t.closing + outs)
  }

  lemma ExtendPosts(h: Host, e: Event, t: Traffic)
    requires FitsPhase(h.phase, t) && |Outputs(h, e)| <= 1
    ensures Extend(h, e, t).Posts() == t.Posts() + Outputs(h, e)
  {
  }

  lemma ExtendFits(h: Host, e: Event, t: Traffic)
    requires TimersFit(h) && Attached(h) && !e.Restart? && FitsPhase(h.phase, t)
    ensures FitsPhase(Step(h, e).phase, Extend(h, e, t))
  {
    StepSummary(h, e);
  }

  /** Over any session with the window attached, everything the Host posts has this shape. */
  lemma {:induction false} SessionTraffic(h: Host, events: seq<Event>) returns (t: Traffic)
    requires TimersFit(h) && h.phase == AwaitingInitialize && Within(events) && AttachedThroughout(h, events)
    ensures TimersFit(Run(h, events)) && FitsPhase(Run(h, events).phase, t)
    ensures Run(h, events).posted == h.posted + t.Posts()
  {
    if events == [] {
      t := Traffic([], [], [], [], [], []);
    } else {
      var front, last := events[..|events| - 1], events[|events| - 1];
      AttachedPrefix(h, events);
      t := SessionTraffic(h, front);
      StepSummary(Run(h, front), last);
      StepKeepsTimers(Run(h, front), last);
      ExtendFits(Run(h, front), last, t);
      ExtendPosts(Run(h, front), last, t);
      t := Extend(Run(h, front), last, t);
    }
  }

  /** Which part of the traffic a post belongs to, from its kind. */
  lemma PostAt(phase: Phase, t: Traffic, k: nat)
    requires FitsPhase(phase, t) && k < |t.Posts()|
    ensures t.Posts()[k].Result? <==> |t.refused| <= k < |t.refused + t.result|
    ensures t.Posts()[k].MethodNotFound? ==> |t.result| == 1 && |t.refused + t.result| <= k
    ensures t.Posts()[k].Teardown?
            <==> |t.refused + t.result + t.waiting + t.ready| <= k < |t.refused + t.result + t.waiting + t.ready
                 + t.teardown|
    ensures k >= |t.refused + t.result + t.waiting + t.ready + t.teardown| ==> t.Posts()[k].InvalidRequest?
  {
    var o := t.Posts()[k];
    var a, b, c, d, e := |t.refused|, |t.refused + t.result|, |t.refused + t.result + t.waiting|,
                         |t.refused + t.result + t.waiting + t.ready|, |t.refused + t.result + t.waiting + t.ready
                           + t.teardown|;
    if k < a { assert o == t.refused[k] && o in t.refused; }
    else if k < b { assert o == t.result[k - a] && o in t.result; }
    else if k < c { assert o == t.waiting[k - b] && o in t.waiting; }
    else if k < d { assert o == t.ready[k - c] && o in t.ready; }
    else if k < e { assert o == t.teardown[k - d] && o in t.teardown; }
    else { assert o == t.closing[k - e] && o in t.closing; }
  }

  ghost predicate Disciplined(posts: seq<Out>) {
    && (forall i, j :: 0 <= i < j < |posts| && posts[i].Result? ==> !posts[j].Result?)
    && (forall i, j :: 0 <= i < j < |posts| && posts[i].Teardown? ==> posts[j].InvalidRequest?)
    && (forall j :: 0 <= j < |posts| && (posts[j].MethodNotFound? || posts[j].Teardown?)
                    ==> exists i :: 0 <= i < j && posts[i].Result?)
  }

  lemma TrafficIsDisciplined(phase: Phase, t: Traffic)
    requires FitsPhase(phase, t)
    ensures Disciplined(t.Posts())
  {
    var posts := t.Posts();
    forall k | 0 <= k < |posts|
      ensures posts[k].Result? <==> |t.refused| <= k < |t.refused + t.result|
      ensures posts[k].Teardown? ==> |t.refused + t.result| <= k && |t.result| == 1
      ensures posts[k].MethodNotFound? ==> |t.result| == 1 && |t.refused + t.result| <= k
      ensures posts[k].Teardown?
              <==> |t.refused + t.result + t.waiting + t.ready| <= k < |t.refused + t.result + t.waiting + t.ready
                   + t.teardown|
      ensures k >= |t.refused + t.result + t.waiting + t.ready + t.teardown| ==> posts[k].InvalidRequest?
    {
      PostAt(phase, t, k);
    }
    forall j | 0 <= j < |posts| && (posts[j].MethodNotFound? || posts[j].Teardown?)
      ensures exists i :: 0 <= i < j && posts[i].Result?
    {
      assert posts[|t.refused|].Result?;
    }
  }

  /** Hence in any session with the window attached: at most one success result and one teardown request;
      methodNotFound and the teardown request only after the result; all else is refused as an invalid request. */
  lemma SessionDiscipline(h: Host, events: seq<Event>)
    requires TimersFit(h) && h.phase == AwaitingInitialize && Within(events) && AttachedThroughout(h, events)
    ensures h.posted <= Run(h, events).posted && Disciplined(Run(h, events).posted[|h.posted|..])
  {
    var t := SessionTraffic(h, events);
    TrafficIsDisciplined(Run(h, events).phase, t);
    assert Run(h, events).posted[|h.posted|..] == t.Posts();
  }

  /* ---- the hook as the code runs it ---- */

  /** `useMcpUiLabHost`: React state, refs and the browser's timers, updated by the handlers. */
  class McpUiLabHost {
    var phase: Phase
    var log: seq<LogEntry>
    var logId: nat
    var size: Option<Size>
    var acknowledged: Option<bool>
    var nextRequestId: nat
    var waiter: Option<Waiter>
    var initializedTimer: Option<nat>
    var armed: map<nat, Timer>
    var nextTimer: nat
    var frame: Frame
    var origin: string
    var posted: seq<Out>

    ghost function Abs(): Host
      reads this
    {
      Host(phase, log, logId, size, acknowledged, nextRequestId, waiter, initializedTimer, armed, nextTimer, frame,
           origin, posted)
    }

    constructor (viewOrigin: string)
      ensures Abs() == Initial(viewOrigin)
    {
      phase, log, logId, size, acknowledged, nextRequestId := AwaitingInitialize, [], 0, None, None, 1;
      waiter, initializedTimer, armed, nextTimer, frame, origin, posted :=
        None, None, map[], 0, NoFrame, viewOrigin, [];
    }

    method AppendLog(direction: Direction)
      modifies this`log, this`logId
      ensures Abs() == Log(old(Abs()), direction)
    {
      logId := logId + 1;
      log := Last(log + [LogEntry(logId, direction)], LOG_LIMIT);
    }

    method PostToView(out: Out)
      modifies this`posted
      ensures Abs() == Post(old(Abs()), out)
    {
      if frame.Frame? && frame.window.Some? {
        posted := posted + [out];
      }
    }

    method SetTimeout(timer: Timer) returns (id: nat)
      modifies this`armed, this`nextTimer
      ensures id == old(nextTimer) && Abs() == Arm(old(Abs()), timer)
    {
      id := nextTimer;
      armed := armed[id := timer];
      nextTimer := nextTimer + 1;
    }

    method ClearTimeout(id: nat)
      modifies this`armed
      ensures Abs() == Clear(old(Abs()), id)
    {
      armed := armed - {id};
    }

    method BeginTeardown() returns (id: string)
      modifies this`nextRequestId, this`phase, this`acknowledged
      ensures id == TeardownId(old(nextRequestId)) && Abs() == TeardownBegun(old(Abs()))
    {
      id := TeardownId(nextRequestId);
      nextRequestId := nextRequestId + 1;
      phase := TearingDown;
      acknowledged := None;
    }

    method AwaitResponse(id: string)
      modifies this`armed, this`nextTimer, this`waiter
      ensures Abs() == Await(old(Abs()), id)
    {
      var timer := SetTimeout(TeardownTimer);
      waiter := Some(Waiter(id, timer));
    }

    method AskTeardown()
      modifies this
      ensures Abs() == RequestTeardown(old(Abs()))
    {
      if phase != Ready { return; }
      var id := BeginTeardown();
      PostToView(Teardown(id));
      AppendLog(Outgoing);
      AwaitResponse(id);
    }

    method HandleViewNotification(name: string, newSize: Option<Size>)
      modifies this
      ensures Abs() == OnNotification(old(Abs()), name, newSize)
    {
      AppendLog(Incoming);
      if name == INITIALIZED {
        if phase != AwaitingInitialized {
          AppendLog(Rejected);
          return;
        }
        if initializedTimer.Some? {
          ClearTimeout(initializedTimer.value);
          initializedTimer := None;
        }
        phase := Ready;
        return;
      }
      if name == SIZE_CHANGED {
        if newSize.Some? { size := newSize; }
        return;
      }
      if name == REQUEST_TEARDOWN {
        AppendLog(Info);
        AskTeardown();
      }
    }

    method HandleViewRequest(id: Id, name: string)
      modifies this
      ensures Abs() == OnRequest(old(Abs()), id, name)
    {
      AppendLog(Incoming);
      if phase == AwaitingInitialize {
        if name != INITIALIZE {
          AppendLog(Refused);
          PostToView(InvalidRequest(id));
          return;
        }
        PostToView(Result(id));
        AppendLog(Outgoing);
        phase := AwaitingInitialized;
        var timer := SetTimeout(InitializedTimer);
        initializedTimer := Some(timer);
        return;
      }
      if phase != Ready {
        AppendLog(Refused);
        PostToView(InvalidRequest(id));
        return;
      }
      AppendLog(Info);
      PostToView(MethodNotFound(id));
    }

    method HandleViewResponse(id: Id, isError: bool)
      modifies this
      ensures Abs() == OnResponse(old(Abs()), id, isError)
    {
      if waiter.Some? && Text(waiter.value.id) == id {
        ClearTimeout(waiter.value.timer);
        waiter := None;
        AppendLog(Incoming);
        acknowledged := Some(!isError);
        phase := TornDown;
        return;
      }
      AppendLog(Rejected);
    }

    method Receive(raw: Raw)
      modifies this
      ensures Abs() == OnMessage(old(Abs()), raw)
    {
      if !frame.Frame? || raw.source != frame.window { return; }
      if raw.origin != origin {
        AppendLog(Rejected);
        return;
      }
      if raw.message.None? {
        AppendLog(Rejected);
        return;
      }
      match raw.message.value {
        case Request(id, name) => HandleViewRequest(id, name);
        case Notification(name, newSize) => HandleViewNotification(name, newSize);
        case Response(id, isError) => HandleViewResponse(id, isError);
      }
    }

    method TimerFires(id: nat)
      modifies this
      ensures Abs() == OnFire(old(Abs()), id)
      ensures id in old(armed) && old(armed)[id].TeardownTimer?
              ==> acknowledged == Some(false) && phase == TornDown && waiter.None?
    {
      if id !in armed { return; }
      var timer := armed[id];
      ClearTimeout(id);
      match timer {
        case InitializedTimer =>
          if phase == AwaitingInitialized {
            AppendLog(Timeout);
            phase := TimedOut;
          }
        case TeardownTimer =>
          AppendLog(Timeout);
          acknowledged := Some(false);
          phase := TornDown;
          waiter := None;
      }
    }

    /** A new session: the old effect's cleanup, then the effect's body. */
    method BeginSession(viewOrigin: string)
      modifies this
      ensures Abs() == OnRestart(old(Abs()), viewOrigin)
    {
      if initializedTimer.Some? { ClearTimeout(initializedTimer.value); }
      if waiter.Some? { ClearTimeout(waiter.value.timer); }
      phase := AwaitingInitialize;
      log := [];
      size := None;
      acknowledged := None;
      waiter := None;
      origin := viewOrigin;
    }

    /** Whatever happens next, the object follows the specified step and keeps its invariants. */
    method Handle(e: Event)
      requires TimersFit(Abs()) && LogFits(Abs())
      modifies this
      ensures Abs() == Step(old(Abs()), e)
      ensures TimersFit(Abs()) && LogFits(Abs())
    {
      StepKeepsTimers(Abs(), e);
      StepKeepsLog(Abs(), e);
      match e {
        case Deliver(raw) => Receive(raw);
        case Fire(timer) => TimerFires(timer);
        case PressTeardown => AskTeardown();
        case Attach(newFrame) => frame := newFrame;
        case Restart(viewOrigin) => BeginSession(viewOrigin);
      }
    }
  }
}
