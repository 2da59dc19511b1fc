/** Stalled-connection detection (packages/utils/src/websocketMonitor.ts) as a timed state machine.
    A timer fires when its instant has come; time does not pass a due timer. Two timers due at the
    same instant fire in either order. */
module StallMonitor {
  import opened Text

  datatype Config = Config(heartbeatInterval: nat, readTimeout: nat, maxConsecutiveMisses: int)

  datatype Reason = ReadTimeout | MaxMissesExceeded

  datatype Report = Report(reason: Reason, at: nat)

  /** The monitor's fields and timers; `reports` are the calls of the stall hook. */
  datatype State = State(
    now: nat,
    started: bool,
    stopped: bool,
    consecutiveMisses: nat,
    nextHeartbeat: Option<nat>,
    readDeadline: Option<nat>,
    reports: seq<Report>)

  const INITIAL := State(0, false, false, 0, None, None, [])

  /** Calls from outside, the two timers firing, and time passing. */
  datatype Op = Start | Inbound | Stop | Heartbeat | Deadline | Wait(duration: nat)

  predicate NotBefore(timer: Option<nat>, t: nat) {
    timer.Some? ==> t <= timer.value
  }

  predicate Legal(s: State, op: Op) {
    match op
    case Start => !s.started
    case Heartbeat => s.nextHeartbeat == Some(s.now)
    case Deadline => s.readDeadline == Some(s.now)
    case Wait(d) => NotBefore(s.nextHeartbeat, s.now + d) && NotBefore(s.readDeadline, s.now + d)
    case _ => true
  }

  function Stopped(s: State): State {
    if s.stopped then s else s.(stopped := true, nextHeartbeat := None, readDeadline := None)
  }

  function DeclareStalled(s: State, reason: Reason): State {
    if s.stopped then s else Stopped(s).(reports := s.reports + [Report(reason, s.now)])
  }

  function Step(s: State, op: Op, c: Config): State {
    match op
    case Start =>
      s.(started := true,
         readDeadline := Some(s.now + c.readTimeout),
         nextHeartbeat := Some(s.now + c.heartbeatInterval))
    case Inbound =>
      if s.stopped then s else s.(consecutiveMisses := 0, readDeadline := Some(s.now + c.readTimeout))
    case Stop => Stopped(s)
    case Heartbeat =>
      var rearmed := s.(nextHeartbeat := Some(s.now + c.heartbeatInterval));
      if s.stopped then rearmed
      else
        var missed := rearmed.(consecutiveMisses := s.consecutiveMisses + 1);
        if missed.consecutiveMisses >= c.maxConsecutiveMisses
        then DeclareStalled(missed.(readDeadline := None), MaxMissesExceeded) else missed
    case Deadline => DeclareStalled(s.(readDeadline := None), ReadTimeout)
    case Wait(d) => s.(now := s.now + d)
  }

  // ---- The monitor object ----

  class WebSocketStallMonitor {
    const config: Config
    var now: nat
    var started: bool
    var stopped: bool
    var consecutiveMisses: nat
    var nextHeartbeat: Option<nat>
    var readDeadline: Option<nat>
    var reports: seq<Report>

    function Contents(): State
      reads this
    {
      State(now, started, stopped, consecutiveMisses, nextHeartbeat, readDeadline, reports)
    }

    constructor (config: Config)
      ensures this.config == config && Contents() == INITIAL
    {
      this.config := config;
      now, started, stopped, consecutiveMisses := 0, false, false, 0;
      nextHeartbeat, readDeadline, reports := None, None, [];
    }

    method ArmReadDeadline()
      modifies this`readDeadline
      ensures readDeadline == Some(now + config.readTimeout)
    {
      readDeadline := Some(now + config.readTimeout);
    }

    method DoStart()
      modifies this
      ensures Contents() == Step(old(Contents()), Start, config)
    {
      started := true;
      ArmReadDeadline();
      nextHeartbeat := Some(now + config.heartbeatInterval);
    }

    method NoteActivity()
      modifies this
      ensures Contents() == Step(old(Contents()), Inbound, config)
    {
      if stopped { return; }
      consecutiveMisses := 0;
      ArmReadDeadline();
    }

    method DoStop()
      modifies this
      ensures Contents() == Step(old(Contents()), Stop, config)
    {
      if stopped { return; }
      stopped := true;
      nextHeartbeat := None;
      readDeadline := None;
    }

    method DoDeclareStalled(reason: Reason)
      modifies this
      ensures Contents() == DeclareStalled(old(Contents()), reason)
    {
      if stopped { return; }
      DoStop();
      reports := reports + [Report(reason, now)];
    }

    method SendHeartbeat()
      requires Legal(Contents(), Heartbeat)
      modifies this
      ensures Contents() == Step(old(Contents()), Heartbeat, config)
    {
      nextHeartbeat := Some(now + config.heartbeatInterval);
      if stopped { return; }
      consecutiveMisses := consecutiveMisses + 1;
      if consecutiveMisses >= config.maxConsecutiveMisses {
        readDeadline := None;
        DoDeclareStalled(MaxMissesExceeded);
      }
    }

    method ReadDeadlineFires()
      requires Legal(Contents(), Deadline)
      modifies this
      ensures Contents() == Step(old(Contents()), Deadline, config)
    {
      readDeadline := None;
      DoDeclareStalled(ReadTimeout);
    }
  }

  // ---- Runs ----

  function After(ops: seq<Op>, c: Config): State {
    if ops == [] then INITIAL else Step(After(ops[..|ops| - 1], c), ops[|ops| - 1], c)
  }

  predicate LegalRun(ops: seq<Op>, c: Config) {
    if ops == [] then true
    else LegalRun(ops[..|ops| - 1], c) && Legal(After(ops[..|ops| - 1], c), ops[|ops| - 1])
  }

  /** The instant since which there has been no inbound traffic: the last inbound message, or the start. */
  function SilentSince(ops: seq<Op>, c: Config): nat {
    if ops == [] then 0
    else
      var last := ops[|ops| - 1];
      if last.Inbound? || last.Start? then After(ops, c).now else SilentSince(ops[..|ops| - 1], c)
  }

  /** Heartbeats sent since the last inbound message. */
  function BeatsSince(ops: seq<Op>): nat {
    if ops == [] then 0
    else
      var last := ops[|ops| - 1];
      if last.Inbound? then 0
      else BeatsSince(ops[..|ops| - 1]) + if last.Heartbeat? then 1 else 0
  }

  /** Misses that stall the connection at the latest; a heartbeat always counts one. */
  function MissLimit(c: Config): nat {
    Max(1, c.maxConsecutiveMisses)
  }

  predicate Sane(c: Config) {
    c.heartbeatInterval > 0 && c.readTimeout > 0
  }

  /** A live monitor and the silence it has seen: since instant `silent`, with `beats` heartbeats. */
  predicate LiveInv(s: State, c: Config, silent: nat, beats: nat) {
    && s.reports == []
    && silent <= s.now
    && s.consecutiveMisses == beats < MissLimit(c)
    && (s.readDeadline.Some? ==> s.readDeadline.value == silent + c.readTimeout && s.now <= s.readDeadline.value)
    && (!s.started ==> s.nextHeartbeat.None? && beats == 0)
    && (s.started ==>
          && s.readDeadline.Some? && s.nextHeartbeat.Some?
          && s.now <= s.nextHeartbeat.value <= s.now + c.heartbeatInterval
          && s.nextHeartbeat.value <= silent + (beats + 1) * c.heartbeatInterval)
  }

  lemma LiveStep(s: State, op: Op, c: Config, silent: nat, beats: nat)
    requires Sane(c) && !s.stopped && LiveInv(s, c, silent, beats) && Legal(s, op)
    ensures var s' := Step(s, op, c);
      var silent' := if op.Inbound? || op.Start? then s'.now else silent;
      var beats' := if op.Inbound? then 0 else beats + if op.Heartbeat? then 1 else 0;
      !s'.stopped ==> LiveInv(s', c, silent', beats')
  {
    var h := c.heartbeatInterval;
    assert (beats + 2) * h == (beats + 1) * h + h;
    assert (0 + 1) * h == h;
  }

  /** The invariant of every legal run, while the monitor has not stopped. */
  lemma {:induction false} RunLive(ops: seq<Op>, c: Config)
    requires Sane(c) && LegalRun(ops, c) && !After(ops, c).stopped
    ensures LiveInv(After(ops, c), c, SilentSince(ops, c), BeatsSince(ops))
    decreases |ops|
  {
    if ops != [] {
      var front := ops[..|ops| - 1];
      assert !After(front, c).stopped by {
        if After(front, c).stopped { StoppedStays(After(front, c), ops[|ops| - 1], c); }
      }
      RunLive(front, c);
      LiveStep(After(front, c), ops[|ops| - 1], c, SilentSince(front, c), BeatsSince(front));
    }
  }

  lemma StoppedStays(s: State, op: Op, c: Config)
    requires s.stopped
    ensures Step(s, op, c).stopped && Step(s, op, c).reports == s.reports
  {
  }

  // ---- Safety ----

  /** Once stopped, nothing is ever reported again. */
  lemma {:induction false} SilentAfterStop(ops: seq<Op>, c: Config, i: nat)
    requires i <= |ops| && After(ops[..i], c).stopped
    ensures After(ops, c).stopped && After(ops, c).reports == After(ops[..i], c).reports
    decreases |ops|
  {
    if i == |ops| {
      assert ops[..i] == ops;
    } else {
      var front := ops[..|ops| - 1];
      assert front[..i] == ops[..i];
      SilentAfterStop(front, c, i);
      StoppedStays(After(front, c), ops[|ops| - 1], c);
    }
  }

  /** A step reports a stall for cause only: exactly `readTimeout` of silence, or at least the
      configured number of heartbeats without an answer. */
  predicate JustifiedReport(r: Report, ops: seq<Op>, c: Config) {
    r.at == After(ops, c).now &&
    match r.reason
    case ReadTimeout => r.at == SilentSince(ops, c) + c.readTimeout
    case MaxMissesExceeded => BeatsSince(ops) >= c.maxConsecutiveMisses && BeatsSince(ops) >= 1
  }

  /** In every legal run at most one stall is reported, the monitor has then stopped, and the report is
      justified by the run up to it. */
  lemma {:induction false} ReportedOnceForCause(ops: seq<Op>, c: Config)
    requires Sane(c) && LegalRun(ops, c)
    ensures |After(ops, c).reports| <= 1
    ensures After(ops, c).reports != [] ==> After(ops, c).stopped
    ensures After(ops, c).reports != [] ==>
      exists i :: 0 < i <= |ops|
        && After(ops[..i], c).reports == After(ops, c).reports
        && After(ops[..i - 1], c).reports == []
        && JustifiedReport(After(ops, c).reports[0], ops[..i], c)
    decreases |ops|
  {
    if ops != [] {
      var front, op := ops[..|ops| - 1], ops[|ops| - 1];
      var before, after := After(front, c), After(ops, c);
      ReportedOnceForCause(front, c);
      if before.stopped {
        StoppedStays(before, op, c);
        if after.reports != [] {
          var i :| 0 < i <= |front| && After(front[..i], c).reports == before.reports
            && After(front[..i - 1], c).reports == [] && JustifiedReport(before.reports[0], front[..i], c);
          assert ops[..i] == front[..i] && ops[..i - 1] == front[..i - 1];
        }
      } else {
        RunLive(front, c);
        if after.reports != [] {
          NewReportJustified(ops, c);
          assert ops[..|ops|] == ops;
        }
      }
    }
  }

  lemma NewReportJustified(ops: seq<Op>, c: Config)
    requires ops != [] && LegalRun(ops, c)
    requires var front := ops[..|ops| - 1];
      && !After(front, c).stopped && After(ops, c).reports != []
      && LiveInv(After(front, c), c, SilentSince(front, c), BeatsSince(front))
    ensures |After(ops, c).reports| == 1 && After(ops, c).stopped
    ensures JustifiedReport(After(ops, c).reports[0], ops, c)
  {
  }

  // ---- Detection ----

  predicate NeverStopped(ops: seq<Op>) {
    forall i :: 0 <= i < |ops| ==> !ops[i].Stop?
  }

  lemma {:induction false} StopOnlyByReport(ops: seq<Op>, c: Config)
    requires NeverStopped(ops) && After(ops, c).stopped
    ensures After(ops, c).reports != []
    decreases |ops|
  {
    if ops != [] {
      var front, op := ops[..|ops| - 1], ops[|ops| - 1];
      assert NeverStopped(front) && !op.Stop?;
      if After(front, c).stopped {
        StopOnlyByReport(front, c);
        StoppedStays(After(front, c), op, c);
      }
    }
  }

  /** No running monitor is ever silent beyond the read timeout, nor beyond the configured number of
      heartbeat intervals: by then it has reported, unless it was stopped from outside. */
  lemma SilenceIsReportedInTime(ops: seq<Op>, c: Config)
    requires Sane(c) && LegalRun(ops, c) && After(ops, c).started && NeverStopped(ops)
    ensures After(ops, c).reports == [] ==>
      && After(ops, c).now <= SilentSince(ops, c) + c.readTimeout
      && After(ops, c).now <= SilentSince(ops, c) + MissLimit(c) * c.heartbeatInterval
  {
    if After(ops, c).stopped {
      StopOnlyByReport(ops, c);
    } else {
      RunLive(ops, c);
      var beats, h := BeatsSince(ops), c.heartbeatInterval;
      MulMonotone(beats + 1, MissLimit(c), h);
    }
  }

  lemma MulMonotone(a: nat, b: nat, h: nat)
    requires a <= b
    ensures a * h <= b * h
  {
    assert b * h - a * h == (b - a) * h;
  }

  /** And at the very instant the read timeout is reached, a monitor that has not stopped cannot wait
      any longer: the only way on is to fire. */
  lemma DeadlineIsUrgent(ops: seq<Op>, c: Config, d: nat)
    requires Sane(c) && LegalRun(ops, c) && After(ops, c).started && !After(ops, c).stopped
    requires After(ops, c).now == SilentSince(ops, c) + c.readTimeout && d > 0
    ensures !Legal(After(ops, c), Wait(d)) && Legal(After(ops, c), Deadline)
    ensures Step(After(ops, c), Deadline, c).reports == [Report(ReadTimeout, After(ops, c).now)]
  {
    RunLive(ops, c);
  }

  // ---- Connections that answer ----

  /** The read deadline never fires: inbound traffic always comes in time. */
  predicate Timely(ops: seq<Op>) {
    forall i :: 0 <= i < |ops| ==> !ops[i].Deadline?
  }

  /** At no point were `limit` heartbeats sent without inbound traffic. */
  predicate BeatsBelow(ops: seq<Op>, limit: nat) {
    forall i :: 0 <= i <= |ops| ==> BeatsSince(ops[..i]) < limit
  }

  lemma FrontOf(ops: seq<Op>, limit: nat)
    requires ops != []
    ensures var front := ops[..|ops| - 1];
      && (Timely(ops) <==> Timely(front) && !ops[|ops| - 1].Deadline?)
      && (BeatsBelow(ops, limit) <==> BeatsBelow(front, limit) && BeatsSince(ops) < limit)
      && (NeverStopped(ops) ==> NeverStopped(front) && !ops[|ops| - 1].Stop?)
  {
    var front := ops[..|ops| - 1];
    assert ops == front + [ops[|ops| - 1]] && ops[..|ops|] == ops;
    forall i | 0 <= i <= |front| ensures front[..i] == ops[..i] {
    }
    if BeatsBelow(ops, limit) {
      forall i | 0 <= i <= |front| ensures BeatsSince(front[..i]) < limit {
        assert BeatsSince(ops[..i]) < limit;
      }
    }
    if BeatsBelow(front, limit) && BeatsSince(ops) < limit {
      forall i | 0 <= i <= |ops| ensures BeatsSince(ops[..i]) < limit {
        if i < |ops| {
          assert BeatsSince(front[..i]) < limit;
        }
      }
    }
  }

  /** Nothing is reported in a legal run without a stop exactly when the read deadline never fires and the
      heartbeats without an answer stay below the limit. */
  lemma {:induction false} UnreportedExactly(ops: seq<Op>, c: Config)
    requires Sane(c) && LegalRun(ops, c) && NeverStopped(ops)
    ensures After(ops, c).reports == [] <==> Timely(ops) && BeatsBelow(ops, MissLimit(c))
    decreases |ops|
  {
    if ops == [] {
      assert forall i :: 0 <= i <= |ops| ==> ops[..i] == [];
    } else {
      var front, op := ops[..|ops| - 1], ops[|ops| - 1];
      FrontOf(ops, MissLimit(c));
      UnreportedExactly(front, c);
      if After(front, c).stopped {
        StopOnlyByReport(front, c);
        StoppedStays(After(front, c), op, c);
      } else {
        RunLive(front, c);
      }
    }
  }

  /** Every heartbeat is answered before the next one, and the read deadline never fires. */
  predicate Healthy(ops: seq<Op>) {
    Timely(ops) && BeatsBelow(ops, 2)
  }

  lemma {:induction false} HealthyIsUnreported(ops: seq<Op>, c: Config)
    requires Sane(c) && LegalRun(ops, c) && Healthy(ops) && c.maxConsecutiveMisses >= 2
    ensures After(ops, c).reports == []
    decreases |ops|
  {
    if ops != [] {
      var front, op := ops[..|ops| - 1], ops[|ops| - 1];
      FrontOf(ops, 2);
      HealthyIsUnreported(front, c);
      if After(front, c).stopped {
        StoppedStays(After(front, c), op, c);
      } else {
        RunLive(front, c);
      }
    }
  }

  /** A run with inbound traffic at every instant up to `t`. */
  function Chatter(t: nat): seq<Op> {
    if t == 0 then [Start] else Chatter(t - 1) + [Wait(1)] + [Inbound]
  }

  lemma OneMore(ops: seq<Op>, op: Op, c: Config)
    ensures After(ops + [op], c) == Step(After(ops, c), op, c)
    ensures LegalRun(ops + [op], c) <==> LegalRun(ops, c) && Legal(After(ops, c), op)
    ensures BeatsSince(ops + [op])
         == if op.Inbound? then 0 else BeatsSince(ops) + if op.Heartbeat? then 1 else 0
  {
    assert (ops + [op])[..|ops|] == ops;
  }

  lemma HealthyMore(ops: seq<Op>, op: Op)
    requires Healthy(ops) && !op.Deadline? && BeatsSince(ops + [op]) < 2
    ensures Healthy(ops + [op])
  {
    assert (ops + [op])[..|ops + [op]| - 1] == ops;
    FrontOf(ops + [op], 2);
  }

  /** The monitor of such a run. */
  function Chatting(t: nat, c: Config): State {
    State(t, true, false, 0, Some(c.heartbeatInterval), Some(t + c.readTimeout), [])
  }

  lemma NothingIsHealthy(none: seq<Op>)
    requires none == []
    ensures Healthy(none)
  {
    assert forall i :: 0 <= i <= |none| ==> none[..i] == none;
  }

  lemma {:induction false} ChatterRuns(t: nat, c: Config)
    requires Sane(c) && t <= c.heartbeatInterval
    ensures LegalRun(Chatter(t), c) && Healthy(Chatter(t)) && BeatsSince(Chatter(t)) == 0
    ensures After(Chatter(t), c) == Chatting(t, c)
  {
    hide Healthy;
    if t == 0 {
      assert [] + [Start] == [Start];
      OneMore([], Start, c);
      NothingIsHealthy([]);
      HealthyMore([], Start);
    } else {
      ChatterRuns(t - 1, c);
      ChatterGoesOn(Chatter(t - 1), t, c);
    }
  }

  lemma ChatterGoesOn(ops: seq<Op>, t: nat, c: Config)
    requires Sane(c) && 0 < t <= c.heartbeatInterval
    requires LegalRun(ops, c) && Healthy(ops) && BeatsSince(ops) == 0 && After(ops, c) == Chatting(t - 1, c)
    ensures var ops' := ops + [Wait(1)] + [Inbound];
      LegalRun(ops', c) && Healthy(ops') && BeatsSince(ops') == 0 && After(ops', c) == Chatting(t, c)
  {
    hide LegalRun, Healthy, BeatsSince, After;
    OneMore(ops, Wait(1), c);
    OneMore(ops + [Wait(1)], Inbound, c);
    HealthyMore(ops, Wait(1));
    HealthyMore(ops + [Wait(1)], Inbound);
  }

  /** With a limit of at most one, the first ping stalls a connection with traffic at every instant. */
  lemma FirstPingStalls(c: Config) returns (ops: seq<Op>)
    requires Sane(c) && c.maxConsecutiveMisses < 2
    ensures LegalRun(ops, c) && Healthy(ops) && After(ops, c).reports != []
  {
    hide LegalRun, Healthy, BeatsSince, After;
    var chatter := Chatter(c.heartbeatInterval);
    ChatterRuns(c.heartbeatInterval, c);
    OneMore(chatter, Heartbeat, c);
    HealthyMore(chatter, Heartbeat);
    ops := chatter + [Heartbeat];
  }

  /** A connection that answers every heartbeat before the next and is never silent for the read timeout
      is never reported exactly when the configured number of misses is at least two. */
  lemma HealthyExact(c: Config)
    requires Sane(c)
    ensures (forall ops :: LegalRun(ops, c) && Healthy(ops) ==> After(ops, c).reports == [])
      <==> c.maxConsecutiveMisses >= 2
  {
    if c.maxConsecutiveMisses >= 2 {
      forall ops | LegalRun(ops, c) && Healthy(ops) ensures After(ops, c).reports == [] {
        HealthyIsUnreported(ops, c);
      }
    } else {
      var ops := FirstPingStalls(c);
    }
  }

  // ---- When heartbeats are due ----

  /** The instant of the last start. */
  function StartOf(ops: seq<Op>, c: Config): nat {
    if ops == [] then 0
    else if ops[|ops| - 1].Start? then After(ops, c).now else StartOf(ops[..|ops| - 1], c)
  }

  /** Heartbeats sent since then. */
  function BeatsSent(ops: seq<Op>): nat {
    if ops == [] then 0
    else
      var last := ops[|ops| - 1];
      if last.Start? then 0 else BeatsSent(ops[..|ops| - 1]) + if last.Heartbeat? then 1 else 0
  }

  /** Heartbeats are due at every full interval after the start, whatever traffic there is. */
  lemma {:induction false} BeatsAreRegular(ops: seq<Op>, c: Config)
    requires LegalRun(ops, c) && After(ops, c).started && !After(ops, c).stopped
    ensures After(ops, c).nextHeartbeat == Some(StartOf(ops, c) + (BeatsSent(ops) + 1) * c.heartbeatInterval)
    decreases |ops|
  {
    if ops != [] {
      var front, op := ops[..|ops| - 1], ops[|ops| - 1];
      if After(front, c).stopped {
        StoppedStays(After(front, c), op, c);
      } else if !op.Start? {
        BeatsAreRegular(front, c);
        var n, h := BeatsSent(front), c.heartbeatInterval;
        assert (n + 2) * h == (n + 1) * h + h;
      }
    }
  }

  /** Once stopped, traffic and another stop change nothing. */
  lemma StoppedIsInert(s: State, c: Config)
    requires s.stopped
    ensures Step(s, Inbound, c) == s && Step(s, Stop, c) == s
  {
  }

  /** A stop disarms both timers. */
  lemma StopDisarms(s: State, c: Config)
    requires !s.stopped
    ensures var s' := Step(s, Stop, c);
      s'.stopped && s'.nextHeartbeat.None? && s'.readDeadline.None? && s'.reports == s.reports
  {
  }
}
