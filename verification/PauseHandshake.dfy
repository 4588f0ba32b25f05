/**
 The pause, resume and exit handshake of `esp_webrtc.c` between the peer thread (`pc_task`) and the
 one thread that handles signaling messages and API calls. Every read and write of a shared flag,
 and each half of a wait ("wait for the bit", then "clear the bit"), is a step of its own.
 */
module PauseHandshake {

  /** Where `pc_task` is. */
  datatype Task =
    | NotCreated
    | CheckRunning
    | CheckPause
    | SetPaused
    | WaitResume
    | ClearResume
    | InMainLoop   // inside esp_peer_main_loop
    | Sleeping
    | SetExit
    | Exited

  /** Where the controller is. */
  datatype Control =
    | Free
    | ByeWaitPaused      // BYE: pause set, waiting for PAUSED
    | ByeClearPaused
    | ByeSection         // BYE: disconnecting, stopping the stream, reconnecting
    | SignalResume       // pause cleared, RESUME not set yet
    | CloseStart         // pc_close: peer disconnected, pause not looked at yet
    | CloseSignalResume
    | CloseStop          // about to clear running
    | CloseWaitExit
    | CloseClearExit
    | ClosePeer          // about to call esp_peer_close

  /** `wasRunning` is pc_close's local `still_running`. */
  datatype State = State(
    peer: bool,
    running: bool,
    pause: bool,
    exitBit: bool,
    pausedBit: bool,
    resumeBit: bool,
    wasRunning: bool,
    task: Task,
    ctl: Control)

  datatype Action =
    | TaskStep
    | StartPeer(eventOk: bool)   // pc_start: the event group may fail to be created
    | Bye
    | ByeWakes
    | ByeClears
    | ByeEnds(reconnect: bool)   // reconnect: no_auto_reconnect is false
    | Enable                     // esp_webrtc_enable_peer_connection(true), signaling connected
    | Resumes
    | Close                      // esp_webrtc_enable_peer_connection(false)
    | CloseChecksPause
    | CloseResumes
    | CloseStops
    | CloseWakes
    | CloseClears
    | CloseFrees

  function Init(): State
  {
    State(false, false, false, false, false, false, false, NotCreated, Free)
  }

  // ---------------------------------------------------------------------------------------
  // Steps
  // ---------------------------------------------------------------------------------------

  predicate TaskEnabled(s: State)
  {
    match s.task
    case NotCreated => false
    case Exited => false
    case WaitResume => s.resumeBit
    case _ => true
  }

  predicate Enabled(s: State, a: Action)
  {
    match a
    case TaskStep => TaskEnabled(s)
    case StartPeer(_) => s.ctl.Free? && !s.peer
    case Bye => s.ctl.Free?
    case ByeWakes => s.ctl.ByeWaitPaused? && s.pausedBit
    case ByeClears => s.ctl.ByeClearPaused?
    case ByeEnds(_) => s.ctl.ByeSection?
    case Enable => s.ctl.Free? && s.peer
    case Resumes => s.ctl.SignalResume?
    case Close => s.ctl.Free?
    case CloseChecksPause => s.ctl.CloseStart?
    case CloseResumes => s.ctl.CloseSignalResume?
    case CloseStops => s.ctl.CloseStop?
    case CloseWakes => s.ctl.CloseWaitExit? && s.exitBit
    case CloseClears => s.ctl.CloseClearExit?
    case CloseFrees => s.ctl.ClosePeer?
  }

  function StepTask(s: State): State
  {
    match s.task
    case NotCreated => s
    case CheckRunning => s.(task := if s.running then CheckPause else SetExit)
    case CheckPause => s.(task := if s.pause then SetPaused else InMainLoop)
    case SetPaused => s.(pausedBit := true, task := WaitResume)
    case WaitResume => s.(task := ClearResume)
    case ClearResume => s.(resumeBit := false, task := CheckRunning)
    case InMainLoop => s.(task := Sleeping)
    case Sleeping => s.(task := CheckRunning)
    case SetExit => s.(exitBit := true, task := Exited)
    case Exited => s
  }

  function Apply(s: State, a: Action): State
  {
    match a
    case TaskStep => StepTask(s)
    case StartPeer(eventOk) =>
      if eventOk then
        s.(peer := true, running := true, task := CheckRunning,
           exitBit := false, pausedBit := false, resumeBit := false)
      else s.(peer := true)
    case Bye =>
      if !s.running then s
      else if !s.pause then s.(pause := true, ctl := ByeWaitPaused)
      else s.(ctl := ByeSection)
    case ByeWakes => s.(ctl := ByeClearPaused)
    case ByeClears => s.(pausedBit := false, ctl := ByeSection)
    case ByeEnds(reconnect) =>
      if reconnect && s.pause then s.(pause := false, ctl := SignalResume) else s.(ctl := Free)
    case Enable => if s.pause then s.(pause := false, ctl := SignalResume) else s
    case Resumes => s.(resumeBit := true, ctl := Free)
    case Close => if s.peer then s.(wasRunning := s.running, ctl := CloseStart) else s
    case CloseChecksPause =>
      if s.pause then s.(pause := false, ctl := CloseSignalResume) else s.(ctl := CloseStop)
    case CloseResumes => s.(resumeBit := true, ctl := CloseStop)
    case CloseStops =>
      s.(running := false, ctl := if s.wasRunning then CloseWaitExit else ClosePeer)
    case CloseWakes => s.(ctl := CloseClearExit)
    case CloseClears => s.(exitBit := false, ctl := ClosePeer)
    case CloseFrees => s.(peer := false, task := NotCreated, ctl := Free)
  }

  // ---------------------------------------------------------------------------------------
  // The invariant
  // ---------------------------------------------------------------------------------------

  /** From the return of BYE's wait until the resume, however many calls later. */
  predicate PausedSection(s: State)
  {
    (s.pause && !s.ctl.ByeWaitPaused?) || s.ctl.SignalResume? || s.ctl.CloseSignalResume?
  }

  predicate TaskAlive(s: State)
  {
    !s.task.NotCreated? && !s.task.Exited?
  }

  predicate Inv(s: State)
  {
    // `pc_task` is parked for the whole of a paused section
    && (PausedSection(s) ==> s.task.WaitResume? && !s.resumeBit)
    // no stale PAUSED: the bit is up only between the signal of `pc_task` and the controller's clear
    && (s.pausedBit ==> (s.ctl.ByeWaitPaused? || s.ctl.ByeClearPaused?) && s.task.WaitResume? && !s.resumeBit)
    // no stale RESUME: the bit is up only while `pc_task` has still to consume it
    && (s.resumeBit ==> s.task.WaitResume? || s.task.ClearResume?)
    && (s.task.ClearResume? ==> s.resumeBit)
    // a parked `pc_task` was paused by BYE, or has been told to go on
    && (s.task.WaitResume? && !s.resumeBit ==> s.pausedBit || PausedSection(s))
    && (s.task.SetPaused? ==> s.ctl.ByeWaitPaused?)
    && (s.ctl.ByeWaitPaused? ==> s.pause && s.running)
    && (s.ctl.ByeClearPaused? ==> s.pause && s.running && s.pausedBit)
    && (s.ctl.ByeSection? ==> s.pause && s.running)
    && (s.ctl.SignalResume? || s.ctl.CloseSignalResume? ==> !s.pause && s.running)
    && (s.pause ==> s.running)
    // the life of `pc_task`
    && (s.running ==> TaskAlive(s) && s.peer)
    && (TaskAlive(s) ==> s.peer)
    && (s.task.Exited? ==> !s.running && s.peer)
    && (s.task.SetExit? ==> !s.running)
    && (s.ctl.CloseStart? || s.ctl.CloseStop? || s.ctl.CloseSignalResume? ==> s.wasRunning == s.running && s.peer)
    && (s.ctl.CloseStop? ==> !s.pause)
    && (s.ctl.CloseWaitExit? ==> !s.running && !s.pause && (TaskAlive(s) || (s.task.Exited? && s.exitBit)))
    && (s.ctl.CloseClearExit? || s.ctl.ClosePeer? ==> !s.running && !s.pause && !TaskAlive(s))
    && (s.ctl.ClosePeer? ==> !s.exitBit)
    && (s.exitBit ==> s.task.Exited?)
    && (!s.running && TaskAlive(s) ==> s.ctl.CloseWaitExit?)
    && (s.task.Exited? ==> s.ctl.CloseWaitExit? || s.ctl.CloseClearExit? || s.ctl.ClosePeer?)
  }

  lemma InitInv()
    ensures Inv(Init())
  {
  }

  lemma StepInv(s: State, a: Action)
    requires Inv(s) && Enabled(s, a)
    ensures Inv(Apply(s, a))
  {
  }

  // ---------------------------------------------------------------------------------------
  // Runs
  // ---------------------------------------------------------------------------------------

  predicate Feasible(s: State, trace: seq<Action>)
    decreases |trace|
  {
    trace == [] || (Enabled(s, trace[0]) && Feasible(Apply(s, trace[0]), trace[1..]))
  }

  function Run(s: State, trace: seq<Action>): State
    requires Feasible(s, trace)
    decreases |trace|
  {
    if trace == [] then s else Run(Apply(s, trace[0]), trace[1..])
  }

  lemma {:induction false} RunInv(s: State, trace: seq<Action>)
    requires Inv(s) && Feasible(s, trace)
    ensures Inv(Run(s, trace))
    decreases |trace|
  {
    hide Inv, Enabled, Apply;
    if trace != [] {
      StepInv(s, trace[0]);
      RunInv(Apply(s, trace[0]), trace[1..]);
    }
  }

  /**
   In every reachable state: a paused `pc_task` is parked, the peer is freed only when `pc_task` has
   left its loop or never existed, the main loop only runs on a live peer, and no resume is lost:
   unless paused or being controlled, a live `pc_task` can go on.
   */
  lemma EveryRunIsSafe(trace: seq<Action>)
    requires Feasible(Init(), trace)
    ensures var s := Run(Init(), trace);
            && (PausedSection(s) ==> !TaskEnabled(s) && !s.task.InMainLoop?)
            && (Enabled(s, CloseFrees) ==> s.task.Exited? || s.task.NotCreated?)
            && (s.task.InMainLoop? ==> s.peer)
            && (s.ctl.Free? ==> !s.pausedBit && !s.exitBit)
            && (s.ctl.Free? && !s.pause && TaskAlive(s) ==> TaskEnabled(s))
  {
    InitInv();
    RunInv(Init(), trace);
    hide Feasible, Run;
  }

  predicate Resuming(a: Action)
  {
    a.Resumes? || a.CloseResumes?
  }

  /**
   The pause is airtight: from the moment BYE's wait for PAUSED returns, whatever messages and API
   calls follow, `pc_task` does not take a single step until the controller signals RESUME.
   */
  lemma {:induction false} PauseHoldsUntilResume(s: State, trace: seq<Action>)
    requires Inv(s) && PausedSection(s) && Feasible(s, trace)
    requires forall i :: 0 <= i < |trace| ==> !Resuming(trace[i])
    ensures PausedSection(Run(s, trace)) && Run(s, trace).task == s.task == WaitResume
    ensures forall i :: 0 <= i < |trace| ==> trace[i] != TaskStep
    decreases |trace|
  {
    if trace != [] {
      var t := Apply(s, trace[0]);
      StepInv(s, trace[0]);
      assert PausedSection(t) && t.task == s.task && trace[0] != TaskStep;
      hide Inv, Enabled, Apply, PausedSection;
      PauseHoldsUntilResume(t, trace[1..]);
      forall i | 0 <= i < |trace| ensures trace[i] != TaskStep {
        if i > 0 {
          assert trace[1..][i - 1] == trace[i];
        }
      }
    }
  }

  /** BYE's wait returns into a paused section. */
  lemma ByeEntersPausedSection(s: State)
    requires Inv(s) && Enabled(s, ByeWakes)
    ensures PausedSection(Apply(s, ByeWakes)) && Inv(Apply(s, ByeWakes))
  {
    StepInv(s, ByeWakes);
  }

  // ---------------------------------------------------------------------------------------
  // The handshake never hangs
  // ---------------------------------------------------------------------------------------

  /** The controller waits for a bit that is not set. */
  predicate Blocked(s: State)
  {
    (s.ctl.ByeWaitPaused? && !s.pausedBit) || (s.ctl.CloseWaitExit? && !s.exitBit)
  }

  /** How many steps `pc_task` is from setting the bit the controller waits for. */
  function Distance(s: State): nat
  {
    if s.ctl.ByeWaitPaused? then
      match s.task
      case SetPaused => 1
      case CheckPause => 2
      case CheckRunning => 3
      case Sleeping => 4
      case ClearResume => 4
      case _ => 5
    else
      match s.task
      case SetExit => 1
      case CheckRunning => 2
      case Sleeping => 3
      case ClearResume => 3
      case InMainLoop => 4
      case WaitResume => 4
      case _ => 5
  }

  /** While the controller is blocked only `pc_task` can move, it can, and it comes closer. */
  lemma BlockedMeansTaskMoves(s: State, a: Action)
    requires Inv(s) && Blocked(s)
    ensures Enabled(s, a) <==> a == TaskStep
    ensures Blocked(StepTask(s)) ==> Distance(StepTask(s)) < Distance(s)
  {
  }

  lemma OneStep(s: State, a: Action)
    requires Enabled(s, a)
    ensures Feasible(s, [a]) && Run(s, [a]) == Apply(s, a)
  {
    hide Enabled, Apply;
    assert [a][1..] == [];
    assert Run(Apply(s, a), []) == Apply(s, a);
  }

  /** Hence every wait of the controller ends after at most five steps of `pc_task`. */
  lemma {:induction false} WaitsEnd(s: State, trace: seq<Action>)
    requires Inv(s) && Blocked(s) && Feasible(s, trace) && |trace| >= Distance(s)
    ensures exists n :: 0 < n <= Distance(s) <= 5 && Feasible(s, trace[..n]) && !Blocked(Run(s, trace[..n]))
    decreases |trace|
  {
    BlockedMeansTaskMoves(s, trace[0]);
    StepInv(s, trace[0]);
    var t := Apply(s, trace[0]);
    if !Blocked(t) {
      OneStep(s, trace[0]);
      assert trace[..1] == [trace[0]];
    } else {
      hide Inv, Enabled, Apply, Blocked, Distance;
      WaitsEnd(t, trace[1..]);
      var n :| 0 < n <= Distance(t) && Feasible(t, trace[1..][..n]) && !Blocked(Run(t, trace[1..][..n]));
      assert trace[..n + 1][1..] == trace[1..][..n];
      assert Feasible(s, trace[..n + 1]) && Run(s, trace[..n + 1]) == Run(t, trace[1..][..n]);
    }
  }

  // ---------------------------------------------------------------------------------------
  // What the calls achieve
  // ---------------------------------------------------------------------------------------

  /** The controller may do its own part of a call, or waits for `pc_task`. */
  predicate OwnStep(a: Action)
  {
    !a.TaskStep?
  }

  /**
   BYE with automatic reconnect, and enabling the connection while paused, resume `pc_task`: the
   pause flag is down, the only step that can follow is the RESUME signal, and it is up after that.
   */
  lemma ResumeIsSignalled(s: State, a: Action, b: Action)
    requires Inv(s) && Enabled(s, a)
    requires a == ByeEnds(true) || (a == Enable && s.pause)
    ensures var t := Apply(s, a);
            && !t.pause && (Enabled(t, b) <==> b == Resumes)
            && var u := Apply(t, Resumes);
               u.ctl.Free? && !u.pause && u.resumeBit && u.running && u.task == s.task == WaitResume
  {
    StepInv(s, a);
  }

  /** Without automatic reconnect BYE leaves `pc_task` paused, for a later call to resume. */
  lemma ByeWithoutReconnectStaysPaused(s: State)
    requires Inv(s) && Enabled(s, ByeEnds(false))
    ensures var t := Apply(s, ByeEnds(false)); t.ctl.Free? && t.pause && t.running && !TaskEnabled(t)
  {
    StepInv(s, ByeEnds(false));
  }

  /** A call that starts a new connection while nothing is paused disturbs nothing. */
  lemma EnableUnpaused(s: State)
    requires Enabled(s, Enable) && !s.pause
    ensures Apply(s, Enable) == s
  {
  }

  /** The own steps `pc_task` needs to get into the main loop. */
  function ToMainLoop(t: Task): nat
  {
    match t
    case InMainLoop => 0
    case CheckPause => 1
    case CheckRunning => 2
    case Sleeping => 3
    case ClearResume => 3
    case _ => 4
  }

  function TaskSteps(trace: seq<Action>): nat
  {
    if trace == [] then 0 else (if trace[0].TaskStep? then 1 else 0) + TaskSteps(trace[1..])
  }

  /** Nobody pauses or closes. */
  predicate LeftAlone(trace: seq<Action>)
  {
    forall i :: 0 <= i < |trace| ==> !trace[i].Bye? && !trace[i].Close?
  }

  predicate GoingOn(s: State)
  {
    Inv(s) && s.ctl.Free? && !s.pause && s.running
  }

  lemma GoingOnStep(s: State, a: Action)
    requires GoingOn(s) && Enabled(s, a) && !a.Bye? && !a.Close? && !s.task.InMainLoop?
    ensures GoingOn(Apply(s, a))
    ensures if a.TaskStep? then ToMainLoop(Apply(s, a).task) < ToMainLoop(s.task) else Apply(s, a).task == s.task
  {
    StepInv(s, a);
  }

  /**
   An unpaused `pc_task` that is left alone can always go on, and is in the main loop after at most
   four steps of its own, whatever else happens meanwhile.
   */
  lemma {:induction false} TaskReachesMainLoop(s: State, trace: seq<Action>)
    requires GoingOn(s) && Feasible(s, trace) && LeftAlone(trace) && TaskSteps(trace) >= ToMainLoop(s.task)
    ensures ToMainLoop(s.task) <= 4 && TaskEnabled(s)
    ensures exists n :: 0 <= n <= |trace| && Feasible(s, trace[..n]) && Run(s, trace[..n]).task.InMainLoop?
    decreases |trace|
  {
    if s.task.InMainLoop? {
      assert trace[..0] == [];
      assert Feasible(s, trace[..0]) && Run(s, trace[..0]).task.InMainLoop?;
    } else {
      var t := Apply(s, trace[0]);
      GoingOnStep(s, trace[0]);
      hide Inv, Enabled, Apply;
      assert LeftAlone(trace[1..]);
      TaskReachesMainLoop(t, trace[1..]);
      var n :| 0 <= n <= |trace[1..]| && Feasible(t, trace[1..][..n]) && Run(t, trace[1..][..n]).task.InMainLoop?;
      RunPrefix(s, trace, n);
    }
  }

  /** One step and then `n` more. */
  lemma RunPrefix(s: State, trace: seq<Action>, n: nat)
    requires trace != [] && n < |trace| && Enabled(s, trace[0]) && Feasible(Apply(s, trace[0]), trace[1..][..n])
    ensures Feasible(s, trace[..n + 1])
    ensures Run(s, trace[..n + 1]) == Run(Apply(s, trace[0]), trace[1..][..n])
  {
    hide Enabled, Apply;
    assert trace[..n + 1][1..] == trace[1..][..n];
  }

  /** Steps of anyone until BYE's section, once BYE has begun on a running peer. */
  function ToByeSection(s: State): nat
  {
    if s.ctl.ByeWaitPaused? then (if s.pausedBit then 2 else 2 + Distance(s))
    else if s.ctl.ByeClearPaused? then 1
    else 0
  }

  predicate EnteringBye(c: Control)
  {
    c.ByeWaitPaused? || c.ByeClearPaused?
  }

  lemma ByeStep(s: State, a: Action)
    requires Inv(s) && EnteringBye(s.ctl) && Enabled(s, a)
    ensures var t := Apply(s, a);
            && ToByeSection(t) < ToByeSection(s) <= 7 && (EnteringBye(t.ctl) || t.ctl.ByeSection?)
  {
  }

  /** Somebody can always take a step. */
  lemma ByeCanGoOn(s: State)
    requires Inv(s) && EnteringBye(s.ctl)
    ensures Enabled(s, TaskStep) || Enabled(s, ByeWakes) || Enabled(s, ByeClears)
  {
  }

  lemma {:induction false} EnteringByeEnds(s: State, trace: seq<Action>)
    requires Inv(s) && EnteringBye(s.ctl) && Feasible(s, trace) && |trace| >= ToByeSection(s)
    ensures exists n :: 0 < n <= ToByeSection(s) && n <= |trace| && Feasible(s, trace[..n]) && Run(s, trace[..n]).ctl.ByeSection?
    decreases |trace|
  {
    ByeCanGoOn(s);
    ByeStepsLeft(s);
    var t := Apply(s, trace[0]);
    ByeStep(s, trace[0]);
    StepInv(s, trace[0]);
    hide Inv, Enabled, Apply, ToByeSection;
    if t.ctl.ByeSection? {
      assert trace[1..][..0] == [];
      RunPrefix(s, trace, 0);
    } else {
      EnteringByeEnds(t, trace[1..]);
      var n :| 0 < n <= ToByeSection(t) && n <= |trace[1..]| && Feasible(t, trace[1..][..n]) && Run(t, trace[1..][..n]).ctl.ByeSection?;
      RunPrefix(s, trace, n);
    }
  }

  lemma ByeStepsLeft(s: State)
    requires EnteringBye(s.ctl)
    ensures 0 < ToByeSection(s)
  {
  }

  /** BYE on a running peer reaches its paused section after at most seven more steps of anyone. */
  lemma ByeReachesSection(s: State, trace: seq<Action>)
    requires Inv(s) && s.ctl.Free? && s.running && Feasible(Apply(s, Bye), trace) && |trace| >= 7
    ensures exists n :: 0 <= n <= 7 && Feasible(Apply(s, Bye), trace[..n])
                        && var t := Run(Apply(s, Bye), trace[..n]);
                           t.ctl.ByeSection? && t.pause && !TaskEnabled(t)
  {
    var t := Apply(s, Bye);
    StepInv(s, Bye);
    if t.ctl.ByeSection? {
      assert trace[..0] == [] && Feasible(t, trace[..0]);
      SectionIsPaused(Run(t, trace[..0]));
    } else {
      ByeBound(t);
      hide Apply, Enabled, ToByeSection;
      EnteringByeEnds(t, trace);
      var n :| 0 < n <= ToByeSection(t) && n <= |trace| && Feasible(t, trace[..n]) && Run(t, trace[..n]).ctl.ByeSection?;
      RunInv(t, trace[..n]);
      SectionIsPaused(Run(t, trace[..n]));
    }
  }

  lemma SectionIsPaused(t: State)
    requires Inv(t) && t.ctl.ByeSection?
    ensures t.pause && !TaskEnabled(t)
  {
  }

  lemma ByeBound(s: State)
    requires Inv(s)
    ensures ToByeSection(s) <= 7
  {
  }

  /** The controller's own steps until pc_close is over. */
  function ToClosed(c: Control): nat
  {
    match c
    case CloseStart => 6
    case CloseSignalResume => 5
    case CloseStop => 4
    case CloseWaitExit => 3
    case CloseClearExit => 2
    case ClosePeer => 1
    case _ => 0
  }

  function OwnSteps(trace: seq<Action>): nat
  {
    if trace == [] then 0 else (if OwnStep(trace[0]) then 1 else 0) + OwnSteps(trace[1..])
  }

  /** The peer and its task are gone. */
  predicate NoPeer(s: State)
  {
    s.ctl.Free? && !s.peer && s.task.NotCreated? && !s.running && !s.pause
  }

  lemma CloseStep(s: State, a: Action)
    requires Inv(s) && ToClosed(s.ctl) > 0 && Enabled(s, a)
    ensures var t := Apply(s, a);
            if a.TaskStep? then t.ctl == s.ctl
            else ToClosed(t.ctl) < ToClosed(s.ctl) && (ToClosed(t.ctl) == 0 ==> NoPeer(t))
  {
  }

  /** In the middle of pc_close either the controller can go on, or it waits and `pc_task` can. */
  lemma CloseCanGoOn(s: State)
    requires Inv(s) && ToClosed(s.ctl) > 0
    ensures Blocked(s) || exists a :: OwnStep(a) && Enabled(s, a)
    ensures Blocked(s) ==> TaskEnabled(s)
  {
    assert s.ctl.CloseStart? ==> Enabled(s, CloseChecksPause);
    assert s.ctl.CloseSignalResume? ==> Enabled(s, CloseResumes);
    assert s.ctl.CloseStop? ==> Enabled(s, CloseStops);
    assert s.ctl.CloseWaitExit? && s.exitBit ==> Enabled(s, CloseWakes);
    assert s.ctl.CloseClearExit? ==> Enabled(s, CloseClears);
    assert s.ctl.ClosePeer? ==> Enabled(s, CloseFrees);
  }

  /** pc_close takes at most six own steps and then leaves no peer and no task. */
  lemma {:induction false} CloseRun(s: State, trace: seq<Action>)
    requires Inv(s) && ToClosed(s.ctl) > 0 && Feasible(s, trace)
    ensures (ToClosed(Run(s, trace).ctl) > 0 && OwnSteps(trace) + ToClosed(Run(s, trace).ctl) <= ToClosed(s.ctl))
            || exists n :: 0 < n <= |trace| && Feasible(s, trace[..n]) && NoPeer(Run(s, trace[..n]))
    decreases |trace|
  {
    if trace != [] {
      var t := Apply(s, trace[0]);
      CloseStep(s, trace[0]);
      StepInv(s, trace[0]);
      hide Inv, Enabled, Apply, ToClosed, NoPeer;
      if ToClosed(t.ctl) == 0 {
        assert trace[1..][..0] == [];
        RunPrefix(s, trace, 0);
      } else {
        CloseRun(t, trace[1..]);
        if n :| 0 < n <= |trace[1..]| && Feasible(t, trace[1..][..n]) && NoPeer(Run(t, trace[1..][..n])) {
          RunPrefix(s, trace, n);
        }
      }
    }
  }

  /** Closing a live peer: after more than six own steps of the controller it has been freed. */
  lemma CloseEndsWithoutPeer(s: State, trace: seq<Action>)
    requires Inv(s) && s.ctl.Free? && s.peer && Feasible(Apply(s, Close), trace) && OwnSteps(trace) >= 6
    ensures exists n :: 0 < n <= |trace| && Feasible(Apply(s, Close), trace[..n]) && NoPeer(Run(Apply(s, Close), trace[..n]))
  {
    StepInv(s, Close);
    CloseRun(Apply(s, Close), trace);
  }

  /** BYE without a running peer, and closing without a peer, do nothing. */
  lemma NothingToDo(s: State)
    ensures !s.running ==> Apply(s, Bye) == s
    ensures !s.peer ==> Apply(s, Close) == s
  {
  }

  /** Without an event group there is a peer, but no task, and nothing to pause. */
  lemma PeerWithoutTask(s: State)
    requires Inv(s) && Enabled(s, StartPeer(false))
    ensures var t := Apply(s, StartPeer(false)); t.peer && !t.running && !TaskAlive(t) && Apply(t, Bye) == t
  {
  }

  /** Starting a peer on an initialised event group starts a task that is in the main loop four steps later. */
  lemma StartedTaskRuns(s: State)
    requires Inv(s) && Enabled(s, StartPeer(true))
    ensures GoingOn(Apply(s, StartPeer(true))) && Apply(s, StartPeer(true)).peer
  {
    StepInv(s, StartPeer(true));
  }
}
