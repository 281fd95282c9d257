/**
 * Properties of the lifecycle over whole runs: what every call keeps, when a step makes progress, and
 * that launches and exits behave as a stack of apps.
 */
module LifecycleRuns {
  import opened Lifecycle

  // ---------------------------------------------------------------- what every call keeps

  predicate BlankOrFits(l: Limits, r: Route)
  {
    (r.id == "" && !r.temp) || l.Fits(r.id)
  }

  predicate Sound(l: Limits, s: State)
  {
    && |s.stack| <= l.stackMax
    && (forall i :: 0 <= i < |s.stack| ==> l.Fits(s.stack[i].id))
    && BlankOrFits(l, s.current) && (s.target.id == "" || l.Fits(s.target.id)) && s.previous == BLANK
    && (s.arming ==> l.Fits(s.armTarget))
  }

  /** Everything that can be asked of the lifecycle. A poll starts an app with result `code`. */
  datatype Call =
    | Launch(app: Id, temp: bool)
    | Arm(app: Id)
    | Disarm(app: Id)
    | Sleep(ms: int)
    | PollOnce(dueApp: Id, dueEvent: string, code: int)
    | DispatchEnds(code: int, exits: bool)
    | ForgetTemp
    | Wake(ids: seq<Id>)

  function Apply(l: Limits, s: State, c: Call): State
  {
    match c
    case Launch(app, temp) => RequestLaunch(l, s, app, temp).1
    case Arm(app) => RequestArm(l, s, app).1
    case Disarm(app) => CancelArm(s, app)
    case Sleep(ms) => RequestSleep(s, ms).1
    case PollOnce(dueApp, dueEvent, code) =>
      var n := NextStep(l, s, dueApp, dueEvent);
      if !n.1.StartApp? then n.2
      else if code == 0 then Started(n.2, n.1, false)
      else CancelAfterStartFailure(n.2, code)
    case DispatchEnds(code, exits) => CancelAfterDispatchError(s, code).(exited := code == 0 && exits)
    case ForgetTemp => ClearTempRoutes(s)
    case Wake(ids) => RestorePlannedRoute(l, s, ids).1
  }

  function Run(l: Limits, s: State, calls: seq<Call>): State
  {
    if calls == [] then s else Apply(l, Run(l, s, calls[..|calls| - 1]), calls[|calls| - 1])
  }

  const BOOT := State(BLANK, Idle, BLANK, BLANK, false, "", 0, "boot", false, [])

  lemma {:induction false} KeptFit(l: Limits, routes: seq<Route>)
    requires forall i :: 0 <= i < |routes| ==> l.Fits(routes[i].id)
    ensures forall i :: 0 <= i < |Kept(routes)| ==> l.Fits(Kept(routes)[i].id) && !Kept(routes)[i].temp
    ensures forall i :: 0 <= i < |Kept(routes)| ==> Kept(routes)[i] in routes
  {
    if routes != [] {
      KeptFit(l, routes[..|routes| - 1]);
    }
  }

  lemma {:induction false} PushAllKeepsSound(l: Limits, s: State, ids: seq<Id>)
    requires Sound(l, s)
    ensures Sound(l, PushAll(l, s, ids).1)
  {
    if ids != [] {
      PushAllKeepsSound(l, s, ids[..|ids| - 1]);
    }
  }

  /** The outcome of a step keeps the state sound and starts only apps whose id fits. */
  predicate SoundOutcome(l: Limits, r: (int, Step, State))
  {
    Sound(l, r.2) && (r.1.StartApp? ==> l.Fits(r.1.app))
  }

  lemma PushKeepsSound(l: Limits, s: State, id: Id)
    requires Sound(l, s)
    ensures Sound(l, Push(l, s, id).1)
  {
  }

  lemma AfterExitSound(l: Limits, s: State)
    requires Sound(l, s)
    ensures SoundOutcome(l, NextAfterExit(l, s))
  {
    PushKeepsSound(l, s.(phase := Idle), s.current.id);
  }

  lemma ForLaunchSound(l: Limits, s: State)
    requires Sound(l, s)
    ensures SoundOutcome(l, NextForLaunch(l, s))
  {
    PushKeepsSound(l, s, MAIN);
  }

  lemma WhenIdleSound(l: Limits, s: State, dueApp: Id, dueEvent: string)
    requires Sound(l, s)
    ensures SoundOutcome(l, NextWhenIdle(l, s, dueApp, dueEvent))
  {
    PushKeepsSound(l, s, s.current.id);
  }

  lemma StepKeepsSound(l: Limits, s: State, dueApp: Id, dueEvent: string)
    requires l.Valid() && Sound(l, s)
    ensures SoundOutcome(l, NextStep(l, s, dueApp, dueEvent))
  {
    var t := Settle(s);
    match t.phase {
      case ExitForLaunch => AfterExitSound(l, t);
      case LaunchRequested => ForLaunchSound(l, t);
      case Idle => WhenIdleSound(l, t, dueApp, dueEvent);
      case _ =>
    }
  }

  lemma ApplyKeepsSound(l: Limits, s: State, c: Call)
    requires l.Valid() && Sound(l, s)
    ensures Sound(l, Apply(l, s, c))
  {
    match c {
      case PollOnce(dueApp, dueEvent, code) => StepKeepsSound(l, s, dueApp, dueEvent);
      case ForgetTemp => KeptFit(l, s.stack);
      case Wake(ids) =>
        PushAllKeepsSound(l, s.(phase := Idle, target := BLANK, previous := BLANK, exited := false, stack := []), ids);
      case _ =>
    }
  }

  /**
   * In every reachable state the stack is within its limit and every stacked id is a non-empty text
   * that fits its buffer.
   */
  lemma {:induction false} RunsAreSound(l: Limits, calls: seq<Call>)
    requires l.Valid()
    ensures Sound(l, Run(l, BOOT, calls))
  {
    if calls != [] {
      RunsAreSound(l, calls[..|calls| - 1]);
      ApplyKeepsSound(l, Run(l, BOOT, calls[..|calls| - 1]), calls[|calls| - 1]);
    }
  }

  // ---------------------------------------------------------------- what cancelling achieves

  /** Nothing is asked for any more; the app in front and the stack are untouched. */
  predicate Cancelled(s: State, t: State)
  {
    t.phase == Idle && t.target == BLANK && t.previous == BLANK && t.current == s.current && t.stack == s.stack
  }

  /** A failed dispatch leaves no request pending, unless the lifecycle is already carrying one out. */
  lemma DispatchErrorCancels(s: State, code: int)
    requires code != 0
    ensures var t := CancelAfterDispatchError(s, code);
            && (s.phase == LaunchRequested || s.phase == SleepRequested ==> Cancelled(s, t) && !t.arming)
            && (s.phase == Idle ==> !t.arming && t == s.(arming := false, armTarget := t.armTarget))
            && (s.phase == ExitForLaunch || s.phase == ReturnRequested || s.phase == SleepCheckpoint ==> t == s)
    ensures CancelAfterDispatchError(s, 0) == s
  {
  }

  /** A request that is followed by a failed dispatch is as if never made. */
  lemma DispatchErrorUndoes(l: Limits, s: State, app: Id, temp: bool, ms: int, code: int)
    requires s.phase == Idle && s.target == BLANK && s.previous == BLANK && !s.arming && s.armTarget == "" && code != 0
    ensures CancelAfterDispatchError(RequestLaunch(l, s, app, temp).1, code) == s
    ensures CancelAfterDispatchError(RequestArm(l, s, app).1, code) == s
    ensures CancelAfterDispatchError(RequestSleep(s, ms).1, code) == s.(wakeAfter := RequestSleep(s, ms).1.wakeAfter)
  {
  }

  /** A failed start abandons what was being carried out, and only that. */
  lemma StartFailureCancels(s: State, code: int)
    requires code != 0
    ensures var t := CancelAfterStartFailure(s, code);
            if s.phase == ExitForLaunch || s.phase == ReturnRequested || s.phase == SleepCheckpoint
            then Cancelled(s, t) && t.arming == s.arming else t == s
    ensures CancelAfterStartFailure(s, 0) == s
  {
  }

  /** Cancelling an arm request undoes it, and leaves the request of another app. */
  lemma DisarmUndoesArm(l: Limits, s: State, app: Id, other: Id)
    requires !s.arming && s.armTarget == "" && l.Fits(app)
    ensures RequestArm(l, s, app).0 == 0 && CancelArm(RequestArm(l, s, app).1, app) == s
    ensures other != app ==> CancelArm(RequestArm(l, s, app).1, other) == RequestArm(l, s, app).1
  {
  }

  /** A sleep is granted exactly for a positive time, an idle lifecycle and a lasting app, and moves nothing. */
  lemma SleepGranted(s: State, ms: int)
    ensures RequestSleep(s, ms).0 == 0 <==> ms > 0 && !s.current.temp && s.phase == Idle
    ensures RequestSleep(s, ms).0 == 0 ==>
              RequestSleep(s, ms).1.phase == SleepRequested && RequestSleep(s, ms).1.wakeAfter == ms
    ensures RequestSleep(s, ms).0 != 0 ==> RequestSleep(s, ms).1 == s
    ensures RequestSleep(s, ms).1.stack == s.stack && RequestSleep(s, ms).1.current == s.current
  {
  }

  // ---------------------------------------------------------------- progress

  function Rank(phase: Phase): nat
  {
    match phase
    case Idle => 0
    case ExitForLaunch => 1
    case ReturnRequested => 1
    case SleepCheckpoint => 1
    case LaunchRequested => 2
    case SleepRequested => 2
  }

  /** The one state no poll leaves: a launch over a full stack with no app to exit. */
  predicate Stuck(l: Limits, s: State)
  {
    s.phase == LaunchRequested && s.current.id == "" && s.target.id != MAIN && |s.stack| >= l.stackMax
  }

  /** From any phase but idle a step lowers the rank, except exactly in the stuck state, which it keeps. */
  lemma StepLowersRank(l: Limits, s: State, dueApp: Id, dueEvent: string)
    requires l.Valid() && Sound(l, s) && s.phase != Idle
    ensures Rank(NextStep(l, s, dueApp, dueEvent).2.phase) < Rank(s.phase) <==> !Stuck(l, s)
    ensures Stuck(l, s) ==> NextStep(l, s, dueApp, dueEvent) == (-ENOSPC, NoStep, s)
  {
  }

  /** A failed dispatch, a restored route, and forgetting a temporary app on the stack lead out of it. */
  predicate Frees(l: Limits, s: State, c: Call)
  {
    match c
    case DispatchEnds(code, _) => code != 0
    case Wake(ids) => |ids| <= l.stackMax
    case ForgetTemp => |Kept(s.stack)| < l.stackMax
    case _ => false
  }

  lemma {:induction false} PushAllKeepsPhase(l: Limits, s: State, ids: seq<Id>)
    ensures PushAll(l, s, ids).1.phase == s.phase
    decreases |ids|
  {
    if ids != [] {
      PushAllKeepsPhase(l, s, ids[..|ids| - 1]);
    }
  }

  /** Exactly these calls leave the stuck state. */
  lemma StuckUntilFreed(l: Limits, s: State, c: Call)
    requires l.Valid() && Sound(l, s) && Stuck(l, s)
    ensures Stuck(l, Apply(l, s, c)) <==> !Frees(l, s, c)
  {
    StepLowersRank(l, s, "", "");
    match c {
      case PollOnce(dueApp, dueEvent, _) => StepLowersRank(l, s, dueApp, dueEvent);
      case Wake(ids) =>
        if |ids| <= l.stackMax {
          var cleared := s.(phase := Idle, target := BLANK, previous := BLANK, exited := false, stack := []);
          PushAllKeepsPhase(l, cleared, ids);
        }
      case _ =>
    }
  }

  lemma RunExtends(l: Limits, s: State, calls: seq<Call>, c: Call)
    ensures Run(l, s, calls + [c]) == Apply(l, Run(l, s, calls), c)
  {
    assert (calls + [c])[..|calls|] == calls;
  }

  /** Nothing is asked for and nothing on the stack is temporary. */
  predicate Calm(l: Limits, s: State)
  {
    && s.phase == Idle && !s.arming && !s.exited && (s.current == BLANK || l.Fits(s.current.id))
    && forall i :: 0 <= i < |s.stack| ==> !s.stack[i].temp
  }

  const POLL := PollOnce("", "", 0)

  /** Launching an app, with the polls that carry it out: the app before it goes on the stack, or main does. */
  lemma LaunchCarriedOut(l: Limits, s: State, r: Route)
    requires l.Valid() && Calm(l, s) && !s.current.temp && |s.stack| < l.stackMax && l.Fits(r.id) && r.id != MAIN
    ensures var t := Apply(l, Apply(l, Apply(l, s, Launch(r.id, r.temp)), POLL), POLL);
            Calm(l, t) && t.current == r && |t.stack| == |s.stack| + 1
  {
  }

  lemma RunThree(l: Limits, s: State, calls: seq<Call>, a: Call, b: Call, c: Call)
    ensures Run(l, s, calls + [a, b, c]) == Apply(l, Apply(l, Apply(l, Run(l, s, calls), a), b), c)
  {
    RunExtends(l, s, calls, a);
    RunExtends(l, s, calls + [a], b);
    RunExtends(l, s, calls + [a] + [b], c);
    ThreeMore(calls, a, b, c);
  }

  lemma ThreeMore(calls: seq<Call>, a: Call, b: Call, c: Call)
    ensures calls + [a] + [b] + [c] == calls + [a, b, c]
  {
  }

  /** One app launched from another, `n` times over. */
  lemma {:induction false} FillStack(l: Limits, a: Id, n: nat) returns (calls: seq<Call>)
    requires l.Valid() && l.Fits(a) && a != MAIN && n <= l.stackMax
    ensures var s := Run(l, BOOT, calls); Calm(l, s) && !s.current.temp && |s.stack| == n
    ensures forall c :: c in calls ==> c.Launch? || c == POLL
  {
    if n == 0 {
      calls := [];
    } else {
      var before := FillStack(l, a, n - 1);
      LaunchCarriedOut(l, Run(l, BOOT, before), Route(a, false));
      RunThree(l, BOOT, before, Launch(a, false), POLL, POLL);
      calls := before + [Launch(a, false), POLL, POLL];
    }
  }

  lemma ForgottenThenStuck(l: Limits, s: State, b: Id, temp: bool)
    requires l.Fits(b) && b != MAIN && Calm(l, s) && s.current.temp && |s.stack| >= l.stackMax
    ensures Stuck(l, Apply(l, Apply(l, s, ForgetTemp), Launch(b, temp)))
  {
    KeptAll(s.stack);
  }

  /**
   * It is reached under every limit by launches and polls: apps are launched until the stack is full, the last
   * one temporary; that one is forgotten, as for a new temporary run, and the next launch asked for.
   */
  lemma StuckIsReached(l: Limits, a: Id, b: Id, temp: bool) returns (calls: seq<Call>)
    requires l.Valid() && l.stackMax > 0 && l.Fits(a) && l.Fits(b) && a != MAIN && b != MAIN
    ensures forall c :: c in calls ==> c.Launch? || c == POLL || c == ForgetTemp
    ensures Stuck(l, Run(l, BOOT, calls))
  {
    var before := FillStack(l, a, l.stackMax - 1);
    LaunchCarriedOut(l, Run(l, BOOT, before), Route(a, true));
    RunThree(l, BOOT, before, Launch(a, true), POLL, POLL);
    var full := before + [Launch(a, true), POLL, POLL];
    ForgottenThenStuck(l, Run(l, BOOT, full), b, temp);
    RunExtends(l, BOOT, full, ForgetTemp);
    RunExtends(l, BOOT, full + [ForgetTemp], Launch(b, temp));
    calls := full + [ForgetTemp] + [Launch(b, temp)];
  }

  lemma RunTwo(l: Limits, s: State, a: Call, b: Call)
    ensures Run(l, s, [a, b]) == Apply(l, Apply(l, s, a), b)
  {
    RunExtends(l, s, [], a);
    RunExtends(l, s, [a], b);
    assert [] + [a] == [a] && [a] + [b] == [a, b];
  }

  lemma {:induction false} FullOfMain(l: Limits, s: State, n: nat)
    requires l.Valid() && n <= l.stackMax && s.stack == []
    ensures var ids := seq(n, _ => MAIN); var r := PushAll(l, s, ids);
            r.0 == 0 && |r.1.stack| == n && r.1.current == s.current && r.1.phase == s.phase
  {
    if n > 0 {
      FullOfMain(l, s, n - 1);
      assert seq(n, _ => MAIN)[..n - 1] == seq(n - 1, _ => MAIN);
    }
  }

  /** It is reached under every limit, when a launch is asked for right after a full route was restored. */
  lemma StuckUnderEveryLimit(l: Limits, b: Id)
    requires l.Valid() && l.Fits(b) && b != MAIN
    ensures Stuck(l, Run(l, BOOT, [Wake(seq(l.stackMax, _ => MAIN)), Launch(b, false)]))
  {
    RunTwo(l, BOOT, Wake(seq(l.stackMax, _ => MAIN)), Launch(b, false));
    FullOfMain(l, BOOT.(phase := Idle, target := BLANK, previous := BLANK, exited := false, stack := []), l.stackMax);
  }

  /** So at most two steps lead back to idle. */
  lemma TwoStepsToIdle(l: Limits, s: State, dueApp: Id, dueEvent: string)
    requires l.Valid() && Sound(l, s) && s.phase != Idle && !Stuck(l, s)
    ensures var one := NextStep(l, s, dueApp, dueEvent).2;
            one.phase == Idle || (one.phase != Idle && NextStep(l, one, dueApp, dueEvent).2.phase == Idle)
  {
    var one := NextStep(l, s, dueApp, dueEvent).2;
    StepLowersRank(l, s, dueApp, dueEvent);
    if one.phase != Idle {
      StepKeepsSound(l, s, dueApp, dueEvent);
      StepLowersRank(l, one, dueApp, dueEvent);
    }
  }

  // ---------------------------------------------------------------- the stack of apps

  /** The apps to return to, innermost last, and the app in front; a blank front is no app. */
  datatype Shadow = Shadow(stack: seq<Route>, front: Route)

  datatype Move = Open(route: Route) | Due(app: Id, event: string) | Leave

  /** What lies under an app that is opened. */
  function Covered(sh: Shadow, next: Id): seq<Route>
  {
    if sh.front.id != "" then [sh.front] else if next != MAIN then [Route(MAIN, false)] else []
  }

  /** A due event for the app in front is only delivered; otherwise it opens its app. */
  function Moved(sh: Shadow, m: Move): Shadow
  {
    match m
    case Open(r) => Shadow(sh.stack + Covered(sh, r.id), r)
    case Due(app, _) =>
      if sh.front.id == app then sh
      else Shadow(sh.stack + (if sh.front.id != "" then [sh.front] else []), Route(app, false))
    case Leave =>
      if sh.stack == [] then Shadow([], Route(MAIN, false))
      else Shadow(sh.stack[..|sh.stack| - 1], sh.stack[|sh.stack| - 1])
  }

  /** The move opens an app, or stays in front, within the depth limit and with texts that fit. */
  predicate Allowed(l: Limits, sh: Shadow, m: Move)
  {
    |Moved(sh, m).stack| <= l.stackMax &&
    match m
    case Open(r) => l.Fits(r.id)
    case Due(app, event) => l.Fits(app) && 0 < |event| < EVENT_CAP
    case Leave => true
  }

  function ShadowOf(s: State): Shadow
  {
    Shadow(s.stack, s.current)
  }

  /** Between moves nothing is pending. */
  predicate Resting(l: Limits, s: State)
  {
    Sound(l, s) && s.phase == Idle && !s.exited && !s.arming
  }

  /** An app told to handle an event. */
  datatype Handled = Handled(route: Route, event: string)

  /** What a sequence of starts makes current, in order, and every app started with its event, in order. */
  datatype Outcome = Outcome(state: State, fronts: seq<Route>, trace: seq<Handled>)

  /** One step whose start succeeds; the started handler exits the app or not. */
  function Drive(l: Limits, s: State, dueApp: Id, dueEvent: string, exits: bool): Outcome
  {
    var n := NextStep(l, s, dueApp, dueEvent);
    if n.1.StartApp? then
      Outcome(Started(n.2, n.1, exits), if n.1.setCurrent then [Route(n.1.app, n.1.temp)] else [],
              [Handled(Route(n.1.app, n.1.temp), n.1.event)])
    else Outcome(n.2, [], [])
  }

  /**
   * A move carried out by the lifecycle. On a launch the app in front first runs its exit handler,
   * which may itself exit (`exits`); the second step starts the new app.
   */
  function Perform(l: Limits, s: State, m: Move, exits: bool): Outcome
  {
    match m
    case Open(r) =>
      var asked := RequestLaunch(l, s, r.id, r.temp).1;
      if s.current.id == "" then Drive(l, asked, "", "", false)
      else
        var one := Drive(l, asked, "", "", exits);
        var two := Drive(l, one.state, "", "", false);
        Outcome(two.state, one.fronts + two.fronts, one.trace + two.trace)
    case Due(app, event) => Drive(l, s, app, event, false)
    case Leave => Drive(l, s.(exited := true), "", "", false)
  }

  /** The events a move delivers: the app in front is told to exit for a launch, and who comes in front to start. */
  function Told(sh: Shadow, m: Move): seq<Handled>
  {
    match m
    case Open(r) =>
      (if sh.front.id != "" then [Handled(sh.front, "app.exit")] else []) + [Handled(r, "app.start")]
    case Due(app, event) => [Handled(Route(app, sh.front.id == app && sh.front.temp), event)]
    case Leave => [Handled(Moved(sh, m).front, "app.start")]
  }

  /** Why the app in front was last started. */
  function Why(sh: Shadow, m: Move, before: string): string
  {
    match m
    case Open(_) => "launch"
    case Due(app, _) => if sh.front.id == app then before else "launch"
    case Leave => "return"
  }

  /**
   * One move of the lifecycle is one move of the stack; it starts exactly the app that comes in front, delivers
   * exactly its events, and records why.
   */
  lemma PerformIsMove(l: Limits, s: State, m: Move, exits: bool)
    requires l.Valid() && Resting(l, s) && Allowed(l, ShadowOf(s), m)
    ensures var r := Perform(l, s, m, exits);
            && Resting(l, r.state)
            && ShadowOf(r.state) == Moved(ShadowOf(s), m)
            && r.fronts == (if m.Due? && m.app == s.current.id then [] else [Moved(ShadowOf(s), m).front])
            && r.trace == Told(ShadowOf(s), m) && r.state.reason == Why(ShadowOf(s), m, s.reason)
  {
    match m {
      case Open(r) => OpenIsMove(l, s, r, exits);
      case Due(app, event) => DueIsMove(l, s, app, event);
      case Leave => LeaveIsMove(l, s);
    }
  }

  lemma OpenIsMove(l: Limits, s: State, r: Route, exits: bool)
    requires l.Valid() && Resting(l, s) && Allowed(l, ShadowOf(s), Open(r))
    ensures var out := Perform(l, s, Open(r), exits);
            && Resting(l, out.state) && ShadowOf(out.state) == Moved(ShadowOf(s), Open(r)) && out.fronts == [r]
            && out.trace == Told(ShadowOf(s), Open(r)) && out.state.reason == "launch"
  {
    var asked := RequestLaunch(l, s, r.id, r.temp).1;
    if s.current.id != "" {
      ExitThenStart(l, s, r, exits);
    } else {
      assert s.current == BLANK;
      var two := Drive(l, asked, "", "", false);
      assert s.stack + [] == s.stack && two.trace == [] + [Handled(r, "app.start")];
    }
  }

  lemma ExitThenStart(l: Limits, s: State, r: Route, exits: bool)
    requires l.Valid() && Resting(l, s) && s.current.id != "" && l.Fits(r.id) && |s.stack| < l.stackMax
    ensures var one := Drive(l, RequestLaunch(l, s, r.id, r.temp).1, "", "", exits);
            var two := Drive(l, one.state, "", "", false);
            && one.fronts == [] && one.trace == [Handled(s.current, "app.exit")]
            && two.fronts == [r] && two.trace == [Handled(r, "app.start")] && two.state.reason == "launch"
            && Resting(l, two.state) && two.state.stack == s.stack + [s.current] && two.state.current == r
  {
    var asked := RequestLaunch(l, s, r.id, r.temp).1;
    var one := Drive(l, asked, "", "", exits);
    assert one.state == asked.(phase := ExitForLaunch, exited := exits);
    var pushed := Push(l, one.state.(phase := Idle), s.current.id);
    assert pushed.0 == 0 && pushed.1.stack == s.stack + [s.current];
  }

  lemma DueIsMove(l: Limits, s: State, app: Id, event: string)
    requires l.Valid() && Resting(l, s) && Allowed(l, ShadowOf(s), Due(app, event))
    ensures var out := Perform(l, s, Due(app, event), false);
            && Resting(l, out.state) && ShadowOf(out.state) == Moved(ShadowOf(s), Due(app, event))
            && out.fronts == (if app == s.current.id then [] else [Route(app, false)])
            && out.trace == Told(ShadowOf(s), Due(app, event))
            && out.state.reason == Why(ShadowOf(s), Due(app, event), s.reason)
  {
    if app != s.current.id && s.current.id == "" {
      assert s.stack + [] == s.stack;
    }
  }

  lemma LeaveIsMove(l: Limits, s: State)
    requires l.Valid() && Resting(l, s)
    ensures var out := Perform(l, s, Leave, false);
            && Resting(l, out.state) && ShadowOf(out.state) == Moved(ShadowOf(s), Leave)
            && out.fronts == [Moved(ShadowOf(s), Leave).front]
            && out.trace == Told(ShadowOf(s), Leave) && out.state.reason == "return"
  {
  }

  function PerformAll(l: Limits, s: State, moves: seq<(Move, bool)>): Outcome
    decreases |moves|
  {
    if moves == [] then Outcome(s, [], [])
    else
      var one := Perform(l, s, moves[0].0, moves[0].1);
      var rest := PerformAll(l, one.state, moves[1..]);
      Outcome(rest.state, one.fronts + rest.fronts, one.trace + rest.trace)
  }

  function MoveAll(sh: Shadow, moves: seq<(Move, bool)>): Shadow
    decreases |moves|
  {
    if moves == [] then sh else MoveAll(Moved(sh, moves[0].0), moves[1..])
  }

  /** The apps that come in front, one after another. */
  function Fronts(sh: Shadow, moves: seq<(Move, bool)>): seq<Route>
    decreases |moves|
  {
    if moves == [] then []
    else
      var m := moves[0].0;
      (if m.Due? && m.app == sh.front.id then [] else [Moved(sh, m).front]) + Fronts(Moved(sh, m), moves[1..])
  }

  /** The events delivered, one move after another. */
  function ToldAll(sh: Shadow, moves: seq<(Move, bool)>): seq<Handled>
    decreases |moves|
  {
    if moves == [] then [] else Told(sh, moves[0].0) + ToldAll(Moved(sh, moves[0].0), moves[1..])
  }

  predicate AllAllowed(l: Limits, sh: Shadow, moves: seq<(Move, bool)>)
    decreases |moves|
  {
    moves != [] ==> Allowed(l, sh, moves[0].0) && AllAllowed(l, Moved(sh, moves[0].0), moves[1..])
  }

  /**
   * Over every run within the depth limit the lifecycle is a stack of apps with their temporary flags, and
   * delivers exactly the events of its moves, whatever the exit handlers of launches do.
   */
  lemma {:induction false} RunIsStack(l: Limits, s: State, moves: seq<(Move, bool)>)
    requires l.Valid() && Resting(l, s) && AllAllowed(l, ShadowOf(s), moves)
    ensures Resting(l, PerformAll(l, s, moves).state)
    ensures ShadowOf(PerformAll(l, s, moves).state) == MoveAll(ShadowOf(s), moves)
    ensures PerformAll(l, s, moves).fronts == Fronts(ShadowOf(s), moves)
    ensures PerformAll(l, s, moves).trace == ToldAll(ShadowOf(s), moves)
    decreases |moves|
  {
    if moves != [] {
      PerformIsMove(l, s, moves[0].0, moves[0].1);
      RunIsStack(l, Perform(l, s, moves[0].0, moves[0].1).state, moves[1..]);
    }
  }

  // ---------------------------------------------------------------- last in, first out

  /** The move brings another app in front of the one that is there. */
  predicate Opens(sh: Shadow, m: Move)
  {
    sh.front.id != "" && (m.Open? || (m.Due? && m.app != sh.front.id))
  }

  predicate AllOpen(sh: Shadow, moves: seq<(Move, bool)>)
    decreases |moves|
  {
    moves != [] ==>
      Opens(sh, moves[0].0) && Moved(sh, moves[0].0).front.id != "" && AllOpen(Moved(sh, moves[0].0), moves[1..])
  }

  function Leaves(n: nat): (moves: seq<(Move, bool)>)
    ensures |moves| == n
  {
    seq(n, _ => (Leave, false))
  }

  function Reversed(routes: seq<Route>): (r: seq<Route>)
    ensures |r| == |routes|
  {
    if routes == [] then [] else Reversed(routes[1..]) + [routes[0]]
  }

  lemma {:induction false} MoveAllConcat(sh: Shadow, a: seq<(Move, bool)>, b: seq<(Move, bool)>)
    ensures MoveAll(sh, a + b) == MoveAll(MoveAll(sh, a), b)
    ensures Fronts(sh, a + b) == Fronts(sh, a) + Fronts(MoveAll(sh, a), b)
    decreases |a|
  {
    if a == [] {
      assert a + b == b;
    } else {
      assert (a + b)[1..] == a[1..] + b;
      MoveAllConcat(Moved(sh, a[0].0), a[1..], b);
    }
  }

  /**
   * As many exits as there were openings bring back the starting stack and restart the apps underneath
   * in exact reverse order: the app opened from first comes last.
   */
  lemma {:induction false} ExitsUndoOpenings(sh: Shadow, moves: seq<(Move, bool)>)
    requires AllOpen(sh, moves)
    ensures MoveAll(MoveAll(sh, moves), Leaves(|moves|)) == sh
    ensures |Fronts(sh, moves)| == |moves|
    ensures Fronts(MoveAll(sh, moves), Leaves(|moves|)) == Reversed(([sh.front] + Fronts(sh, moves))[..|moves|])
    decreases |moves|
  {
    if moves != [] {
      var n := |moves|;
      var next := Moved(sh, moves[0].0);
      var top := MoveAll(sh, moves);
      ExitsUndoOpenings(next, moves[1..]);
      assert Leaves(n) == Leaves(n - 1) + Leaves(1);
      MoveAllConcat(top, Leaves(n - 1), Leaves(1));
      LeaveOnce(next);
      var under := [sh.front] + Fronts(sh, moves);
      assert Fronts(sh, moves) == [next.front] + Fronts(next, moves[1..]);
      assert under[..n][1..] == ([next.front] + Fronts(next, moves[1..]))[..n - 1];
      assert Moved(next, Leave) == sh;
    }
  }

  lemma LeaveOnce(sh: Shadow)
    ensures MoveAll(sh, Leaves(1)) == Moved(sh, Leave)
    ensures Fronts(sh, Leaves(1)) == [Moved(sh, Leave).front]
  {
    assert Leaves(1)[1..] == [];
  }

  /** Leaving the last app starts main. */
  lemma LeaveAtTheBottom(l: Limits, s: State)
    requires l.Valid() && Resting(l, s) && s.stack == []
    ensures Perform(l, s, Leave, false).fronts == [Route("main", false)]
    ensures Perform(l, s, Leave, false).trace == [Handled(Route("main", false), "app.start")]
  {
    LeaveIsMove(l, s);
  }
}
