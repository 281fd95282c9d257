/**
 * What becomes of the requests made of the lifecycle: over every run the apps registered are the arm requests
 * accepted and not cancelled, and every sleep checkpoint carries the time of the sleep granted last.
 */
module LifecycleRequests {
  import opened Lifecycle
  import opened LifecycleRuns

  lemma RunFront(l: Limits, s: State, calls: seq<Call>)
    requires calls != []
    ensures Run(l, s, calls) == Apply(l, Run(l, s, calls[..|calls| - 1]), calls[|calls| - 1])
  {
  }

  // ---------------------------------------------------------------- arming

  /** The step a poll takes after `before`; other calls take none. */
  function StepOf(l: Limits, before: seq<Call>, c: Call): Step
  {
    match c
    case PollOnce(dueApp, dueEvent, _) => NextStep(l, Run(l, BOOT, before), dueApp, dueEvent).1
    case _ => NoStep
  }

  /** The apps the polls of a run had registered, in order. */
  function Registered(l: Limits, calls: seq<Call>): seq<Id>
  {
    if calls == [] then []
    else
      var before := calls[..|calls| - 1];
      var step := StepOf(l, before, calls[|calls| - 1]);
      Registered(l, before) + (if step.RegisterArmed? then [step.app] else [])
  }

  /**
   * The arm requests accepted and not cancelled, in order. One is accepted if its id is not empty, fits, and the
   * one before was registered; the one outstanding is cancelled by naming it, and by a failed dispatch unless
   * an exit, a return or a checkpoint is being carried out.
   */
  function Requests(l: Limits, calls: seq<Call>): seq<Id>
  {
    if calls == [] then []
    else
      var before, c := calls[..|calls| - 1], calls[|calls| - 1];
      var asked, phase := Requests(l, before), Run(l, BOOT, before).phase;
      var outstanding := |asked| > |Registered(l, before)|;
      match c
      case Arm(app) => if !outstanding && 0 < |app| < l.idMax then asked + [app] else asked
      case Disarm(app) => if outstanding && asked[|asked| - 1] == app then asked[..|asked| - 1] else asked
      case DispatchEnds(code, _) =>
        if outstanding && code != 0 && phase !in {ExitForLaunch, ReturnRequested, SleepCheckpoint}
        then asked[..|asked| - 1] else asked
      case _ => asked
  }

  /** What links the two lists to the state: at most the last request is outstanding, and it is kept. */
  ghost predicate ArmsKept(l: Limits, calls: seq<Call>)
  {
    var s, asked, done := Run(l, BOOT, calls), Requests(l, calls), Registered(l, calls);
    && |done| <= |asked| <= |done| + 1 && done == asked[..|done|]
    && (s.arming <==> |asked| == |done| + 1)
    && (s.arming ==> s.armTarget == asked[|done|])
  }

  lemma PushAllKeepsArms(l: Limits, s: State, ids: seq<Id>)
    ensures PushAll(l, s, ids).1.arming == s.arming && PushAll(l, s, ids).1.armTarget == s.armTarget
    ensures PushAll(l, s, ids).1.wakeAfter == s.wakeAfter
  {
  }

  lemma IdleRegisters(l: Limits, s: State, dueApp: Id, dueEvent: string)
    requires s.arming ==> l.Fits(s.armTarget)
    ensures var n := NextWhenIdle(l, s, dueApp, dueEvent);
            && (n.1.RegisterArmed? <==> s.arming)
            && (n.1.RegisterArmed? ==> n.0 == 0 && n.1.app == s.armTarget && !n.2.arming && n.2.armTarget == "")
            && (!n.1.RegisterArmed? ==> n.2.arming == s.arming && n.2.armTarget == s.armTarget)
  {
  }

  lemma LaunchRegistersNothing(l: Limits, s: State)
    ensures !NextAfterExit(l, s).1.RegisterArmed? && !NextForLaunch(l, s).1.RegisterArmed?
    ensures NextAfterExit(l, s).2.arming == s.arming && NextAfterExit(l, s).2.armTarget == s.armTarget
    ensures NextForLaunch(l, s).2.arming == s.arming && NextForLaunch(l, s).2.armTarget == s.armTarget
  {
  }

  /** A poll registers exactly the armed app, exactly when nothing else is to be done. */
  lemma PollRegisters(l: Limits, s: State, dueApp: Id, dueEvent: string)
    requires l.Valid() && Sound(l, s)
    ensures var n := NextStep(l, s, dueApp, dueEvent);
            && (n.1.RegisterArmed? <==> s.arming && s.phase == Idle && !s.exited)
            && (n.1.RegisterArmed? ==> n.0 == 0 && n.1.app == s.armTarget && !n.2.arming && n.2.armTarget == "")
            && (!n.1.RegisterArmed? ==> n.2.arming == s.arming && n.2.armTarget == s.armTarget)
  {
    IdleRegisters(l, Settle(s), dueApp, dueEvent);
    LaunchRegistersNothing(l, Settle(s));
  }

  lemma StepKeepsArms(l: Limits, calls: seq<Call>)
    requires l.Valid() && calls != [] && ArmsKept(l, calls[..|calls| - 1])
    requires Sound(l, Run(l, BOOT, calls[..|calls| - 1]))
    ensures ArmsKept(l, calls)
  {
    var before, c := calls[..|calls| - 1], calls[|calls| - 1];
    var s := Run(l, BOOT, before);
    match c {
      case PollOnce(dueApp, dueEvent, _) => PollRegisters(l, s, dueApp, dueEvent);
      case Wake(ids) =>
        PushAllKeepsArms(l, s.(phase := Idle, target := BLANK, previous := BLANK, exited := false, stack := []), ids);
      case _ =>
    }
  }

  lemma {:induction false} RunsKeepArms(l: Limits, calls: seq<Call>)
    requires l.Valid()
    ensures ArmsKept(l, calls)
  {
    if calls != [] {
      RunsKeepArms(l, calls[..|calls| - 1]);
      RunsAreSound(l, calls[..|calls| - 1]);
      StepKeepsArms(l, calls);
    }
  }

  /** Over every run the apps registered are the requests accepted and not cancelled, once each and in order. */
  lemma RegisteredExactly(l: Limits, calls: seq<Call>, dueApp: Id, dueEvent: string)
    requires l.Valid()
    ensures var asked, done := Requests(l, calls), Registered(l, calls);
            && |done| <= |asked| <= |done| + 1 && done == asked[..|done|]
            && (StepOf(l, calls, PollOnce(dueApp, dueEvent, 0)).RegisterArmed? <==>
                  |asked| > |done| && Run(l, BOOT, calls).phase == Idle && !Run(l, BOOT, calls).exited)
            && (StepOf(l, calls, PollOnce(dueApp, dueEvent, 0)).RegisterArmed? ==>
                  StepOf(l, calls, PollOnce(dueApp, dueEvent, 0)).app == asked[|done|])
  {
    RunsKeepArms(l, calls);
    RunsAreSound(l, calls);
    PollRegisters(l, Run(l, BOOT, calls), dueApp, dueEvent);
  }

  // ---------------------------------------------------------------- sleeping

  /** The time of the last sleep granted: asked for with a positive time, of a lasting app, with nothing going on. */
  function LastGranted(l: Limits, calls: seq<Call>): int
  {
    if calls == [] then 0
    else
      var before, c := calls[..|calls| - 1], calls[|calls| - 1];
      var s := Run(l, BOOT, before);
      if c.Sleep? && c.ms > 0 && !s.current.temp && s.phase == Idle then c.ms else LastGranted(l, before)
  }

  lemma PollKeepsTime(l: Limits, s: State, dueApp: Id, dueEvent: string)
    ensures NextStep(l, s, dueApp, dueEvent).2.wakeAfter == s.wakeAfter
  {
  }

  lemma {:induction false} TimeIsLastGranted(l: Limits, calls: seq<Call>)
    ensures Run(l, BOOT, calls).wakeAfter == LastGranted(l, calls)
  {
    if calls != [] {
      var before, c := calls[..|calls| - 1], calls[|calls| - 1];
      var s := Run(l, BOOT, before);
      TimeIsLastGranted(l, before);
      match c {
        case PollOnce(dueApp, dueEvent, _) => PollKeepsTime(l, s, dueApp, dueEvent);
        case Wake(ids) =>
          PushAllKeepsArms(l, s.(phase := Idle, target := BLANK, previous := BLANK, exited := false, stack := []), ids);
        case _ =>
      }
    }
  }

  /** Every checkpoint of every run carries the time of the sleep granted last. */
  lemma CheckpointHasTime(l: Limits, calls: seq<Call>, dueApp: Id, dueEvent: string)
    requires StepOf(l, calls, PollOnce(dueApp, dueEvent, 0)).WriteCheckpoint?
    ensures StepOf(l, calls, PollOnce(dueApp, dueEvent, 0)).wakeAfter == LastGranted(l, calls)
    ensures Run(l, BOOT, calls + [PollOnce(dueApp, dueEvent, 0)]).phase == Idle
  {
    TimeIsLastGranted(l, calls);
    RunExtends(l, BOOT, calls, PollOnce(dueApp, dueEvent, 0));
  }

  /**
   * A granted sleep tells the app in front, if any, to prepare for it, whatever is due, and the next poll writes
   * the checkpoint with its time, whether that app exits meanwhile or not.
   */
  lemma SleepCarriedOut(l: Limits, s: State, ms: int, dueApp: Id, dueEvent: string, exits: bool)
    requires l.Valid() && Sound(l, s) && RequestSleep(s, ms).0 == 0
    ensures var n := NextStep(l, RequestSleep(s, ms).1, dueApp, dueEvent);
            && (s.current.id != "" ==> n.0 == 0 && n.1 == StartApp(s.current.id, "power.sleep", false, false))
            && (s.current.id == "" ==> n.0 == -EINVAL && n.1 == NoStep)
            && var t := if n.1.StartApp? then Started(n.2, n.1, exits) else n.2;
               var m := NextStep(l, t, dueApp, dueEvent);
               && t.current == s.current && t.stack == s.stack
               && m.0 == 0 && m.1 == WriteCheckpoint(ms) && m.2 == t.(phase := Idle)
  {
  }

  // ---------------------------------------------------------------- answers

  /** What a request is told: the id is judged first, then what is going on. */
  lemma RequestAnswers(l: Limits, s: State, app: Id, temp: bool)
    ensures RequestLaunch(l, s, app, temp).0 ==
            if app == "" || |app| >= l.idMax then -22 else if s.phase != Idle then -16 else 0
    ensures RequestLaunch(l, s, app, temp).0 == 0 ==>
              RequestLaunch(l, s, app, temp).1 == s.(phase := LaunchRequested, target := Route(app, temp))
    ensures RequestLaunch(l, s, app, temp).0 != 0 ==> RequestLaunch(l, s, app, temp).1 == s
    ensures RequestArm(l, s, app).0 == if app == "" || |app| >= l.idMax then -22 else if s.arming then -16 else 0
    ensures RequestArm(l, s, app).0 != 0 ==> RequestArm(l, s, app).1 == s
  {
  }

  lemma SleepAnswers(s: State, ms: int)
    ensures RequestSleep(s, ms).0 ==
            if ms <= 0 then -22 else if s.current.temp then -95 else if s.phase != Idle then -16 else 0
  {
  }

  /**
   * Over a full stack a launch from an app is given up after that app was told to exit, and a due event of another
   * app is not delivered; the stack and the app in front stay.
   */
  lemma FullStackRefuses(l: Limits, s: State, dueApp: Id, dueEvent: string)
    requires l.Valid() && Sound(l, s) && s.current.id != "" && |s.stack| == l.stackMax
    ensures s.phase == ExitForLaunch ==>
              var n := NextStep(l, s, dueApp, dueEvent);
              && n.0 == -28 && n.1 == NoStep && n.2.phase == Idle && n.2.target.id == ""
              && n.2.stack == s.stack && n.2.current == s.current && n.2.exited == s.exited
    ensures s.phase == Idle && !s.exited && !s.arming && dueApp != "" && dueEvent != "" && dueApp != s.current.id ==>
              NextStep(l, s, dueApp, dueEvent) == (-28, NoStep, s)
  {
  }

  /**
   * An exit is followed by one return: the poll that starts the app underneath, or fails to, has taken note of it.
   * So has the poll after the exit handler of a launch, if there was room for the app.
   */
  lemma ExitFollowedOnce(l: Limits, s: State, dueApp: Id, dueEvent: string)
    requires l.Valid() && Sound(l, s)
    ensures NextStep(l, s, dueApp, dueEvent).2.exited <==>
            && s.exited && s.phase != Idle
            && !(s.phase == ExitForLaunch && (s.current.id == "" || |s.stack| < l.stackMax))
  {
  }

  /** A due event whose texts do not fit is an error. */
  lemma DueMustFit(l: Limits, s: State, dueApp: Id, dueEvent: string)
    requires s.phase == Idle && !s.exited && !s.arming && dueApp == s.current.id != ""
    ensures NextStep(l, s, dueApp, dueEvent).0 ==
            if dueEvent == "" || (|dueApp| < l.idMax && |dueEvent| < 24) then 0 else -22
    ensures NextStep(l, s, dueApp, dueEvent).1.Poll? <==> dueEvent == ""
  {
  }

  /** Forgetting temporary apps leaves none anywhere, and everything else as it was, in order. */
  lemma ForgetTempOutcome(l: Limits, s: State)
    ensures var t := ClearTempRoutes(s);
            && !t.current.temp && !t.target.temp && !t.previous.temp
            && (!s.current.temp ==> t.current == s.current) && (s.current.temp ==> t.current == BLANK)
            && (!s.target.temp ==> t.target == s.target) && (s.target.temp ==> t.target == BLANK)
            && (!s.previous.temp ==> t.previous == s.previous) && (s.previous.temp ==> t.previous == BLANK)
            && t == s.(current := t.current, target := t.target, previous := t.previous, stack := t.stack)
            && (forall i :: 0 <= i < |t.stack| ==> !t.stack[i].temp)
            && forall r: Route :: multiset(t.stack)[r] == if r.temp then 0 else multiset(s.stack)[r]
  {
    KeptExactly(s.stack);
  }

  lemma KeptExactly(routes: seq<Route>)
    ensures forall i :: 0 <= i < |Kept(routes)| ==> !Kept(routes)[i].temp
    ensures forall r: Route :: multiset(Kept(routes))[r] == if r.temp then 0 else multiset(routes)[r]
  {
    forall r: Route ensures multiset(Kept(routes))[r] == if r.temp then 0 else multiset(routes)[r] {
      KeptCounts(routes, r);
    }
    forall i | 0 <= i < |Kept(routes)| ensures !Kept(routes)[i].temp {
      assert Kept(routes)[i] in multiset(Kept(routes));
    }
  }

  lemma {:induction false} KeptCounts(routes: seq<Route>, r: Route)
    ensures multiset(Kept(routes))[r] == if r.temp then 0 else multiset(routes)[r]
  {
    if routes != [] {
      KeptCounts(routes[..|routes| - 1], r);
      assert routes == routes[..|routes| - 1] + [routes[|routes| - 1]];
    }
  }

  /** Two kept apps stay in the order they were in. */
  lemma {:induction false} KeptInOrder(routes: seq<Route>, a: Route, b: Route)
    requires !a.temp && !b.temp
    ensures Kept(routes + [a] + [b]) == Kept(routes) + [a, b]
  {
    assert (routes + [a] + [b])[..|routes| + 1] == routes + [a] && (routes + [a])[..|routes|] == routes;
  }
}
