/**
 * The app lifecycle: launch, exit, return, sleep and due events over a bounded return stack. The
 * runtime object changes in place; each operation is proved against a function on lifecycle values.
 *
 * An app id is the text of a fixed buffer up to its terminator; the empty id is a blank buffer.
 */
module Lifecycle {

  type Id = string

  const MAIN: Id := "main"
  const EVENT_CAP := 24

  const EBUSY := 16
  const EINVAL := 22
  const ENOSPC := 28
  const ENOTSUP := 95

  /** The build-time limits: return-stack slots and the size of an id buffer. */
  datatype Limits = Limits(stackMax: nat, idMax: nat)
  {
    predicate Valid() {
      idMax > |MAIN|
    }

    /** A text that fits a buffer together with its terminator. */
    predicate Fits(id: Id) {
      0 < |id| < idMax
    }
  }

  /** An app and whether it is a temporary one. */
  datatype Route = Route(id: Id, temp: bool)

  const BLANK := Route("", false)

  datatype Phase =
    Idle | LaunchRequested | ExitForLaunch | ReturnRequested | SleepRequested | SleepCheckpoint

  datatype State = State(
    current: Route,
    phase: Phase,
    target: Route,
    previous: Route,
    arming: bool,
    armTarget: Id,
    wakeAfter: int,
    reason: string,
    exited: bool,
    stack: seq<Route>)

  datatype Step =
    | NoStep
    | StartApp(app: Id, event: string, setCurrent: bool, temp: bool)
    | RegisterArmed(app: Id)
    | WriteCheckpoint(wakeAfter: int)
    | Poll

  // ---------------------------------------------------------------- the operations on values

  function RequestLaunch(l: Limits, s: State, app: Id, temp: bool): (int, State)
  {
    if !l.Fits(app) then (-EINVAL, s)
    else if s.phase != Idle then (-EBUSY, s)
    else (0, s.(target := Route(app, temp), phase := LaunchRequested))
  }

  function RequestArm(l: Limits, s: State, app: Id): (int, State)
  {
    if !l.Fits(app) then (-EINVAL, s)
    else if s.arming then (-EBUSY, s)
    else (0, s.(armTarget := app, arming := true))
  }

  function CancelArm(s: State, app: Id): State
  {
    if s.arming && s.armTarget == app then s.(armTarget := "", arming := false) else s
  }

  function RequestSleep(s: State, wakeAfter: int): (int, State)
  {
    if wakeAfter <= 0 then (-EINVAL, s)
    else if s.current.temp then (-ENOTSUP, s)
    else if s.phase != Idle then (-EBUSY, s)
    else (0, s.(phase := SleepRequested, wakeAfter := wakeAfter))
  }

  function Abandon(s: State): State
  {
    s.(phase := Idle, target := BLANK, previous := BLANK)
  }

  function CancelAfterDispatchError(s: State, result: int): State
  {
    if result == 0 then s
    else
      var t := if s.phase == LaunchRequested || s.phase == SleepRequested then Abandon(s) else s;
      if t.phase == Idle && t.arming then t.(arming := false, armTarget := "") else t
  }

  function CancelAfterStartFailure(s: State, result: int): State
  {
    if result != 0 && (s.phase == ExitForLaunch || s.phase == SleepCheckpoint || s.phase == ReturnRequested)
    then Abandon(s) else s
  }

  function Push(l: Limits, s: State, id: Id): (int, State)
  {
    if id == "" then (0, s)
    else if |s.stack| >= l.stackMax then (-ENOSPC, s)
    else if !l.Fits(id) then (-EINVAL, s)
    else (0, s.(stack := s.stack + [Route(id, s.current.id == id && s.current.temp)]))
  }

  /** The app to return to; main when nothing is stacked. */
  function Pop(s: State): State
  {
    if s.stack == [] then s.(target := Route(MAIN, false))
    else s.(target := s.stack[|s.stack| - 1], stack := s.stack[..|s.stack| - 1])
  }

  function Kept(routes: seq<Route>): (r: seq<Route>)
    ensures |r| <= |routes|
  {
    if routes == [] then []
    else Kept(routes[..|routes| - 1]) + (if routes[|routes| - 1].temp then [] else [routes[|routes| - 1]])
  }

  function Untemp(r: Route): Route
  {
    if r.temp then BLANK else r
  }

  /** Forget every temporary app. */
  function ClearTempRoutes(s: State): State
  {
    s.(current := Untemp(s.current), target := Untemp(s.target), previous := Untemp(s.previous), stack := Kept(s.stack))
  }

  function Start(l: Limits, app: Id, event: string, setCurrent: bool, temp: bool): (int, Step)
  {
    if l.Fits(app) && 0 < |event| < EVENT_CAP then (0, StartApp(app, event, setCurrent, temp)) else (-EINVAL, NoStep)
  }

  /** Start the target as the new current app. */
  function StartTarget(l: Limits, s: State, reason: string): (int, Step, State)
  {
    var r := Start(l, s.target.id, "app.start", true, s.target.temp);
    (r.0, r.1, s.(reason := reason, target := BLANK))
  }

  /** An app that exited with nothing else going on wants to return. */
  function Settle(s: State): State
  {
    if s.exited && s.phase == Idle then s.(exited := false, phase := ReturnRequested) else s
  }

  /** The app was told to exit for a launch: stack it and start the target. */
  function NextAfterExit(l: Limits, s: State): (int, Step, State)
  {
    var p := Push(l, s.(phase := Idle), s.current.id);
    if p.0 != 0 then (p.0, NoStep, p.1.(target := Route("", p.1.target.temp)))
    else
      var r := StartTarget(l, p.1, "launch");
      (r.0, r.1, r.2.(exited := false))
  }

  /** A launch was requested: let the current app exit first, or start the target over main. */
  function NextForLaunch(l: Limits, s: State): (int, Step, State)
  {
    if s.current.id != "" then
      var r := Start(l, s.current.id, "app.exit", false, s.current.temp);
      (r.0, r.1, s.(phase := ExitForLaunch))
    else
      var p := if s.target.id != MAIN then Push(l, s, MAIN) else (0, s);
      if p.0 != 0 then (p.0, NoStep, p.1) else StartTarget(l, p.1.(phase := Idle), "launch")
  }

  /** Nothing is going on: register an armed app, deliver a due event, or poll. */
  function NextWhenIdle(l: Limits, s: State, dueApp: Id, dueEvent: string): (int, Step, State)
  {
    if s.arming then
      if l.Fits(s.armTarget) then (0, RegisterArmed(s.armTarget), s.(armTarget := "", arming := false))
      else (-EINVAL, NoStep, s)
    else if dueApp == "" || dueEvent == "" then (0, Poll, s)
    else if s.current.id == dueApp then
      var r := Start(l, dueApp, dueEvent, false, s.current.temp);
      (r.0, r.1, s)
    else
      var p := Push(l, s, s.current.id);
      if p.0 != 0 then (p.0, NoStep, p.1)
      else
        var r := Start(l, dueApp, dueEvent, true, false);
        (r.0, r.1, p.1.(reason := "launch"))
  }

  /** The next thing to do; a due event is an app and an event, either of which may be missing. */
  function NextStep(l: Limits, s0: State, dueApp: Id, dueEvent: string): (int, Step, State)
  {
    var s := Settle(s0);
    match s.phase
    case SleepCheckpoint => (0, WriteCheckpoint(s.wakeAfter), s.(phase := Idle))
    case SleepRequested =>
      var r := Start(l, s.current.id, "power.sleep", false, s.current.temp);
      (r.0, r.1, s.(phase := SleepCheckpoint))
    case ExitForLaunch => NextAfterExit(l, s)
    case LaunchRequested => NextForLaunch(l, s)
    case ReturnRequested => StartTarget(l, Pop(s.(phase := Idle)), "return")
    case Idle => NextWhenIdle(l, s, dueApp, dueEvent)
  }

  /** Going back to a recorded route after a wake-up; ids that do not fit end it. */
  function PushAll(l: Limits, s: State, ids: seq<Id>): (int, State)
  {
    if ids == [] then (0, s)
    else
      var front := PushAll(l, s, ids[..|ids| - 1]);
      if front.0 != 0 then front else Push(l, front.1, ids[|ids| - 1])
  }

  function RestorePlannedRoute(l: Limits, s: State, ids: seq<Id>): (int, State)
  {
    if |ids| > l.stackMax then (-EINVAL, s)
    else
      var t := s.(phase := Idle, target := BLANK, previous := BLANK, exited := false, stack := []);
      var r := PushAll(l, t, ids);
      if r.0 != 0 then (r.0, r.1.(stack := [])) else (0, r.1.(reason := "wake"))
  }

  // ---------------------------------------------------------------- what the driver does around a step

  /** A start that succeeds; `exits` is whether the started handler exits the app. */
  function Started(s: State, step: Step, exits: bool): State
    requires step.StartApp?
  {
    var t := if step.setCurrent then s.(current := Route(step.app, step.temp), previous := BLANK) else s;
    t.(exited := exits)
  }

  // ---------------------------------------------------------------- the runtime object

  class Runtime {
    const l: Limits
    const stack: array<Id>
    const stackTemp: array<bool>
    var stackCount: nat
    var current: Route
    var phase: Phase
    var target: Route
    var previous: Route
    var arming: bool
    var armTarget: Id
    var wakeAfter: int
    var reason: string
    var exited: bool

    ghost predicate Valid()
      reads this, stack, stackTemp
    {
      && l.Valid() && stack.Length == stackTemp.Length == l.stackMax && stackCount <= l.stackMax
      && (forall i :: 0 <= i < stackCount ==> l.Fits(stack[i]))
      && (forall i :: stackCount <= i < l.stackMax ==> stack[i] == "")
    }

    function Routes(n: nat): seq<Route>
      requires n <= stack.Length == stackTemp.Length
      reads stack, stackTemp
    {
      seq(n, i requires 0 <= i < n reads stack, stackTemp => Route(stack[i], stackTemp[i]))
    }

    function Value(): State
      requires stackCount <= stack.Length == stackTemp.Length
      reads this, stack, stackTemp
    {
      State(current, phase, target, previous, arming, armTarget, wakeAfter, reason, exited, Routes(stackCount))
    }

    constructor (l: Limits)
      requires l.Valid()
      ensures Valid() && this.l == l && fresh(stack) && fresh(stackTemp)
      ensures Value() == State(BLANK, Idle, BLANK, BLANK, false, "", 0, "boot", false, [])
    {
      this.l := l;
      stack := new Id[l.stackMax](_ => "");
      stackTemp := new bool[l.stackMax](_ => false);
      stackCount := 0;
      current, phase, target, previous := BLANK, Idle, BLANK, BLANK;
      arming, armTarget, wakeAfter, reason, exited := false, "", 0, "boot", false;
    }

    method RequestLaunchOf(app: Id, temp: bool) returns (result: int)
      requires Valid()
      modifies this
      ensures Valid() && (result, Value()) == RequestLaunch(l, old(Value()), app, temp)
    {
      if app == "" || |app| >= l.idMax {
        return -EINVAL;
      }
      if phase != Idle {
        return -EBUSY;
      }
      target := Route(app, temp);
      phase := LaunchRequested;
      result := 0;
    }

    method RequestArmOf(app: Id) returns (result: int)
      requires Valid()
      modifies this
      ensures Valid() && (result, Value()) == RequestArm(l, old(Value()), app)
    {
      if app == "" || |app| >= l.idMax {
        return -EINVAL;
      }
      if arming {
        return -EBUSY;
      }
      armTarget := app;
      arming := true;
      result := 0;
    }

    method CancelPendingArm(app: Id)
      requires Valid()
      modifies this
      ensures Valid() && Value() == CancelArm(old(Value()), app)
    {
      if arming && armTarget == app {
        armTarget := "";
        arming := false;
      }
    }

    method RequestSleepFor(ms: int) returns (result: int)
      requires Valid()
      modifies this
      ensures Valid() && (result, Value()) == RequestSleep(old(Value()), ms)
    {
      if ms <= 0 {
        return -EINVAL;
      }
      if current.temp {
        return -ENOTSUP;
      }
      if phase != Idle {
        return -EBUSY;
      }
      phase := SleepRequested;
      wakeAfter := ms;
      result := 0;
    }

    method CancelPendingAfterDispatchError(code: int)
      requires Valid()
      modifies this
      ensures Valid() && Value() == CancelAfterDispatchError(old(Value()), code)
    {
      if code == 0 {
        return;
      }
      if phase == LaunchRequested || phase == SleepRequested {
        phase := Idle;
        target := BLANK;
        previous := BLANK;
      }
      if phase == Idle && arming {
        arming := false;
        armTarget := "";
      }
    }

    method CancelPendingAfterStartFailure(code: int)
      requires Valid()
      modifies this
      ensures Valid() && Value() == CancelAfterStartFailure(old(Value()), code)
    {
      if code == 0 {
        return;
      }
      if phase == ExitForLaunch || phase == SleepCheckpoint || phase == ReturnRequested {
        phase := Idle;
        target := BLANK;
        previous := BLANK;
      }
    }

    method PushReturn(id: Id) returns (result: int)
      requires Valid()
      modifies this`stackCount, stack, stackTemp
      ensures Valid() && (result, Value()) == Push(l, old(Value()), id)
    {
      if id == "" {
        return 0;
      }
      if stackCount >= l.stackMax {
        return -ENOSPC;
      }
      if |id| >= l.idMax {
        return -EINVAL;
      }
      stack[stackCount] := id;
      stackTemp[stackCount] := current.id == id && current.temp;
      stackCount := stackCount + 1;
      assert Routes(stackCount) == old(Routes(stackCount)) + [Route(id, current.id == id && current.temp)];
      result := 0;
    }

    method PopReturn() returns (result: int)
      requires Valid()
      modifies this`stackCount, this`target, stack, stackTemp
      ensures Valid() && result == 0 && Value() == Pop(old(Value()))
    {
      if stackCount == 0 {
        target := Route(MAIN, false);
        return 0;
      }
      stackCount := stackCount - 1;
      target := Route(stack[stackCount], stackTemp[stackCount]);
      stack[stackCount] := "";
      stackTemp[stackCount] := false;
      assert Routes(stackCount) == old(Routes(stackCount))[..stackCount];
      result := 0;
    }

    /** Close the gap at slot `i` and blank the slot that becomes free. */
    method RemoveRoute(i: nat)
      requires Valid() && i < stackCount
      modifies this`stackCount, stack, stackTemp
      ensures Valid() && stackCount == old(stackCount) - 1
      ensures Routes(stackCount) == old(Routes(stackCount))[..i] + old(Routes(stackCount))[i + 1..]
    {
      ghost var ids, temps := stack[..], stackTemp[..];
      var j := i;
      while j + 1 < stackCount
        invariant i <= j < stackCount == old(stackCount)
        invariant forall k :: 0 <= k < i || j <= k < l.stackMax ==> stack[k] == ids[k] && stackTemp[k] == temps[k]
        invariant forall k :: i <= k < j ==> stack[k] == ids[k + 1] && stackTemp[k] == temps[k + 1]
      {
        stack[j] := stack[j + 1];
        stackTemp[j] := stackTemp[j + 1];
        j := j + 1;
      }
      stackCount := stackCount - 1;
      stack[stackCount] := "";
      stackTemp[stackCount] := false;
    }

    /** The compacting loop. */
    method RemoveTempRoutes()
      requires Valid()
      modifies this`stackCount, stack, stackTemp
      ensures Valid() && Routes(stackCount) == Kept(old(Routes(stackCount)))
    {
      var i := 0;
      while i < stackCount
        invariant Valid() && i <= stackCount
        invariant Kept(Routes(stackCount)) == Kept(old(Routes(stackCount)))
        invariant forall k :: 0 <= k < i ==> !stackTemp[k]
        decreases stackCount - i
      {
        if !stackTemp[i] {
          i := i + 1;
          continue;
        }
        ghost var routes := Routes(stackCount);
        KeptSkips(routes, i);
        RemoveRoute(i);
        assert forall k :: 0 <= k < i ==> Routes(stackCount)[k] == routes[k];
        assert forall k :: 0 <= k < i ==> stackTemp[k] == Routes(stackCount)[k].temp;
      }
      KeptAll(Routes(stackCount));
    }

    /** The three places outside the stack. */
    method ClearTempApps()
      modifies this`current, this`target, this`previous
      ensures current == Untemp(old(current)) && target == Untemp(old(target)) && previous == Untemp(old(previous))
    {
      if current.temp {
        current := BLANK;
      }
      if target.temp {
        target := BLANK;
      }
      if previous.temp {
        previous := BLANK;
      }
    }

    method ClearTemp()
      requires Valid()
      modifies this, stack, stackTemp
      ensures Valid() && Value() == ClearTempRoutes(old(Value()))
    {
      ghost var routes := Routes(stackCount);
      ClearTempApps();
      assert Valid() && Routes(stackCount) == routes;
      RemoveTempRoutes();
      assert Routes(stackCount) == Kept(routes);
    }

    method BlankStack()
      requires l.Valid() && stack.Length == stackTemp.Length == l.stackMax
      modifies this`stackCount, stack
      ensures Valid() && Routes(stackCount) == []
    {
      forall i | 0 <= i < stack.Length {
        stack[i] := "";
      }
      stackCount := 0;
    }

    /** Push the recorded ids one by one. */
    method PushRoutes(ids: seq<Id>) returns (result: int)
      requires Valid()
      modifies this`stackCount, stack, stackTemp
      ensures Valid() && (result, Value()) == PushAll(l, old(Value()), ids)
    {
      result := 0;
      for i := 0 to |ids|
        invariant Valid() && result == 0 && PushAll(l, old(Value()), ids[..i]) == (0, Value())
      {
        assert ids[..i + 1][..i] == ids[..i];
        result := PushReturn(ids[i]);
        if result != 0 {
          PushAllStops(l, old(Value()), ids, i + 1);
          return;
        }
      }
      assert ids[..|ids|] == ids;
    }

    /** `ids` are the recorded routes. */
    method RestoreRoute(ids: seq<Id>) returns (result: int)
      requires Valid()
      modifies this, stack, stackTemp
      ensures Valid() && (result, Value()) == RestorePlannedRoute(l, old(Value()), ids)
    {
      if |ids| > l.stackMax {
        return -EINVAL;
      }
      phase, target, previous, exited := Idle, BLANK, BLANK, false;
      forall i | 0 <= i < stackTemp.Length {
        stackTemp[i] := false;
      }
      BlankStack();
      result := PushRoutes(ids);
      if result != 0 {
        BlankStack();
        return;
      }
      reason := "wake";
    }

    method StartTargetApp(why: string) returns (result: int, step: Step)
      requires Valid()
      modifies this`reason, this`target
      ensures Valid() && (result, step, Value()) == StartTarget(l, old(Value()), why)
    {
      reason := why;
      result, step := SetStepStart(target.id, "app.start", true, target.temp);
      target := BLANK;
    }

    method AfterExit() returns (result: int, step: Step)
      requires Valid()
      modifies this, stack, stackTemp
      ensures Valid() && (result, step, Value()) == NextAfterExit(l, old(Value()))
    {
      phase := Idle;
      step := NoStep;
      result := PushReturn(current.id);
      if result != 0 {
        target := Route("", target.temp);
        return;
      }
      result, step := StartTargetApp("launch");
      exited := false;
    }

    method ForLaunch() returns (result: int, step: Step)
      requires Valid()
      modifies this, stack, stackTemp
      ensures Valid() && (result, step, Value()) == NextForLaunch(l, old(Value()))
    {
      step := NoStep;
      if current.id != "" {
        phase := ExitForLaunch;
        result, step := SetStepStart(current.id, "app.exit", false, current.temp);
        return;
      }
      if target.id != MAIN {
        result := PushReturn(MAIN);
        if result != 0 {
          return;
        }
      }
      phase := Idle;
      result, step := StartTargetApp("launch");
    }

    method WhenIdle(dueApp: Id, dueEvent: string) returns (result: int, step: Step)
      requires Valid()
      modifies this, stack, stackTemp
      ensures Valid() && (result, step, Value()) == NextWhenIdle(l, old(Value()), dueApp, dueEvent)
    {
      step := NoStep;
      if arming {
        if armTarget == "" || |armTarget| >= l.idMax {
          return -EINVAL, step;
        }
        step := RegisterArmed(armTarget);
        armTarget := "";
        arming := false;
        return 0, step;
      }
      if dueApp != "" && dueEvent != "" {
        if current.id == dueApp {
          result, step := SetStepStart(dueApp, dueEvent, false, current.temp);
          return;
        }
        result := PushReturn(current.id);
        if result != 0 {
          return;
        }
        reason := "launch";
        result, step := SetStepStart(dueApp, dueEvent, true, false);
        return;
      }
      return 0, Poll;
    }

    method Next(dueApp: Id, dueEvent: string) returns (result: int, step: Step)
      requires Valid()
      modifies this, stack, stackTemp
      ensures Valid() && (result, step, Value()) == NextStep(l, old(Value()), dueApp, dueEvent)
    {
      step := NoStep;
      if exited && phase == Idle {
        exited := false;
        phase := ReturnRequested;
      }
      match phase {
        case SleepCheckpoint =>
          phase := Idle;
          return 0, WriteCheckpoint(wakeAfter);
        case SleepRequested =>
          phase := SleepCheckpoint;
          result, step := SetStepStart(current.id, "power.sleep", false, current.temp);
        case ExitForLaunch =>
          result, step := AfterExit();
        case LaunchRequested =>
          result, step := ForLaunch();
        case ReturnRequested =>
          phase := Idle;
          result := PopReturn();
          if result != 0 {
            return;
          }
          result, step := StartTargetApp("return");
        case Idle =>
          result, step := WhenIdle(dueApp, dueEvent);
      }
    }

    method SetStepStart(app: Id, event: string, setCurrent: bool, temp: bool) returns (result: int, step: Step)
      ensures (result, step) == Start(l, app, event, setCurrent, temp)
    {
      if app == "" || |app| >= l.idMax {
        return -EINVAL, NoStep;
      }
      if event == "" || |event| >= EVENT_CAP {
        return -EINVAL, NoStep;
      }
      result, step := 0, StartApp(app, event, setCurrent, temp);
    }
  }

  // ---------------------------------------------------------------- keeping the non-temporary routes

  lemma {:induction false} KeptConcat(a: seq<Route>, b: seq<Route>)
    ensures Kept(a + b) == Kept(a) + Kept(b)
    decreases |b|
  {
    if b == [] {
      assert a + b == a;
    } else {
      var n := |b| - 1;
      assert (a + b)[..|a + b| - 1] == a + b[..n];
      KeptConcat(a, b[..n]);
    }
  }

  lemma KeptOne(r: Route)
    ensures Kept([r]) == if r.temp then [] else [r]
  {
    assert [r][..0] == [];
  }

  lemma KeptSkips(routes: seq<Route>, i: nat)
    requires i < |routes| && routes[i].temp
    ensures Kept(routes[..i] + routes[i + 1..]) == Kept(routes)
  {
    var a, b := routes[..i], routes[i + 1..];
    assert routes == a + ([routes[i]] + b);
    KeptConcat(a, [routes[i]] + b);
    KeptConcat([routes[i]], b);
    KeptConcat(a, b);
    KeptOne(routes[i]);
    assert [] + Kept(b) == Kept(b);
  }

  lemma {:induction false} KeptAll(routes: seq<Route>)
    requires forall i :: 0 <= i < |routes| ==> !routes[i].temp
    ensures Kept(routes) == routes
  {
    if routes != [] {
      KeptAll(routes[..|routes| - 1]);
    }
  }

  lemma {:induction false} PushAllStops(l: Limits, s: State, ids: seq<Id>, i: nat)
    requires i <= |ids| && PushAll(l, s, ids[..i]).0 != 0
    ensures PushAll(l, s, ids) == PushAll(l, s, ids[..i])
    decreases |ids| - i
  {
    if i == |ids| {
      assert ids[..i] == ids;
    } else {
      assert ids[..i + 1][..i] == ids[..i];
      PushAllStops(l, s, ids, i + 1);
    }
  }
}
