/**
 * The debouncer of one button channel: a sampled value becomes the logical one once it has been seen
 * steadily for the debounce interval.
 */
module ButtonDebounce {
  datatype Option<+T> = None | Some(value: T)

  datatype Button = Released | Back | Select | Left | Right | Up | Down | Power

  function EventOf(b: Button): Option<string>
  {
    match b
    case Released => None
    case Back => Some("key.BACK")
    case Select => Some("key.SELECT")
    case Left => Some("key.LEFT")
    case Right => Some("key.RIGHT")
    case Up => Some("key.UP")
    case Down => Some("key.DOWN")
    case Power => Some("key.POWER")
  }

  /** Each key has its own event, and only being released has none. */
  lemma EventNames(b: Button)
    ensures EventOf(b).None? <==> b == Released
    ensures EventOf(b) == Some("key.BACK") <==> b == Back
    ensures EventOf(b) == Some("key.SELECT") <==> b == Select
    ensures EventOf(b) == Some("key.LEFT") <==> b == Left
    ensures EventOf(b) == Some("key.RIGHT") <==> b == Right
    ensures EventOf(b) == Some("key.UP") <==> b == Up
    ensures EventOf(b) == Some("key.DOWN") <==> b == Down
    ensures EventOf(b) == Some("key.POWER") <==> b == Power
  {
    if EventOf(b).Some? {
      assert EventOf(b).value[4] in {'B', 'S', 'L', 'R', 'U', 'D', 'P'};
    }
  }

  datatype State = State(logical: Button, candidate: Button, debounceUntil: int)

  /** A zeroed runtime. */
  const START := State(Released, Released, 0)

  /** What a poll does with an event. */
  datatype Action = NoAction | Queue(event: string) | Start(event: string)

  const ENOSPC := 28

  datatype Sample = Sample(value: Button, time: int)

  function Observe(interval: nat, s: State, x: Sample): State
  {
    if x.value == s.logical then s.(candidate := x.value)
    else if x.value != s.candidate then s.(candidate := x.value, debounceUntil := x.time + interval)
    else if x.time < s.debounceUntil then s
    else s.(logical := x.value)
  }

  class Channel {
    const interval: nat
    var logical: Button
    var candidate: Button
    var debounceUntil: int

    ghost function Value(): State
      reads this
    {
      State(logical, candidate, debounceUntil)
    }

    constructor (interval: nat)
      ensures Value() == START && this.interval == interval
    {
      this.interval := interval;
      logical, candidate, debounceUntil := Released, Released, 0;
    }

    /**
     * One poll; an event comes out exactly when the logical value becomes that of a key. A running app gets it
     * through its queue, an idle one is started with it; `answer` is what that yields.
     */
    method Poll(observed: Button, now: int, running: bool, answer: int) returns (action: Action, result: int)
      modifies this
      ensures Value() == Observe(interval, old(Value()), Sample(observed, now))
      ensures action == if logical == old(logical) || EventOf(observed).None? then NoAction
                        else if running then Queue(EventOf(observed).value) else Start(EventOf(observed).value)
      ensures result == if action == NoAction || (action.Queue? && answer == -ENOSPC) then 0 else answer
    {
      if observed == logical {
        candidate := observed;
        return NoAction, 0;
      }
      if observed != candidate {
        candidate := observed;
        debounceUntil := now + interval;
        return NoAction, 0;
      }
      if now < debounceUntil {
        return NoAction, 0;
      }
      logical := observed;
      var event := EventOf(observed);
      if event.None? {
        return NoAction, 0;
      }
      if running {
        return Queue(event.value), if answer == -ENOSPC then 0 else answer;
      }
      return Start(event.value), answer;
    }
  }

  // ---------------------------------------------------------------- traces

  function Run(interval: nat, samples: seq<Sample>): State
  {
    if samples == [] then START else Observe(interval, Run(interval, samples[..|samples| - 1]), samples[|samples| - 1])
  }

  /** The logical value once the first `k` samples have been seen. */
  function LogicalAfter(interval: nat, samples: seq<Sample>, k: nat): Button
    requires k <= |samples|
  {
    Run(interval, samples[..k]).logical
  }

  predicate InTimeOrder(samples: seq<Sample>)
  {
    forall i, j :: 0 <= i <= j < |samples| ==> samples[i].time <= samples[j].time
  }

  /** From sample `j` to sample `k` nothing but the value of sample `k`. */
  predicate Constant(samples: seq<Sample>, j: nat, k: nat)
    requires j <= k < |samples|
  {
    forall i :: j <= i <= k ==> samples[i].value == samples[k].value
  }

  predicate SteadySince(interval: nat, samples: seq<Sample>, j: nat, k: nat)
    requires j <= k < |samples|
  {
    j < k && Constant(samples, j, k) && samples[k].time - samples[j].time >= interval
  }

  /** Sample `k` ends a stretch of equal samples spanning at least the debounce interval. */
  ghost predicate Steady(interval: nat, samples: seq<Sample>, k: nat)
    requires k < |samples|
  {
    exists j: nat :: j <= k && SteadySince(interval, samples, j, k)
  }

  /** Where the stretch of equal samples that ends with sample `k` begins. */
  function StretchStart(samples: seq<Sample>, k: nat): (j: nat)
    requires k < |samples|
    ensures j <= k && Constant(samples, j, k)
    ensures j > 0 ==> samples[j - 1].value != samples[k].value
  {
    if k > 0 && samples[k - 1].value == samples[k].value then StretchStart(samples, k - 1) else k
  }

  lemma RunStep(interval: nat, samples: seq<Sample>, k: nat)
    requires k < |samples|
    ensures Run(interval, samples[..k + 1]) == Observe(interval, Run(interval, samples[..k]), samples[k])
  {
    assert samples[..k + 1][..k] == samples[..k];
  }

  /** The candidate is the last sample; while it waits, the deadline counts from where its stretch began. */
  lemma {:induction false} DeadlineIsFromStretchStart(interval: nat, samples: seq<Sample>, k: nat)
    requires k < |samples|
    ensures var s := Run(interval, samples[..k + 1]);
            && s.candidate == samples[k].value
            && (s.candidate != s.logical ==>
                  s.debounceUntil == samples[StretchStart(samples, k)].time + interval)
  {
    RunStep(interval, samples, k);
    if k == 0 {
      assert samples[..0] == [];
    } else {
      DeadlineIsFromStretchStart(interval, samples, k - 1);
    }
  }

  lemma SteadyIsWholeStretch(interval: nat, samples: seq<Sample>, k: nat)
    requires k < |samples| && InTimeOrder(samples)
    ensures Steady(interval, samples, k) <==> SteadySince(interval, samples, StretchStart(samples, k), k)
  {
    var start := StretchStart(samples, k);
    if Steady(interval, samples, k) {
      var j: nat :| j <= k && SteadySince(interval, samples, j, k);
      assert start <= j;
      assert samples[start].time <= samples[j].time;
    }
  }

  /** One sample: the logical value is the sample's if it ends a steady stretch, and what it was if not. */
  lemma LogicalStep(interval: nat, samples: seq<Sample>, k: nat)
    requires k < |samples| && InTimeOrder(samples)
    ensures LogicalAfter(interval, samples, k + 1)
            == if Steady(interval, samples, k) then samples[k].value else LogicalAfter(interval, samples, k)
  {
    RunStep(interval, samples, k);
    SteadyIsWholeStretch(interval, samples, k);
    if k == 0 {
      assert samples[..0] == [];
    } else {
      DeadlineIsFromStretchStart(interval, samples, k - 1);
    }
  }

  /** The logical value changes to `v` only, and always, at the end of a steady stretch of `v`. */
  lemma ChangesExactlyWhenSteady(interval: nat, samples: seq<Sample>, k: nat)
    requires k < |samples| && InTimeOrder(samples)
    ensures LogicalAfter(interval, samples, k + 1) != LogicalAfter(interval, samples, k)
            <==> Steady(interval, samples, k) && samples[k].value != LogicalAfter(interval, samples, k)
    ensures LogicalAfter(interval, samples, k + 1) != LogicalAfter(interval, samples, k)
            ==> LogicalAfter(interval, samples, k + 1) == samples[k].value
  {
    LogicalStep(interval, samples, k);
  }

  /** At any moment: the value of the latest steady stretch, or released when there was none. */
  lemma {:induction false} LogicalIsLatestSteady(interval: nat, samples: seq<Sample>, k: nat, m: nat)
    requires m <= k <= |samples| && InTimeOrder(samples)
    requires forall i :: m <= i < k ==> !Steady(interval, samples, i)
    requires m > 0 ==> Steady(interval, samples, m - 1)
    ensures LogicalAfter(interval, samples, k) == if m > 0 then samples[m - 1].value else Released
    decreases k
  {
    if k > m {
      LogicalIsLatestSteady(interval, samples, k - 1, m);
      LogicalStep(interval, samples, k - 1);
    } else if k > 0 {
      LogicalStep(interval, samples, k - 1);
    } else {
      assert samples[..0] == [];
    }
  }

  // ---------------------------------------------------------------- events

  /** Sample `k` makes the channel report `b`. */
  predicate Reports(interval: nat, samples: seq<Sample>, k: nat, b: Button)
    requires k < |samples|
  {
    && LogicalAfter(interval, samples, k + 1) != LogicalAfter(interval, samples, k)
    && LogicalAfter(interval, samples, k + 1) == b && EventOf(b).Some?
  }

  /** Where the logical value was left for another one. */
  lemma {:induction false} SomethingElseCommitted(interval: nat, samples: seq<Sample>, i: nat, k: nat) returns (m: nat)
    requires i < k <= |samples| && InTimeOrder(samples)
    requires LogicalAfter(interval, samples, i) != LogicalAfter(interval, samples, k)
    ensures i <= m < k && Steady(interval, samples, m)
    ensures samples[m].value == LogicalAfter(interval, samples, m + 1) == LogicalAfter(interval, samples, k)
    decreases k
  {
    LogicalStep(interval, samples, k - 1);
    if LogicalAfter(interval, samples, k - 1) != LogicalAfter(interval, samples, k) {
      m := k - 1;
    } else {
      m := SomethingElseCommitted(interval, samples, i, k - 1);
    }
  }

  /**
   * Between two reports of the same key another value was held steadily, so a bouncing contact is reported
   * once, and the reports are at least two debounce intervals apart.
   */
  lemma ReportsAreSeparated(interval: nat, samples: seq<Sample>, i: nat, k: nat, b: Button) returns (m: nat)
    requires i < k < |samples| && InTimeOrder(samples)
    requires Reports(interval, samples, i, b) && Reports(interval, samples, k, b)
    ensures i < m < k && Steady(interval, samples, m) && samples[m].value != b
    ensures LogicalAfter(interval, samples, m + 1) != b
    ensures samples[k].time - samples[i].time >= 2 * interval
  {
    m := SomethingElseCommitted(interval, samples, i + 1, k);
    LogicalStep(interval, samples, i);
    LogicalStep(interval, samples, k);
    var p: nat :| p <= m && SteadySince(interval, samples, p, m);
    var q: nat :| q <= k && SteadySince(interval, samples, q, k);
    assert samples[i].value == b && samples[k].value == b;
    assert p > i;
    assert q > m;
  }

  /** A key held steadily is reported, whatever came before, unless it was the logical value already. */
  lemma SteadyKeyIsReported(interval: nat, samples: seq<Sample>, j: nat, k: nat)
    requires j <= k < |samples| && InTimeOrder(samples)
    requires SteadySince(interval, samples, j, k) && EventOf(samples[k].value).Some?
    requires LogicalAfter(interval, samples, j) != samples[k].value
    ensures exists r :: j <= r <= k && Reports(interval, samples, r, samples[k].value)
  {
    LogicalStep(interval, samples, k);
    var r := FirstChange(interval, samples, j, k + 1);
    assert Reports(interval, samples, r, samples[k].value);
  }

  lemma {:induction false} FirstChange(interval: nat, samples: seq<Sample>, j: nat, k: nat) returns (r: nat)
    requires j < k <= |samples|
    requires LogicalAfter(interval, samples, j) != LogicalAfter(interval, samples, k)
    ensures j <= r < k && LogicalAfter(interval, samples, r + 1) != LogicalAfter(interval, samples, r)
    ensures LogicalAfter(interval, samples, r + 1) == LogicalAfter(interval, samples, k)
    decreases k
  {
    if LogicalAfter(interval, samples, k - 1) != LogicalAfter(interval, samples, k) {
      r := k - 1;
    } else {
      r := FirstChange(interval, samples, j, k - 1);
    }
  }
}
