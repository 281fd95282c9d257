/**
 * The hand-off between the runtime, which submits display flushes, and the flush worker. One job is
 * active, at most one more is pending; a later submission replaces the pending one. The mutex makes
 * each submission and each hand-over one step, and the steps interleave in any order.
 */
module DisplayFlush {

  datatype Option<+T> = None | Some(value: T)

  datatype Mode = Auto | Fast | Full

  /** A job remembers which submission it came from and owns at most one page copy. */
  datatype Job = Job(submission: nat, mode: Mode, page: Option<nat>)

  const NO_JOB := Job(0, Auto, None)

  /** Where the worker thread is: not there, about to flush, flushed, or through with its page. */
  datatype Worker = Absent | Ready | Flushed | Released

  /** A flush that started: for which submission, and how many submissions there had been. */
  datatype Flush = Flush(submission: nat, mode: Mode, submittedBefore: nat)

  /**
   * The flags and jobs of the hand-off, the runtime's request, and the history: the modes submitted,
   * the flushes started, how many page copies were made and which were freed.
   */
  datatype State = State(
    active: bool, activeJob: Job, pending: bool, pendingJob: Job, worker: Worker,
    mode: Mode, dirty: bool, needsFlush: bool,
    submitted: seq<Mode>, flushes: seq<Flush>, copies: nat, freed: seq<nat>)

  const START := State(false, NO_JOB, false, NO_JOB, Absent, Auto, false, false, [], [], 0, [])

  datatype Action =
    | Draw
    | ChooseMode(name: string)
    | Forget
    | Submit(hasPage: bool, mallocSucceeds: bool)
    | WorkerFlush
    | WorkerFree
    | WorkerNext

  /** The refresh modes an app can name; any other name changes nothing. */
  function Chosen(mode: Mode, name: string): Mode
  {
    if name == "fast1bpp" then Fast
    else if name == "full" then Full
    else if name == "auto" then Auto
    else mode
  }

  function NewJob(s: State, copied: bool): Job
  {
    Job(|s.submitted| + 1, s.mode, if copied then Some(s.copies) else None)
  }

  function FreePage(freed: seq<nat>, page: Option<nat>): seq<nat>
  {
    if page.Some? then freed + [page.value] else freed
  }

  /** Submitting does nothing unless the display is dirty and wants a flush. */
  function Submitted(s: State, copied: bool): State
  {
    if !s.dirty || !s.needsFlush then s
    else
      var job := NewJob(s, copied);
      var t := s.(mode := Auto, dirty := false, needsFlush := false, submitted := s.submitted + [s.mode],
                  copies := if copied then s.copies + 1 else s.copies);
      if s.active then
        t.(freed := if s.pending then FreePage(s.freed, s.pendingJob.page) else s.freed,
           pendingJob := job, pending := true)
      else t.(activeJob := job, active := true, worker := Ready)
  }

  function Apply(s: State, a: Action): State
  {
    match a
    case Draw => s.(dirty := true, needsFlush := true)
    case ChooseMode(name) => s.(mode := Chosen(s.mode, name))
    case Forget => s.(dirty := false, needsFlush := false)
    case Submit(hasPage, mallocSucceeds) => Submitted(s, hasPage && mallocSucceeds)
    case WorkerFlush =>
      if s.worker != Ready then s
      else
        s.(worker := Flushed, flushes := s.flushes + [Flush(s.activeJob.submission, s.activeJob.mode, |s.submitted|)])
    case WorkerFree =>
      if s.worker != Flushed then s
      else s.(worker := Released, freed := FreePage(s.freed, s.activeJob.page), activeJob := s.activeJob.(page := None))
    case WorkerNext =>
      if s.worker != Released then s
      else if s.pending then s.(activeJob := s.pendingJob, pendingJob := NO_JOB, pending := false, worker := Ready)
      else s.(activeJob := NO_JOB, active := false, worker := Absent)
  }

  function Run(s: State, actions: seq<Action>): State
  {
    if actions == [] then s else Apply(Run(s, actions[..|actions| - 1]), actions[|actions| - 1])
  }

  // ---------------------------------------------------------------- the code

  class FlushQueue {
    var active: bool
    var activeJob: Job
    var pending: bool
    var pendingJob: Job
    var worker: Worker
    var mode: Mode
    var dirty: bool
    var needsFlush: bool
    ghost var submitted: seq<Mode>
    ghost var flushes: seq<Flush>
    var copies: nat
    ghost var freed: seq<nat>
    var submissions: nat

    ghost predicate Valid()
      reads this
    {
      submissions == |submitted|
    }

    ghost function Value(): State
      reads this
    {
      State(active, activeJob, pending, pendingJob, worker, mode, dirty, needsFlush, submitted, flushes, copies, freed)
    }

    constructor ()
      ensures Valid() && Value() == START
    {
      active, activeJob, pending, pendingJob, worker := false, NO_JOB, false, NO_JOB, Absent;
      mode, dirty, needsFlush := Auto, false, false;
      submitted, flushes, copies, freed, submissions := [], [], 0, [], 0;
    }

    /** Whatever is drawn makes the display dirty and asks for a flush. */
    method MarkDrawn()
      requires Valid()
      modifies this`dirty, this`needsFlush
      ensures Valid() && Value() == Apply(old(Value()), Draw)
    {
      needsFlush := true;
      dirty := true;
    }

    /** A name that is none of the three changes nothing. */
    method SetRefreshMode(name: string)
      requires Valid()
      modifies this`mode
      ensures Valid() && Value() == Apply(old(Value()), ChooseMode(name))
    {
      var chosen := Auto;
      if name == "fast1bpp" {
        chosen := Fast;
      } else if name == "full" {
        chosen := Full;
      } else if name == "auto" {
        chosen := Auto;
      } else {
        return;
      }
      mode := chosen;
    }

    /** A reset forgets what was drawn, not the mode. */
    method ForgetDrawn()
      requires Valid()
      modifies this`dirty, this`needsFlush
      ensures Valid() && Value() == Apply(old(Value()), Forget)
    {
      dirty := false;
      needsFlush := false;
    }

    method Free(page: nat)
      modifies this`freed
      ensures freed == old(freed) + [page]
    {
      freed := freed + [page];
    }

    /** Describe the request as a job, with a copy of the page when there is one and memory for it. */
    method CopyFlushJob(hasPage: bool, mallocSucceeds: bool) returns (job: Job)
      requires Valid()
      modifies this`copies
      ensures job == NewJob(old(Value()), hasPage && mallocSucceeds)
      ensures copies == if hasPage && mallocSucceeds then old(copies) + 1 else old(copies)
    {
      job := NO_JOB;
      job := job.(submission := submissions + 1, mode := mode);
      if hasPage && mallocSucceeds {
        job := job.(page := Some(copies));
        copies := copies + 1;
      }
    }

    /** A pending job that never ran gives its page back and is replaced. */
    method ReplacePending(hasPage: bool, mallocSucceeds: bool)
      requires Valid()
      modifies this`copies, this`freed, this`pending, this`pendingJob
      ensures pending && pendingJob == NewJob(old(Value()), hasPage && mallocSucceeds)
      ensures copies == if hasPage && mallocSucceeds then old(copies) + 1 else old(copies)
      ensures freed == if old(pending) then FreePage(old(freed), old(pendingJob).page) else old(freed)
    {
      if pending && pendingJob.page.Some? {
        Free(pendingJob.page.value);
      }
      pendingJob := CopyFlushJob(hasPage, mallocSucceeds);
      pending := true;
    }

    method StartWorker(hasPage: bool, mallocSucceeds: bool)
      requires Valid()
      modifies this`copies, this`active, this`activeJob, this`worker
      ensures active && worker == Ready && activeJob == NewJob(old(Value()), hasPage && mallocSucceeds)
      ensures copies == if hasPage && mallocSucceeds then old(copies) + 1 else old(copies)
    {
      activeJob := CopyFlushJob(hasPage, mallocSucceeds);
      active := true;
      worker := Ready;
    }

    method FlushIfDirty(hasPage: bool, mallocSucceeds: bool)
      requires Valid()
      modifies this
      ensures Valid() && Value() == Apply(old(Value()), Submit(hasPage, mallocSucceeds))
    {
      if !dirty || !needsFlush {
        return;
      }
      if active {
        ReplacePending(hasPage, mallocSucceeds);
      } else {
        StartWorker(hasPage, mallocSucceeds);
      }
      submitted, submissions := submitted + [mode], submissions + 1;
      mode := Auto;
      dirty := false;
      needsFlush := false;
    }

    /** The worker hands the framebuffer to the panel in the mode of its job. */
    method FlushFramebuffer()
      requires Valid() && worker == Ready
      modifies this`worker, this`flushes
      ensures Valid() && Value() == Apply(old(Value()), WorkerFlush)
    {
      flushes := flushes + [Flush(activeJob.submission, activeJob.mode, |submitted|)];
      worker := Flushed;
    }

    method ReleasePage()
      requires Valid() && worker == Flushed
      modifies this`worker, this`freed, this`activeJob
      ensures Valid() && Value() == Apply(old(Value()), WorkerFree)
    {
      if activeJob.page.Some? {
        Free(activeJob.page.value);
        activeJob := activeJob.(page := None);
      }
      worker := Released;
    }

    /** Take over the pending job, or go away. */
    method TakePending()
      requires Valid() && worker == Released
      modifies this
      ensures Valid() && Value() == Apply(old(Value()), WorkerNext)
    {
      if pending {
        activeJob := pendingJob;
        pendingJob := NO_JOB;
        pending := false;
        worker := Ready;
        return;
      }
      activeJob := NO_JOB;
      active := false;
      worker := Absent;
    }
  }

  // ---------------------------------------------------------------- what every step keeps

  function Owns(job: Job, page: nat): nat
  {
    if job.page == Some(page) then 1 else 0
  }

  function Held(job: Job): nat
  {
    if job.page.Some? then 1 else 0
  }

  /** Every page copy ever made is owned by exactly one job or was freed exactly once. */
  predicate PagesAccounted(s: State)
  {
    && (forall p :: 0 <= p < s.copies ==> multiset(s.freed)[p] + Owns(s.activeJob, p) + Owns(s.pendingJob, p) == 1)
    && (forall p :: p in s.freed ==> p < s.copies)
    && |s.freed| + Held(s.activeJob) + Held(s.pendingJob) == s.copies
    && (s.activeJob.page.Some? ==> s.activeJob.page.value < s.copies)
    && (s.pendingJob.page.Some? ==> s.pendingJob.page.value < s.copies)
  }

  predicate FromSubmission(s: State, job: Job)
  {
    0 < job.submission <= |s.submitted| && job.mode == s.submitted[job.submission - 1]
  }

  function LastFlushed(s: State): nat
  {
    if s.flushes == [] then 0 else s.flushes[|s.flushes| - 1].submission
  }

  predicate HandOff(s: State)
  {
    && (s.pending ==> s.active) && (s.active <==> s.worker != Absent)
    && (!s.active ==> s.activeJob == NO_JOB) && (!s.pending ==> s.pendingJob == NO_JOB)
    && (s.worker == Released ==> s.activeJob.page == None)
    && (s.active ==> FromSubmission(s, s.activeJob))
    && (s.pending ==> FromSubmission(s, s.pendingJob) && s.activeJob.submission < s.pendingJob.submission)
    // the newest submission is in the last job of the line, or already flushed
    && (s.pending ==> s.pendingJob.submission == |s.submitted|)
    && (s.active && !s.pending ==> s.activeJob.submission == |s.submitted|)
    && (!s.active ==> LastFlushed(s) == |s.submitted|)
    && (s.worker == Ready ==> LastFlushed(s) < s.activeJob.submission)
    && (s.worker == Flushed || s.worker == Released ==> LastFlushed(s) == s.activeJob.submission)
  }

  /** Flushes serve submissions in order, none twice, each in the mode of its submission, after it. */
  predicate FlushesInOrder(s: State)
  {
    && (forall i :: 0 <= i < |s.flushes| ==>
          && 0 < s.flushes[i].submission <= s.flushes[i].submittedBefore <= |s.submitted|
          && s.flushes[i].mode == s.submitted[s.flushes[i].submission - 1])
    && (forall i, j :: 0 <= i < j < |s.flushes| ==> s.flushes[i].submission < s.flushes[j].submission)
  }

  predicate Inv(s: State)
  {
    HandOff(s) && FlushesInOrder(s) && PagesAccounted(s)
  }

  lemma ApplyKeepsHandOff(s: State, a: Action)
    requires HandOff(s) && FlushesInOrder(s)
    ensures HandOff(Apply(s, a))
  {
  }

  /** Later submissions do not disturb the flushes there are. */
  lemma MoreSubmissions(s: State, t: State)
    requires FlushesInOrder(s) && t.flushes == s.flushes && s.submitted <= t.submitted
    ensures FlushesInOrder(t)
  {
  }

  lemma FlushKeepsOrder(s: State)
    requires HandOff(s) && FlushesInOrder(s)
    ensures FlushesInOrder(Apply(s, WorkerFlush))
  {
  }

  lemma ApplyKeepsOrder(s: State, a: Action)
    requires HandOff(s) && FlushesInOrder(s)
    ensures FlushesInOrder(Apply(s, a))
  {
    match a {
      case WorkerFlush => FlushKeepsOrder(s);
      case _ =>
        assert Apply(s, a).flushes == s.flushes;
        MoreSubmissions(s, Apply(s, a));
    }
  }

  lemma FreeCounts(freed: seq<nat>, page: Option<nat>, p: nat)
    ensures multiset(FreePage(freed, page))[p] == multiset(freed)[p] + (if page == Some(p) then 1 else 0)
  {
  }

  /** A step neither loses a page nor frees it twice. */
  lemma OnePageOwned(s: State, a: Action, p: nat)
    requires HandOff(s) && PagesAccounted(s) && p < Apply(s, a).copies
    ensures var t := Apply(s, a); multiset(t.freed)[p] + Owns(t.activeJob, p) + Owns(t.pendingJob, p) == 1
  {
    match a {
      case Submit(hasPage, mallocSucceeds) => SubmittedPageOwned(s, hasPage && mallocSucceeds, p);
      case WorkerFree => FreeCounts(s.freed, s.activeJob.page, p);
      case _ =>
    }
  }

  lemma SubmittedPageOwned(s: State, copied: bool, p: nat)
    requires HandOff(s) && PagesAccounted(s) && p < Submitted(s, copied).copies
    ensures var t := Submitted(s, copied); multiset(t.freed)[p] + Owns(t.activeJob, p) + Owns(t.pendingJob, p) == 1
  {
    FreeCounts(s.freed, s.pendingJob.page, p);
    if p == s.copies {
      assert p !in s.freed;
    }
  }

  /** A step neither invents nor forgets a page. */
  lemma PagesCounted(s: State, a: Action)
    requires HandOff(s) && PagesAccounted(s)
    ensures var t := Apply(s, a);
            && (forall p :: p in t.freed ==> p < t.copies)
            && |t.freed| + Held(t.activeJob) + Held(t.pendingJob) == t.copies
            && (t.activeJob.page.Some? ==> t.activeJob.page.value < t.copies)
            && (t.pendingJob.page.Some? ==> t.pendingJob.page.value < t.copies)
  {
    match a {
      case Submit(_, _) =>
      case WorkerFree =>
      case _ =>
    }
  }

  lemma ApplyKeepsPages(s: State, a: Action)
    requires HandOff(s) && PagesAccounted(s)
    ensures PagesAccounted(Apply(s, a))
  {
    var t := Apply(s, a);
    PagesCounted(s, a);
    forall p | 0 <= p < t.copies
      ensures multiset(t.freed)[p] + Owns(t.activeJob, p) + Owns(t.pendingJob, p) == 1
    {
      OnePageOwned(s, a, p);
    }
  }

  lemma {:induction false} RunsKeepInv(actions: seq<Action>)
    ensures Inv(Run(START, actions))
  {
    if actions != [] {
      var s := Run(START, actions[..|actions| - 1]);
      RunsKeepInv(actions[..|actions| - 1]);
      ApplyKeepsHandOff(s, actions[|actions| - 1]);
      ApplyKeepsOrder(s, actions[|actions| - 1]);
      ApplyKeepsPages(s, actions[|actions| - 1]);
    }
  }

  /**
   * Over every interleaving: whenever no worker is active, every page copy has been freed exactly once,
   * and if anything was ever submitted, the latest flush started after the latest submission and used
   * its mode.
   */
  lemma WhenIdleAllIsShown(actions: seq<Action>)
    requires !Run(START, actions).active
    ensures var s := Run(START, actions);
            && (forall p :: 0 <= p < s.copies ==> multiset(s.freed)[p] == 1)
            && |s.freed| == s.copies
            && (s.submitted != [] ==>
                  s.flushes != [] &&
                  var last := s.flushes[|s.flushes| - 1];
                  && last.submission == last.submittedBefore == |s.submitted|
                  && last.mode == s.submitted[|s.submitted| - 1])
  {
    var s := Run(START, actions);
    RunsKeepInv(actions);
    IdlePages(s);
    if s.submitted != [] {
      IdleShown(s);
    }
  }

  lemma IdlePages(s: State)
    requires Inv(s) && !s.active
    ensures (forall p :: 0 <= p < s.copies ==> multiset(s.freed)[p] == 1) && |s.freed| == s.copies
  {
  }

  lemma IdleShown(s: State)
    requires Inv(s) && !s.active && s.submitted != []
    ensures s.flushes != []
    ensures var last := s.flushes[|s.flushes| - 1];
            && last.submission == last.submittedBefore == |s.submitted| && last.mode == s.submitted[|s.submitted| - 1]
  {
  }

  // ---------------------------------------------------------------- what is submitted

  /**
   * A submit with both flags set adds exactly one submission, in the requested mode, and clears the request; with
   * either flag clear it adds none, and so does a second one without a new request.
   */
  lemma SubmitExactly(s: State, hasPage: bool, mallocSucceeds: bool, again: Action)
    requires again.Submit?
    ensures var t := Apply(s, Submit(hasPage, mallocSucceeds));
            && (s.dirty && s.needsFlush ==>
                  t.submitted == s.submitted + [s.mode] && t.active && !t.dirty && !t.needsFlush && t.mode == Auto)
            && (!s.dirty || !s.needsFlush ==> t == s)
            && t.flushes == s.flushes && Apply(t, again).submitted == t.submitted
  {
  }

  /** What the calls ask for: whether something was drawn, and the mode for it. */
  datatype Wish = Wish(drawn: bool, mode: Mode)

  /** A submission takes the wish with it; the next one starts with nothing drawn and the automatic mode. */
  function WishNext(w: Wish, a: Action): Wish
  {
    match a
    case Draw => w.(drawn := true)
    case ChooseMode(name) =>
      if name == "full" then w.(mode := Full)
      else if name == "fast1bpp" then w.(mode := Fast)
      else if name == "auto" then w.(mode := Auto)
      else w
    case Forget => w.(drawn := false)
    case Submit(_, _) => if w.drawn then Wish(false, Auto) else w
    case _ => w
  }

  function WishAfter(actions: seq<Action>): Wish
  {
    if actions == [] then Wish(false, Auto)
    else WishNext(WishAfter(actions[..|actions| - 1]), actions[|actions| - 1])
  }

  /** The modes submitted: one for each submission that finds something drawn. */
  function Submissions(actions: seq<Action>): seq<Mode>
  {
    if actions == [] then []
    else
      var before := actions[..|actions| - 1];
      if actions[|actions| - 1].Submit? && WishAfter(before).drawn then Submissions(before) + [WishAfter(before).mode]
      else Submissions(before)
  }

  lemma StepAsWished(s: State, w: Wish, a: Action)
    requires s.dirty == s.needsFlush == w.drawn && s.mode == w.mode
    ensures var t, v := Apply(s, a), WishNext(w, a);
            && t.dirty == t.needsFlush == v.drawn && t.mode == v.mode
            && t.submitted == if a.Submit? && w.drawn then s.submitted + [w.mode] else s.submitted
  {
    match a {
      case ChooseMode(_) =>
      case Submit(_, _) =>
      case _ =>
    }
  }

  /** Over every interleaving exactly what was drawn and not forgotten is submitted, once, in the mode chosen for it. */
  lemma {:induction false} SubmittedExactly(actions: seq<Action>)
    ensures var s, w := Run(START, actions), WishAfter(actions);
            && s.submitted == Submissions(actions)
            && s.dirty == s.needsFlush == w.drawn && s.mode == w.mode
  {
    if actions != [] {
      var before := actions[..|actions| - 1];
      SubmittedExactly(before);
      StepAsWished(Run(START, before), WishAfter(before), actions[|actions| - 1]);
    }
  }

  lemma RunExtends(s: State, actions: seq<Action>, a: Action)
    ensures Run(s, actions + [a]) == Apply(Run(s, actions), a)
  {
    assert (actions + [a])[..|actions|] == actions;
  }

  // ---------------------------------------------------------------- the worker finishes

  const ROUND: seq<Action> := [WorkerFlush, WorkerFree, WorkerNext]

  lemma RunRound(s: State)
    ensures Run(s, ROUND) == Apply(Apply(Apply(s, WorkerFlush), WorkerFree), WorkerNext)
  {
    assert ROUND[..2] == [WorkerFlush, WorkerFree] && ROUND[..2][..1] == [WorkerFlush] && ROUND[..1][..0] == [];
    assert Run(s, ROUND[..2][..1][..0]) == s;
    assert Run(s, [WorkerFlush]) == Apply(s, WorkerFlush);
    assert Run(s, [WorkerFlush, WorkerFree]) == Apply(Apply(s, WorkerFlush), WorkerFree);
  }

  lemma InvKept(s: State, a: Action)
    requires Inv(s)
    ensures Inv(Apply(s, a))
  {
    ApplyKeepsHandOff(s, a);
    ApplyKeepsOrder(s, a);
    ApplyKeepsPages(s, a);
  }

  lemma RoundMoves(s: State)
    requires HandOff(s)
    ensures var t := Apply(Apply(Apply(s, WorkerFlush), WorkerFree), WorkerNext);
            t.submitted == s.submitted && !t.pending && (t.active <==> s.pending)
  {
    var two := Apply(Apply(s, WorkerFlush), WorkerFree);
    assert two.worker == Released || two.worker == Absent;
    assert two.pending == s.pending && two.submitted == s.submitted;
  }

  /** A round finishes the active job and takes the pending one, if any. */
  lemma OneRound(s: State)
    requires Inv(s)
    ensures var t := Run(s, ROUND);
            Inv(t) && t.submitted == s.submitted && !t.pending && (t.active <==> s.pending)
  {
    RunRound(s);
    RoundMoves(s);
    RoundKeepsInv(s);
  }

  lemma RoundKeepsInv(s: State)
    requires Inv(s)
    ensures Inv(Apply(Apply(Apply(s, WorkerFlush), WorkerFree), WorkerNext))
  {
    InvKept(s, WorkerFlush);
    InvKept(Apply(s, WorkerFlush), WorkerFree);
    InvKept(Apply(Apply(s, WorkerFlush), WorkerFree), WorkerNext);
  }

  /** Left alone, the worker is gone after two rounds at most, with the newest submission on the panel. */
  lemma WorkerFinishes(s: State)
    requires Inv(s)
    ensures var t := Run(Run(s, ROUND), ROUND); !t.active && LastFlushed(t) == |s.submitted|
  {
    OneRound(s);
    OneRound(Run(s, ROUND));
  }

  /** Each call submits one more, in the mode chosen, if something is drawn. */
  lemma DrawnIsSubmitted(actions: seq<Action>, name: string, hasPage: bool, mallocSucceeds: bool)
    requires name in {"full", "fast1bpp", "auto"}
    ensures var s := Run(START, actions + [Draw, ChooseMode(name), Submit(hasPage, mallocSucceeds)]);
            s.submitted == Run(START, actions).submitted
                           + [if name == "full" then Full else if name == "fast1bpp" then Fast else Auto]
  {
    var one := actions + [Draw];
    var two := one + [ChooseMode(name)];
    RunExtends(START, actions, Draw);
    RunExtends(START, one, ChooseMode(name));
    RunExtends(START, two, Submit(hasPage, mallocSucceeds));
    assert actions + [Draw, ChooseMode(name), Submit(hasPage, mallocSucceeds)]
           == two + [Submit(hasPage, mallocSucceeds)];
  }

  /** After any run: what is drawn and submitted is on the panel, in the mode chosen, when the worker is done. */
  lemma DrawnIsShown(actions: seq<Action>, name: string, hasPage: bool, mallocSucceeds: bool)
    requires name in {"full", "fast1bpp", "auto"}
    ensures var s := Run(START, actions + [Draw, ChooseMode(name), Submit(hasPage, mallocSucceeds)]);
            var t := Run(Run(s, ROUND), ROUND);
            && !t.active && t.flushes != []
            && var last := t.flushes[|t.flushes| - 1];
               && last.submission == |Run(START, actions).submitted| + 1
               && last.mode == (if name == "full" then Full else if name == "fast1bpp" then Fast else Auto)
  {
    var all := actions + [Draw, ChooseMode(name), Submit(hasPage, mallocSucceeds)];
    var s := Run(START, all);
    DrawnIsSubmitted(actions, name, hasPage, mallocSucceeds);
    RunsKeepInv(all);
    OneRound(s);
    OneRound(Run(s, ROUND));
    IdleShown(Run(Run(s, ROUND), ROUND));
  }
}
