/**
 * The step-by-step job and the recursive walk leave the same file system, and the job takes exactly
 * one step per node it deletes plus eight.
 */
module FormatEquivalence {
  import opened FileTree
  import opened StorageFormat

  // ---------------------------------------------------------------- names in the root

  lemma LookupOne(root: Node, name: string)
    requires root.Dir?
    ensures Lookup(root, [name]) ==
            var i := Find(root.entries, name);
            if i == |root.entries| then Option.None else Option.Some(root.entries[i].node)
  {
    assert [name][1..] == [];
    var i := Find(root.entries, name);
    if i < |root.entries| {
      assert Lookup(root.entries[i].node, []) == Option.Some(root.entries[i].node);
    }
  }

  lemma PutOne(root: Node, name: string, n: Node)
    requires root.Dir? && Exists(root, name)
    ensures var i := Find(root.entries, name);
            i < |root.entries| && Put(root, [name], n) == Dir(root.entries[i := Entry(name, n)])
  {
    assert [name][1..] == [];
  }

  lemma {:induction false} FindUpdated(entries: seq<Entry>, i: nat, n: Node, name: string)
    requires i < |entries|
    ensures Find(entries[i := Entry(entries[i].name, n)], name) == Find(entries, name)
    decreases |entries|
  {
    var updated := entries[i := Entry(entries[i].name, n)];
    if entries[0].name != name && i > 0 {
      assert updated[1..] == entries[1..][i - 1 := Entry(entries[1..][i - 1].name, n)];
      FindUpdated(entries[1..], i - 1, n, name);
    } else if entries[0].name != name {
      assert updated[1..] == entries[1..];
    }
  }

  /** Replacing one child leaves the other names of the root alone. */
  lemma PutLeavesOthers(root: Node, name: string, n: Node, other: string)
    requires root.Dir? && Exists(root, name)
    ensures Put(root, [name], n).Dir?
    ensures Lookup(Put(root, [name], n), [other]) == if other == name then Some(n) else Lookup(root, [other])
  {
    PutOne(root, name, n);
    var i := Find(root.entries, name);
    FindUpdated(root.entries, i, n, other);
    LookupOne(root, other);
    LookupOne(Put(root, [name], n), other);
  }

  lemma {:induction false} FindAppended(entries: seq<Entry>, e: Entry, name: string)
    ensures Find(entries + [e], name) ==
            if Find(entries, name) < |entries| then Find(entries, name)
            else if e.name == name then |entries| else |entries| + 1
    decreases |entries|
  {
    if entries == [] {
      assert entries + [e] == [e] && [e][1..] == [];
    } else {
      assert (entries + [e])[1..] == entries[1..] + [e];
      FindAppended(entries[1..], e, name);
    }
  }

  lemma EnsuredLeavesOthers(root: Node, name: string, other: string)
    requires root.Dir?
    ensures Lookup(Ensured(root, name), [other]) ==
            if other == name && !Exists(root, name) then Some(Dir([])) else Lookup(root, [other])
  {
    LookupOne(root, name);
    if !Exists(root, name) {
      FindAppended(root.entries, Entry(name, Dir([])), other);
      LookupOne(root, other);
      LookupOne(Ensured(root, name), other);
    }
  }

  // ---------------------------------------------------------------- the result of a format

  function ClearedName(root: Node, name: string): Node
  {
    Cleared(root, [name])
  }

  /** What formatting leaves: the three directories emptied, the four directories there. */
  function Formatted(root: Node): Node
    requires Formattable(root)
  {
    var a := ClearedName(root, "apps");
    ClearedKeeps(root, "apps");
    var b := ClearedName(a, "state");
    ClearedKeeps(a, "state");
    var c := ClearedName(b, "tmp");
    ClearedKeeps(b, "tmp");
    Ensured(Ensured(Ensured(Ensured(c, "apps"), "state"), "tmp"), "system")
  }

  lemma ClearedAt(root: Node, name: string, other: string)
    requires root.Dir?
    ensures ClearedName(root, name).Dir?
    ensures Lookup(ClearedName(root, name), [other]) ==
            if other == name && Exists(root, name) && Lookup(root, [name]).value.Dir?
            then Some(Dir([])) else Lookup(root, [other])
  {
    if Exists(root, name) && Lookup(root, [name]).value.Dir? {
      PutLeavesOthers(root, name, Dir([]), other);
    }
  }

  /** The same of the four names are files. */
  predicate SameFiles(a: Node, b: Node)
  {
    a.Dir? && b.Dir? && forall i :: 0 <= i < 4 ==> (IsFile(a, PREPARED[i]) <==> IsFile(b, PREPARED[i]))
  }

  lemma ClearedKeeps(root: Node, name: string)
    requires root.Dir?
    ensures SameFiles(root, ClearedName(root, name))
  {
    ClearedAt(root, name, name);
    forall i | 0 <= i < 4 ensures IsFile(root, PREPARED[i]) <==> IsFile(ClearedName(root, name), PREPARED[i]) {
      ClearedAt(root, name, PREPARED[i]);
    }
  }

  lemma EnsuredKeeps(root: Node, name: string)
    requires root.Dir?
    ensures SameFiles(root, Ensured(root, name))
  {
    forall i | 0 <= i < 4 ensures IsFile(root, PREPARED[i]) <==> IsFile(Ensured(root, name), PREPARED[i]) {
      EnsuredLeavesOthers(root, name, PREPARED[i]);
    }
  }

  /** Emptied directories are there, the system directory is there, and nothing else changed. */
  lemma FormattedIs(root: Node, name: string)
    requires Formattable(root)
    ensures Lookup(Formatted(root), [name]) ==
            if name in ["apps", "state", "tmp"] then Some(Dir([]))
            else if name == "system" && !Exists(root, name) then Some(Dir([]))
            else Lookup(root, [name])
  {
    ThreeCleared(root, name);
    FourEnsured(ClearedName(ClearedName(ClearedName(root, "apps"), "state"), "tmp"), name);
  }

  lemma ThreeCleared(root: Node, name: string)
    requires Formattable(root)
    ensures var c := ClearedName(ClearedName(ClearedName(root, "apps"), "state"), "tmp");
            && c.Dir?
            && Lookup(c, [name]) ==
               if name in ["apps", "state", "tmp"] && Exists(root, name) then Some(Dir([])) else Lookup(root, [name])
  {
    var a := ClearedName(root, "apps");
    var b := ClearedName(a, "state");
    ClearedAt(root, "apps", name);
    ClearedAt(a, "state", name);
    ClearedAt(b, "tmp", name);
    assert PREPARED[0] == "apps" && PREPARED[1] == "state" && PREPARED[2] == "tmp";
  }

  lemma FourEnsured(c: Node, name: string)
    requires c.Dir?
    ensures Lookup(Ensured(Ensured(Ensured(Ensured(c, "apps"), "state"), "tmp"), "system"), [name]) ==
            if name in ["apps", "state", "tmp", "system"] && !Exists(c, name) then Some(Dir([])) else Lookup(c, [name])
  {
    var d := Ensured(c, "apps");
    var e := Ensured(d, "state");
    EnsuredLeavesOthers(c, "apps", name);
    EnsuredLeavesOthers(d, "state", name);
    EnsuredLeavesOthers(e, "tmp", name);
    EnsuredLeavesOthers(Ensured(e, "tmp"), "system", name);
  }

  // ---------------------------------------------------------------- the walk

  lemma NamesAre()
    ensures DELETED[0] == PREPARED[0] == "apps" && DELETED[1] == PREPARED[1] == "state"
    ensures DELETED[2] == PREPARED[2] == "tmp" && PREPARED[3] == "system"
  {
  }

  function FourPrepared(root: Node): Node
    requires root.Dir?
  {
    Ensured(Ensured(Ensured(Ensured(root, "apps"), "state"), "tmp"), "system")
  }

  method ClearByWalk(fs: FileSystem, m: Mount, name: string) returns (result: int)
    requires fs.root.Dir?
    modifies fs
    ensures PathsFit(Children(old(fs.root), name), PathLen(m.len, [name]), m.cap) && PathLen(m.len, [name]) < m.cap
            ==> result == if IsFile(old(fs.root), name) then -ENOTDIR else 0
    ensures result == 0 ==> !IsFile(old(fs.root), name) && fs.root == ClearedName(old(fs.root), name)
  {
    if PathLen(m.len, [name]) >= m.cap {
      return -ENAMETOOLONG;
    }
    ghost var start := fs.root;
    var deletedAny;
    result, deletedAny := DeleteFilesUnder(fs, m, [name], Children(fs.root, name));
    while result == 0 && deletedAny
      invariant result == 0 ==> !IsFile(start, name) && fs.root == ClearedName(start, name)
      invariant PathsFit(Children(start, name), PathLen(m.len, [name]), m.cap) ==>
                  result == if IsFile(start, name) then -ENOTDIR else 0
      decreases deletedAny
    {
      ClearedAt(start, name, name);
      assert Children(fs.root, name) == [];
      if Exists(start, name) {
        PutTwice(start, [name], Dir([]), Dir([]));
      }
      result, deletedAny := DeleteFilesUnder(fs, m, [name], []);
    }
  }

  /** Make sure the four directories are there. */
  method PrepareAll(fs: FileSystem, m: Mount) returns (result: int)
    requires fs.root.Dir?
    modifies fs
    ensures (forall i :: 0 <= i < 4 ==> PathLen(m.len, [PREPARED[i]]) < m.cap) ==>
              result == if Formattable(old(fs.root)) then 0 else -ENOTDIR
    ensures result == 0 ==> Formattable(old(fs.root)) && fs.root == FourPrepared(old(fs.root))
  {
    ghost var start := fs.root;
    NamesAre();
    for i := 0 to 4
      invariant SameFiles(start, fs.root)
      invariant forall k :: 0 <= k < i ==> !IsFile(start, PREPARED[k])
      invariant i == 0 ==> fs.root == start
      invariant i == 1 ==> fs.root == Ensured(start, "apps")
      invariant i == 2 ==> fs.root == Ensured(Ensured(start, "apps"), "state")
      invariant i == 3 ==> fs.root == Ensured(Ensured(Ensured(start, "apps"), "state"), "tmp")
      invariant i == 4 ==> fs.root == FourPrepared(start)
    {
      if PathLen(m.len, [PREPARED[i]]) >= m.cap {
        return -ENAMETOOLONG;
      }
      EnsuredKeeps(fs.root, PREPARED[i]);
      result := EnsureDirectory(fs, PREPARED[i]);
      if result != 0 {
        return;
      }
    }
    result := 0;
  }

  /** The walk succeeds exactly when no file is in the place of one of the four directories. */
  method FormatByDeleteWalk(fs: FileSystem, m: Mount) returns (result: int)
    requires fs.root.Dir?
    modifies fs
    ensures AllPathsFit(old(fs.root), m) ==> result == if Formattable(old(fs.root)) then 0 else -ENOTDIR
    ensures result == 0 ==> Formattable(old(fs.root)) && fs.root == Formatted(old(fs.root))
  {
    ghost var start := fs.root;
    NamesAre();
    ghost var a := ClearedName(start, "apps");
    ClearedKeeps(start, "apps");
    ghost var b := ClearedName(a, "state");
    ClearedKeeps(a, "state");
    ClearedKeeps(b, "tmp");
    ClearedAt(start, "apps", "state");
    ClearedAt(start, "apps", "tmp");
    ClearedAt(a, "state", "tmp");
    result := ClearByWalk(fs, m, "apps");
    if result != 0 {
      return;
    }
    result := ClearByWalk(fs, m, "state");
    if result != 0 {
      return;
    }
    result := ClearByWalk(fs, m, "tmp");
    if result != 0 {
      return;
    }
    result := PrepareAll(fs, m);
  }

  // ---------------------------------------------------------------- the job, step by step

  /** Phases already passed have done their work. */
  predicate Progressed(job: Job, root: Node)
  {
    && job.phase <= 7
    && (job.active ==>
          && (forall i :: 0 <= i < 3 && i < job.phase ==> Children(root, DELETED[i]) == [])
          && (forall i :: 0 <= i < 4 && i + 3 < job.phase ==> Exists(root, PREPARED[i])))
  }

  function PhaseOf(job: Job): nat
  {
    if job.active then job.phase else 0
  }

  function Below(root: Node, i: nat): nat
    requires i < 3
  {
    Count(Children(root, DELETED[i]))
  }

  /** How many steps are left until the job says it is done, that last step included. */
  function StepsLeft(job: Job, root: Node): nat
    requires job.phase <= 7
  {
    var phase := PhaseOf(job);
    if phase == 0 then Below(root, 0) + 1 + Below(root, 1) + 1 + Below(root, 2) + 1 + 5
    else if phase == 1 then Below(root, 1) + 1 + Below(root, 2) + 1 + 5
    else if phase == 2 then Below(root, 2) + 1 + 5
    else 8 - phase
  }

  /** Deleting below one name leaves the others alone. */
  lemma DeleteInAt(root: Node, name: string, other: string)
    requires root.Dir? && Children(root, name) != []
    ensures DeleteIn(root, name).Dir?
    ensures Lookup(DeleteIn(root, name), [other]) ==
            if other == name then Some(Dir(DeleteOne(Children(root, name)))) else Lookup(root, [other])
  {
    PutLeavesOthers(root, name, Dir(DeleteOne(Children(root, name))), other);
  }

  lemma DeleteInKeeps(root: Node, i: nat)
    requires root.Dir? && i < 3 && Children(root, DELETED[i]) != []
    ensures SameFiles(root, DeleteIn(root, DELETED[i]))
    ensures forall k | 0 <= k < 3 :: Children(DeleteIn(root, DELETED[i]), DELETED[k]) ==
                                      if k == i then DeleteOne(Children(root, DELETED[i]))
                                      else Children(root, DELETED[k])
  {
    NamesAre();
    DeleteInAt(root, DELETED[i], "apps");
    DeleteInAt(root, DELETED[i], "state");
    DeleteInAt(root, DELETED[i], "tmp");
    DeleteInAt(root, DELETED[i], "system");
  }

  lemma EnsuredChildren(root: Node, name: string)
    requires root.Dir?
    ensures forall k :: 0 <= k < 3 ==> Children(Ensured(root, name), DELETED[k]) == Children(root, DELETED[k])
    ensures forall k :: 0 <= k < 4 ==>
              (Exists(Ensured(root, name), PREPARED[k]) <==> Exists(root, PREPARED[k]) || PREPARED[k] == name)
  {
    NamesAre();
    EnsuredLeavesOthers(root, name, "apps");
    EnsuredLeavesOthers(root, name, "state");
    EnsuredLeavesOthers(root, name, "tmp");
    EnsuredLeavesOthers(root, name, "system");
  }

  /** `next` is the outcome of a step that brings the job one step closer, or reports that it is done. */
  predicate Closer(job: Job, root: Node, next: (Job, Node, bool))
    requires job.phase <= 7
  {
    && SameFiles(root, next.1)
    && (next.2 <==> StepsLeft(job, root) == 1)
    && (!next.2 ==> Progressed(next.0, next.1) && StepsLeft(next.0, next.1) == StepsLeft(job, root) - 1)
  }

  lemma DeleteStepProgresses(job: Job, root: Node)
    requires root.Dir? && Progressed(job, root) && PhaseOf(job) < 3
    requires Children(root, DELETED[PhaseOf(job)]) != []
    ensures Closer(job, root, Step(job, root))
  {
    var phase := PhaseOf(job);
    var after := DeleteIn(root, DELETED[phase]);
    DeleteInKeeps(root, phase);
    DeleteOneCounts(Children(root, DELETED[phase]));
    assert Below(after, phase) == Below(root, phase) - 1;
    assert phase < 1 ==> Below(after, 1) == Below(root, 1);
    assert phase < 2 ==> Below(after, 2) == Below(root, 2);
  }

  lemma EmptyStepProgresses(job: Job, root: Node)
    requires root.Dir? && Progressed(job, root) && PhaseOf(job) < 3
    requires Children(root, DELETED[PhaseOf(job)]) == []
    ensures Closer(job, root, Step(job, root))
  {
    assert Count([]) == 0;
    assert Below(root, PhaseOf(job)) == 0;
  }

  lemma PrepareStepProgresses(job: Job, root: Node)
    requires root.Dir? && Progressed(job, root) && 3 <= PhaseOf(job) < 7
    ensures Closer(job, root, Step(job, root))
  {
    EnsuredKeeps(root, PREPARED[PhaseOf(job) - 3]);
    EnsuredChildren(root, PREPARED[PhaseOf(job) - 3]);
  }

  /** Every step is one step closer, and the last one says so. */
  lemma StepProgresses(job: Job, root: Node)
    requires root.Dir? && Progressed(job, root)
    ensures Closer(job, root, Step(job, root))
  {
    var phase := PhaseOf(job);
    if phase < 3 {
      if Children(root, DELETED[phase]) != [] {
        DeleteStepProgresses(job, root);
      } else {
        EmptyStepProgresses(job, root);
      }
    } else if phase < 7 {
      PrepareStepProgresses(job, root);
    }
  }

  lemma ClearingNothing(root: Node, name: string)
    requires Formattable(root) && Children(root, name) == [] && name in DELETED
    ensures ClearedName(root, name) == root
  {
    if Exists(root, name) && Lookup(root, [name]).value.Dir? {
      PutSame(root, [name]);
    }
  }

  /** A step does not change what formatting will leave. */
  lemma StepKeepsResult(job: Job, root: Node)
    requires Formattable(root) && Progressed(job, root)
    ensures Formattable(Step(job, root).1)
    ensures Formatted(Step(job, root).1) == Formatted(root)
  {
    var phase := PhaseOf(job);
    var after := Step(job, root).1;
    NamesAre();
    StepProgresses(job, root);
    if phase < 3 && Children(root, DELETED[phase]) != [] {
      var name := DELETED[phase];
      DeleteInKeeps(root, phase);
      ClearedAfterDelete(root, name);
      if phase >= 1 {
        ClearingNothing(root, "apps");
        ClearingNothing(after, "apps");
      }
      if phase >= 2 {
        ClearingNothing(root, "state");
        ClearingNothing(after, "state");
      }
    } else if 3 <= phase < 7 {
      EnsuredChildren(root, PREPARED[phase - 3]);
      ClearingNothing(root, "apps");
      ClearingNothing(after, "apps");
      ClearingNothing(root, "state");
      ClearingNothing(after, "state");
      ClearingNothing(root, "tmp");
      ClearingNothing(after, "tmp");
      PreparedStep(root, phase - 3);
    }
  }

  lemma ClearedAfterDelete(root: Node, name: string)
    requires root.Dir? && Children(root, name) != []
    ensures ClearedName(DeleteIn(root, name), name) == ClearedName(root, name)
  {
    DeleteInAt(root, name, name);
    PutTwice(root, [name], Dir(DeleteOne(Children(root, name))), Dir([]));
  }

  lemma PreparedStep(root: Node, i: nat)
    requires Formattable(root) && i < 4
    requires forall k :: 0 <= k < i ==> Exists(root, PREPARED[k])
    ensures FourPrepared(Ensured(root, PREPARED[i])) == FourPrepared(root)
  {
    NamesAre();
    EnsuredChildren(root, PREPARED[i]);
  }

  /** When the job is done, the file system is the formatted one. */
  lemma DoneIsFormatted(job: Job, root: Node)
    requires Formattable(root) && Progressed(job, root) && Step(job, root).2
    ensures root == Formatted(root)
  {
    NamesAre();
    ClearingNothing(root, "apps");
    ClearingNothing(root, "state");
    ClearingNothing(root, "tmp");
  }

  lemma {:induction false} DeleteOneFits(entries: seq<Entry>, len: nat, cap: nat)
    requires entries != [] && PathsFit(entries, len, cap)
    ensures PathsFit(DeleteOne(entries), len, cap)
    decreases entries
  {
    var first, rest := entries[0], entries[1..];
    if first.node.Dir? && first.node.entries != [] {
      assert first.node < first;
      DeleteOneFits(first.node.entries, len + 1 + |first.name|, cap);
      assert DeleteOne(entries)[1..] == rest;
    }
  }

  lemma StepKeepsFit(job: Job, root: Node, m: Mount)
    requires root.Dir? && Progressed(job, root) && AllPathsFit(root, m)
    ensures AllPathsFit(Step(job, root).1, m)
  {
    var phase := PhaseOf(job);
    NamesAre();
    if phase < 3 {
      if Children(root, DELETED[phase]) != [] {
        DeleteInKeeps(root, phase);
        DeleteOneFits(Children(root, DELETED[phase]), PathLen(m.len, [DELETED[phase]]), m.cap);
      }
    } else if phase < 7 {
      EnsuredChildren(root, PREPARED[phase - 3]);
    }
  }

  /** Names of passed phases are not files. */
  predicate PassedFiles(phase: nat, root: Node)
  {
    && (forall i :: 0 <= i < 3 && i < phase ==> !IsFile(root, DELETED[i]))
    && (forall i :: 0 <= i < 4 && i + 3 < phase ==> !IsFile(root, PREPARED[i]))
  }

  lemma StepPassesFiles(job: Job, root: Node)
    requires root.Dir? && Progressed(job, root) && PassedFiles(PhaseOf(job), root) && !Blocked(job, root)
    ensures Step(job, root).2 ==> Formattable(root)
    ensures !Step(job, root).2 ==> PassedFiles(PhaseOf(Step(job, root).0), Step(job, root).1)
  {
    NamesAre();
    StepProgresses(job, root);
  }

  /**
   * Driving a fresh job until it reports done or fails: it is done exactly when no file is in the place of
   * one of the four directories, after one step per node below the three directories plus eight, and in the
   * file system the recursive walk produces.
   */
  method RunJob(fs: FileSystem, m: Mount) returns (steps: nat, result: int)
    requires fs.root.Dir? && AllPathsFit(fs.root, m)
    modifies fs
    ensures result == if Formattable(old(fs.root)) then 0 else -ENOTDIR
    ensures result == 0 ==> steps == Below(old(fs.root), 0) + Below(old(fs.root), 1) + Below(old(fs.root), 2) + 8
    ensures result == 0 ==> fs.root == Formatted(old(fs.root))
  {
    var job := new FormatJob();
    steps, result := 0, 0;
    var done := false;
    ghost var start, left := fs.root, StepsLeft(job.Value(), fs.root);
    while !done
      invariant SameFiles(start, fs.root) && AllPathsFit(fs.root, m)
      invariant Formattable(start) ==> Formatted(fs.root) == Formatted(start)
      invariant done ==> Formattable(start) && fs.root == Formatted(start) && steps == left
      invariant !done ==> Progressed(job.Value(), fs.root) && StepsLeft(job.Value(), fs.root) == left - steps > 0
      invariant !done ==> PassedFiles(PhaseOf(job.Value()), fs.root)
      decreases left - steps, !done
    {
      ghost var value, root := job.Value(), fs.root;
      StepProgresses(value, root);
      StepKeepsFit(value, root, m);
      if Formattable(root) {
        StepKeepsResult(value, root);
      }
      if !Blocked(value, root) {
        StepPassesFiles(value, root);
      }
      AnswerWhenFitting(value, root, m);
      result, done := job.Advance(fs, m);
      if result != 0 {
        BlockedNotFormattable(value, root);
        return;
      }
      if done {
        DoneIsFormatted(value, root);
      }
      steps := steps + 1;
    }
  }

  lemma BlockedNotFormattable(job: Job, root: Node)
    requires Blocked(job, root)
    ensures !Formattable(root)
  {
    NamesAre();
  }
}
