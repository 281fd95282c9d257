/**
 * Formatting the store: a resumable job that deletes one node a step, and the recursive walk that
 * deletes everything at once. Both end in the same file system.
 */
module StorageFormat {
  import opened FileTree

  // ---------------------------------------------------------------- deleting one node

  /** Descend along first entries and delete the leaf at the end. */
  function DeleteOne(entries: seq<Entry>): (r: seq<Entry>)
    requires entries != []
    decreases entries
  {
    var first, rest := entries[0], entries[1..];
    if first.node.Dir? && first.node.entries != [] then
      assert first.node < first;
      [Entry(first.name, Dir(DeleteOne(first.node.entries)))] + rest
    else rest
  }

  /** The number of files and directories below a directory. */
  function Count(entries: seq<Entry>): nat
    decreases entries
  {
    if entries == [] then 0
    else
      var first := entries[0];
      assert first.node < first;
      1 + (if first.node.Dir? then Count(first.node.entries) else 0) + Count(entries[1..])
  }

  lemma CountSplit(first: Entry, rest: seq<Entry>)
    ensures Count([first] + rest) == 1 + (if first.node.Dir? then Count(first.node.entries) else 0) + Count(rest)
  {
    assert ([first] + rest)[1..] == rest;
  }

  /** Exactly one node goes. */
  lemma {:induction false} DeleteOneCounts(entries: seq<Entry>)
    requires entries != []
    ensures Count(DeleteOne(entries)) == Count(entries) - 1
    decreases entries
  {
    var first, rest := entries[0], entries[1..];
    if first.node.Dir? && first.node.entries != [] {
      assert first.node < first;
      DeleteOneCounts(first.node.entries);
      CountSplit(Entry(first.name, Dir(DeleteOne(first.node.entries))), rest);
    }
  }

  /** The path of the leaf that goes, from the directory. */
  function DoomedPath(entries: seq<Entry>): (path: Path)
    requires entries != []
    ensures path != []
    decreases entries
  {
    var first := entries[0];
    if first.node.Dir? && first.node.entries != [] then
      assert first.node < first;
      [first.name] + DoomedPath(first.node.entries)
    else [first.name]
  }

  /** What goes is a leaf, a file or an empty directory, and nothing else changes. */
  lemma {:induction false} DeleteOneRemovesLeaf(entries: seq<Entry>)
    requires entries != []
    ensures var path, d := DoomedPath(entries), Dir(entries);
            && Lookup(d, path).Some?
            && (Lookup(d, path).value.Dir? ==> Lookup(d, path).value.entries == [])
            && Remove(d, path) == Dir(DeleteOne(entries))
    decreases entries
  {
    var first, rest := entries[0], entries[1..];
    var path := DoomedPath(entries);
    if first.node.Dir? && first.node.entries != [] {
      assert first.node < first;
      var inner := DoomedPath(first.node.entries);
      DeleteOneRemovesLeaf(first.node.entries);
      assert path[1..] == inner && path[0] == first.name;
      assert entries[0 := Entry(first.name, Dir(DeleteOne(first.node.entries)))] == DeleteOne(entries);
    } else {
      assert path[1..] == [];
      assert entries[..0] + entries[1..] == rest;
    }
  }

  // ---------------------------------------------------------------- paths that fit

  function PathLen(mountLen: nat, path: Path): (n: nat)
    ensures n >= mountLen
  {
    if path == [] then mountLen else PathLen(mountLen, path[..|path| - 1]) + 1 + |path[|path| - 1]|
  }

  /** The text of a path: every name behind a slash. */
  function Rendered(mount: string, path: Path): string
  {
    if path == [] then mount else Rendered(mount, path[..|path| - 1]) + "/" + path[|path| - 1]
  }

  lemma {:induction false} PathLenExact(mount: string, path: Path)
    ensures PathLen(|mount|, path) == |Rendered(mount, path)|
  {
    if path != [] {
      PathLenExact(mount, path[..|path| - 1]);
    }
  }

  /** Every path below a directory whose own path has length `len` is shorter than the buffer. */
  ghost predicate PathsFit(entries: seq<Entry>, len: nat, cap: nat)
    decreases entries
  {
    entries != [] ==>
      var first := entries[0];
      assert first.node < first;
      && len + 1 + |first.name| < cap
      && (first.node.Dir? ==> PathsFit(first.node.entries, len + 1 + |first.name|, cap))
      && PathsFit(entries[1..], len, cap)
  }

  /** So are the paths along its first entries, down to the one that is deleted. */
  ghost predicate FirstFits(entries: seq<Entry>, len: nat, cap: nat)
    decreases entries
  {
    entries != [] ==>
      var first := entries[0];
      assert first.node < first;
      && len + 1 + |first.name| < cap
      && (first.node.Dir? ==> FirstFits(first.node.entries, len + 1 + |first.name|, cap))
  }

  lemma {:induction false} PathsFitFirst(entries: seq<Entry>, len: nat, cap: nat)
    requires PathsFit(entries, len, cap)
    ensures FirstFits(entries, len, cap)
    decreases entries
  {
    if entries != [] {
      var first := entries[0];
      assert first.node < first;
      if first.node.Dir? {
        PathsFitFirst(first.node.entries, len + 1 + |first.name|, cap);
      }
    }
  }

  /** That is: the text of the deleted node's path fits a buffer of `cap` bytes with its terminator. */
  lemma {:induction false} FirstFitsExact(mount: string, path: Path, entries: seq<Entry>, cap: nat)
    requires entries != []
    ensures FirstFits(entries, |Rendered(mount, path)|, cap) <==> |Rendered(mount, path + DoomedPath(entries))| < cap
    decreases entries
  {
    var first := entries[0];
    assert first.node < first;
    var child := path + [first.name];
    assert child[..|child| - 1] == path;
    if first.node.Dir? && first.node.entries != [] {
      FirstFitsExact(mount, child, first.node.entries, cap);
      assert path + DoomedPath(entries) == child + DoomedPath(first.node.entries);
      LongerBelow(mount, child, DoomedPath(first.node.entries));
    }
  }

  lemma {:induction false} LongerBelow(mount: string, path: Path, below: Path)
    ensures |Rendered(mount, path)| <= |Rendered(mount, path + below)|
    decreases |below|
  {
    if below == [] {
      assert path + below == path;
    } else {
      var n := |below| - 1;
      assert (path + below)[..|path + below| - 1] == path + below[..n];
      LongerBelow(mount, path, below[..n]);
    }
  }

  /** What a directory scan at `path` can come across. */
  ghost predicate Opens(root: Node, path: Path, es: seq<Entry>)
  {
    match Lookup(root, path)
    case Some(Dir(entries)) => es == entries
    case _ => es == []
  }

  function OpenResult(root: Node, path: Path): int
  {
    match Lookup(root, path)
    case Some(File(_)) => -ENOTDIR
    case _ => 0
  }

  /** The file system and the size of the path buffer. */
  datatype Mount = Mount(len: nat, cap: nat)

  /** Deleting one node below the first entry, or that entry, deletes one node below its directory. */
  lemma DeletedThroughFirst(root: Node, path: Path, first: Entry, rest: seq<Entry>)
    requires Lookup(root, path) == Some(Dir([first] + rest))
    ensures Lookup(root, path + [first.name]) == Some(first.node)
    ensures if first.node.Dir? && first.node.entries != []
            then Put(root, path + [first.name], Dir(DeleteOne(first.node.entries)))
                 == Put(root, path, Dir(DeleteOne([first] + rest)))
            else Remove(root, path + [first.name]) == Put(root, path, Dir(DeleteOne([first] + rest)))
  {
    FirstEntry(root, path, first, rest);
    assert ([first] + rest)[1..] == rest;
  }

  /**
   * Delete one node below the directory at `path`. The scan returns at the first entry it can delete
   * or delete from; without concurrent changes that is the first entry there is.
   */
  method DeleteOneUnder(fs: FileSystem, m: Mount, path: Path, ghost es: seq<Entry>)
    returns (result: int, deletedAny: bool, empty: bool)
    requires Opens(fs.root, path, es)
    modifies fs
    ensures result == if OpenResult(old(fs.root), path) != 0 then OpenResult(old(fs.root), path)
                      else if FirstFits(es, PathLen(m.len, path), m.cap) then 0 else -ENAMETOOLONG
    ensures result != 0 ==> fs.root == old(fs.root)
    ensures result == 0 ==> (deletedAny <==> es != []) && (empty <==> es == [])
    ensures result == 0 ==> fs.root == if es == [] then old(fs.root) else Put(old(fs.root), path, Dir(DeleteOne(es)))
    decreases es
  {
    deletedAny, empty := false, true;
    var entries;
    result, entries := fs.OpenDir(path);
    if result == -ENOENT {
      return 0, deletedAny, empty;
    }
    if result != 0 || entries == [] {
      return;
    }
    var entry := entries[0];
    empty := false;
    var child := path + [entry.name];
    assert child[..|child| - 1] == path;
    if PathLen(m.len, child) >= m.cap {
      return -ENAMETOOLONG, false, false;
    }
    ghost var rest := es[1..];
    assert es == [entry] + rest;
    DeletedThroughFirst(fs.root, path, entry, rest);
    if entry.node.Dir? {
      assert entry.node < entry;
      var childDeleted, childEmpty;
      result, childDeleted, childEmpty := DeleteOneUnder(fs, m, child, entry.node.entries);
      if result != 0 {
        return;
      }
      if childDeleted {
        return 0, true, false;
      }
    }
    result := fs.Unlink(child);
    deletedAny := true;
  }

  // ---------------------------------------------------------------- deleting everything

  /** The tree with the directory at `path`, if there is one, emptied. */
  function Cleared(root: Node, path: Path): Node
  {
    if Lookup(root, path).Some? && Lookup(root, path).value.Dir? then Put(root, path, Dir([])) else root
  }

  ghost predicate EntryFits(entry: Entry, len: nat, cap: nat)
  {
    && len + 1 + |entry.name| < cap
    && (entry.node.Dir? ==> PathsFit(entry.node.entries, len + 1 + |entry.name|, cap))
  }

  /** Delete the first entry that is left in the directory at `path`, with everything below it. */
  method DeleteEntry(fs: FileSystem, m: Mount, path: Path, entry: Entry, ghost rest: seq<Entry>)
    returns (result: int)
    requires Lookup(fs.root, path) == Some(Dir([entry] + rest))
    modifies fs
    ensures result == if EntryFits(entry, PathLen(m.len, path), m.cap) then 0 else -ENAMETOOLONG
    ensures result == 0 ==> fs.root == Put(old(fs.root), path, Dir(rest))
    decreases entry, 0
  {
    var child := path + [entry.name];
    assert child[..|child| - 1] == path;
    if PathLen(m.len, child) >= m.cap {
      return -ENAMETOOLONG;
    }
    FirstEntry(fs.root, path, entry, rest);
    if entry.node.Dir? {
      assert entry.node < entry;
      DirectoryEmptied(fs.root, path, entry, rest);
      var any;
      result, any := DeleteFilesUnder(fs, m, child, entry.node.entries);
      if result != 0 {
        return;
      }
    }
    result := fs.Unlink(child);
  }

  /** Delete everything below the directory at `path`, depth first. */
  method DeleteFilesUnder(fs: FileSystem, m: Mount, path: Path, ghost es: seq<Entry>)
    returns (result: int, deletedAny: bool)
    requires Opens(fs.root, path, es)
    modifies fs
    ensures result == if OpenResult(old(fs.root), path) != 0 then OpenResult(old(fs.root), path)
                      else if PathsFit(es, PathLen(m.len, path), m.cap) then 0 else -ENAMETOOLONG
    ensures result == 0 ==> (deletedAny <==> es != [])
    ensures result == 0 ==> fs.root == Cleared(old(fs.root), path)
    decreases es, 0
  {
    deletedAny := false;
    var entries;
    result, entries := fs.OpenDir(path);
    if result == -ENOENT {
      return 0, deletedAny;
    }
    if result != 0 {
      return;
    }
    PutSame(fs.root, path);
    assert es[0..] == es;
    var i := 0;
    while i < |entries|
      invariant i <= |entries| && result == 0 && entries == es
      invariant deletedAny <==> i > 0
      invariant fs.root == Put(old(fs.root), path, Dir(es[i..]))
      invariant PathsFit(es, PathLen(m.len, path), m.cap) <==> PathsFit(es[i..], PathLen(m.len, path), m.cap)
    {
      ghost var left, rest := es[i..], es[i + 1..];
      assert left == [entries[i]] + rest && left[1..] == rest;
      LookupPut(old(fs.root), path, Dir(left));
      PutTwice(old(fs.root), path, Dir(left), Dir(rest));
      result := DeleteEntry(fs, m, path, entries[i], rest);
      if result != 0 {
        return;
      }
      deletedAny := true;
      i := i + 1;
    }
    assert es[|es|..] == [];
  }

  /** Unlinking the emptied first entry is dropping it. */
  lemma DirectoryEmptied(before: Node, path: Path, entry: Entry, rest: seq<Entry>)
    requires Lookup(before, path) == Some(Dir([entry] + rest))
    ensures Lookup(before, path + [entry.name]).Some?
    ensures var emptied := Put(before, path + [entry.name], Dir([]));
            && Lookup(emptied, path + [entry.name]) == Some(Dir([]))
            && Remove(emptied, path + [entry.name]) == Put(before, path, Dir(rest))
  {
    var child := Entry(entry.name, Dir([]));
    FirstEntry(before, path, entry, rest);
    LookupPut(before, path, Dir([child] + rest));
    FirstEntry(Put(before, path, Dir([child] + rest)), path, child, rest);
    PutTwice(before, path, Dir([child] + rest), Dir(rest));
  }

  // ---------------------------------------------------------------- the job

  const DELETED: seq<string> := ["apps", "state", "tmp"]
  const PREPARED: seq<string> := ["apps", "state", "tmp", "system"]

  /** Phases 0 to 2 delete, 3 to 6 prepare, 7 is done. */
  datatype Job = Job(active: bool, phase: nat)

  function Children(root: Node, name: string): seq<Entry>
  {
    match Lookup(root, [name])
    case Some(Dir(es)) => es
    case _ => []
  }

  predicate Exists(root: Node, name: string)
  {
    Lookup(root, [name]).Some?
  }

  predicate IsFile(root: Node, name: string)
  {
    Exists(root, name) && Lookup(root, [name]).value.File?
  }

  /** None of the four names is taken by a file. */
  predicate Formattable(root: Node)
  {
    root.Dir? && forall i :: 0 <= i < 4 ==> !IsFile(root, PREPARED[i])
  }

  function DeleteIn(root: Node, name: string): Node
    requires Children(root, name) != []
  {
    Put(root, [name], Dir(DeleteOne(Children(root, name))))
  }

  function Ensured(root: Node, name: string): Node
    requires root.Dir?
  {
    if Exists(root, name) then root else Dir(root.entries + [Entry(name, Dir([]))])
  }

  /** The name a file in whose place stops the job. */
  predicate Blocked(job: Job, root: Node)
  {
    var phase := if job.active then job.phase else 0;
    (phase < 3 && IsFile(root, DELETED[phase])) || (3 <= phase < 7 && IsFile(root, PREPARED[phase - 3]))
  }

  /** One step of a job that is not blocked; the last component says whether the job is done. */
  function Step(job: Job, root: Node): (Job, Node, bool)
    requires root.Dir?
  {
    var phase := if job.active then job.phase else 0;
    if phase < 3 then
      if Children(root, DELETED[phase]) != [] then (Job(true, phase), DeleteIn(root, DELETED[phase]), false)
      else (Job(true, phase + 1), root, false)
    else if phase < 7 then (Job(true, phase + 1), Ensured(root, PREPARED[phase - 3]), false)
    else (Job(false, 7), root, true)
  }

  ghost predicate AllPathsFit(root: Node, m: Mount)
  {
    && (forall i :: 0 <= i < 4 ==> PathLen(m.len, [PREPARED[i]]) < m.cap)
    && (forall i :: 0 <= i < 3 ==> PathsFit(Children(root, DELETED[i]), PathLen(m.len, [DELETED[i]]), m.cap))
  }

  /** The directory of a phase that is not the last. */
  function NameOf(phase: nat): string
    requires phase < 7
  {
    if phase < 3 then DELETED[phase] else PREPARED[phase - 3]
  }

  /** What a step of the job reports: the directory's own path is judged first, then what is in its place. */
  ghost function Answer(job: Job, root: Node, m: Mount): int
    requires root.Dir?
  {
    var phase := if job.active then job.phase else 0;
    if phase >= 7 then 0
    else if PathLen(m.len, [NameOf(phase)]) >= m.cap then -ENAMETOOLONG
    else if Blocked(job, root) then -ENOTDIR
    else if phase < 3 && !FirstFits(Children(root, NameOf(phase)), PathLen(m.len, [NameOf(phase)]), m.cap) then
      -ENAMETOOLONG
    else 0
  }

  /** When every path fits, only a file in a directory's place stops the job. */
  lemma AnswerWhenFitting(job: Job, root: Node, m: Mount)
    requires root.Dir? && AllPathsFit(root, m)
    ensures Answer(job, root, m) == if Blocked(job, root) then -ENOTDIR else 0
  {
    var phase := if job.active then job.phase else 0;
    if phase < 3 {
      assert DELETED[phase] == PREPARED[phase];
      PathsFitFirst(Children(root, DELETED[phase]), PathLen(m.len, [DELETED[phase]]), m.cap);
    }
  }

  /** A directory whose path does not fit its buffer, or in whose place there is a file, is not worked on. */
  lemma RefusedExactly(mount: string, job: Job, root: Node, m: Mount)
    requires root.Dir? && m.len == |mount| && (if job.active then job.phase else 0) < 7
    ensures var name := NameOf(if job.active then job.phase else 0);
            && (|Rendered(mount, [name])| >= m.cap ==> Answer(job, root, m) == -36)
            && (|Rendered(mount, [name])| < m.cap ==> (IsFile(root, name) <==> Answer(job, root, m) == -20))
  {
    PathLenExact(mount, [NameOf(if job.active then job.phase else 0)]);
  }

  /** A job that is done is over; the next one starts from the beginning. */
  lemma DoneIsOver(job: Job, root: Node)
    requires root.Dir? && Step(job, root).2
    ensures !Step(job, root).0.active && Step(job, root).1 == root
    ensures Step(Step(job, root).0, root) == Step(Job(true, 0), root)
  {
  }

  method EnsureDirectory(fs: FileSystem, name: string) returns (result: int)
    requires fs.root.Dir?
    modifies fs
    ensures result == if IsFile(old(fs.root), name) then -ENOTDIR else 0
    ensures fs.root == Ensured(old(fs.root), name)
  {
    var found := Lookup(fs.root, [name]);
    if found.Some? {
      return if found.value.Dir? then 0 else -ENOTDIR;
    }
    LookupName(fs.root, name);
    result := fs.Mkdir(name);
  }

  class FormatJob {
    var active: bool
    var phase: nat

    function Value(): Job
      reads this
    {
      Job(active, phase)
    }

    constructor ()
      ensures Value() == Job(false, 0)
    {
      active, phase := false, 0;
    }

    method Advance(fs: FileSystem, m: Mount) returns (result: int, done: bool)
      requires fs.root.Dir?
      modifies this, fs
      ensures result == Answer(old(Value()), old(fs.root), m)
      ensures result == 0 ==> !Blocked(old(Value()), old(fs.root))
      ensures result == 0 ==> (Value(), fs.root, done) == Step(old(Value()), old(fs.root))
      ensures result != 0 ==> !done && fs.root == old(fs.root)
      ensures result != 0 ==> Value() == Job(true, if old(active) then old(phase) else 0)
    {
      done := false;
      if !active {
        active, phase := true, 0;
      }
      if phase < 3 {
        var name := DELETED[phase];
        assert name == PREPARED[phase];
        if PathLen(m.len, [name]) >= m.cap {
          return -ENAMETOOLONG, done;
        }
        var deletedAny, empty;
        result, deletedAny, empty := DeleteOneUnder(fs, m, [name], Children(fs.root, name));
        if result != 0 {
          return;
        }
        if !deletedAny {
          phase := phase + 1;
        }
        return;
      }
      if phase < 7 {
        var name := PREPARED[phase - 3];
        if PathLen(m.len, [name]) >= m.cap {
          return -ENAMETOOLONG, done;
        }
        result := EnsureDirectory(fs, name);
        if result != 0 {
          return;
        }
        phase := phase + 1;
        return;
      }
      active, phase := false, 7;
      return 0, true;
    }
  }

  lemma LookupName(root: Node, name: string)
    requires root.Dir?
    ensures Exists(root, name) <==> Find(root.entries, name) < |root.entries|
  {
    assert [name][1..] == [];
    var i := Find(root.entries, name);
    if i < |root.entries| {
      assert Lookup(root.entries[i].node, []).Some?;
    }
  }
}
