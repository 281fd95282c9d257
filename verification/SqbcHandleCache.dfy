/**
 * The one program file kept open between reads. A storage object that reads while another one, or an
 * older session of itself, holds the file has the file closed and its own opened.
 */
module SqbcHandleCache {
  import opened Bytes

  datatype Option<+T> = None | Some(value: T)

  const EIO := 5
  const EINVAL := 22
  const ENOENT := 2
  const ENAMETOOLONG := 36

  /** Largest value of the session counter, a 32-bit size. */
  const SIZE_MAX := 0xFFFF_FFFF

  type Path = nat

  datatype Storage = Storage(path: Option<Path>, session: nat, readCount: nat, totalReadLen: nat)

  /** A fresh storage has no session until a backend is made for it. */
  const BLANK := Storage(None, 0, 0, 0)

  /** An open file reads the bytes it had when it was opened. */
  datatype Handle = Handle(path: Path, content: seq<byte>)

  /** Who holds the open file, and under which session. */
  datatype Owner = Owner(storage: nat, session: nat)

  /** `opens` and `closes` count over the whole run, `issued` the session numbers given out. */
  datatype State = State(
    storages: seq<Storage>, owner: Option<Owner>, handle: Option<Handle>, openCount: nat, maxReadLen: nat,
    nextSession: nat, files: map<Path, seq<byte>>, opens: nat, closes: nat, issued: nat)

  /** Zero, or a negative error number. */
  type Result = x: int | x <= 0

  /** What the file system answers; a read delivers at most `room` bytes. */
  datatype Io = Io(close: Result, open: Result, seek: Result, read: Result, room: nat)

  predicate Fine(io: Io, len: nat)
  {
    io.close == io.open == io.seek == io.read == 0 && len <= io.room
  }

  // ---------------------------------------------------------------- the calls on values

  predicate IsOpen(s: State, i: nat)
    requires i < |s.storages|
  {
    s.owner == Some(Owner(i, s.storages[i].session))
  }

  function CloseOpenFile(s: State): State
  {
    s.(owner := None, handle := None, closes := s.closes + 1)
  }

  function Release(s: State, i: nat, io: Io): (Result, State)
    requires i < |s.storages|
  {
    if IsOpen(s, i) then (io.close, CloseOpenFile(s)) else (0, s)
  }

  /** Point a storage at an app: release, blank, fill in the path, which may not fit. */
  function Prepare(s: State, i: nat, path: Option<Path>, io: Io): (Result, State)
    requires i < |s.storages|
  {
    var r := Release(s, i, io);
    if r.0 != 0 then r
    else (if path.Some? then 0 else -ENAMETOOLONG, Repoint(r.1, i, path))
  }

  /** The temporary run's storage is blanked without a release. */
  function Repoint(s: State, i: nat, path: Option<Path>): State
    requires i < |s.storages|
  {
    s.(storages := s.storages[i := BLANK.(path := path)])
  }

  /** A backend for a storage without a session gives it the next number; zero is skipped on overflow. */
  function MakeBackend(s: State, i: nat): State
    requires i < |s.storages|
  {
    if s.storages[i].session != 0 then s
    else s.(storages := s.storages[i := s.storages[i].(session := s.nextSession)],
            nextSession := if s.nextSession == SIZE_MAX then 1 else s.nextSession + 1, issued := s.issued + 1)
  }

  function OpenFor(s: State, i: nat, io: Io): (Result, State)
    requires i < |s.storages| && s.storages[i].path.Some?
  {
    var path := s.storages[i].path.value;
    if io.open != 0 then (io.open, s)
    else if path !in s.files then (-ENOENT, s)
    else (0, s.(owner := Some(Owner(i, s.storages[i].session)), handle := Some(Handle(path, s.files[path])),
                openCount := s.openCount + 1, maxReadLen := 0, opens := s.opens + 1))
  }

  /** What is left of the file after `off`. */
  function Available(content: seq<byte>, off: nat): nat
  {
    if off <= |content| then |content| - off else 0
  }

  datatype Outcome = Done(bytes: seq<byte>) | Failed(error: int)

  function Fetch(s: State, i: nat, off: nat, len: nat, io: Io): (Outcome, State)
    requires i < |s.storages| && IsOpen(s, i) && s.handle.Some?
  {
    var content := s.handle.value.content;
    if io.seek != 0 then (Failed(io.seek), CloseOpenFile(s))
    else if io.read != 0 then (Failed(io.read), CloseOpenFile(s))
    else if len > Available(content, off) || len > io.room then (Failed(-EIO), CloseOpenFile(s))
    else
      var st := s.storages[i];
      (Done(if len == 0 then [] else content[off..off + len]),
       s.(storages := s.storages[i := st.(readCount := st.readCount + 1, totalReadLen := st.totalReadLen + len)],
          maxReadLen := if len > s.maxReadLen then len else s.maxReadLen))
  }

  function Read(s: State, i: nat, off: nat, len: nat, io: Io): (Outcome, State)
    requires i < |s.storages| && (s.owner.Some? ==> s.handle.Some?)
  {
    if s.storages[i].path.None? then (Failed(-EINVAL), s)
    else if IsOpen(s, i) then Fetch(s, i, off, len, io)
    else
      var t := if s.owner.Some? then CloseOpenFile(s) else s;
      if s.owner.Some? && io.close != 0 then (Failed(io.close), t)
      else
        var o := OpenFor(t, i, io);
        if o.0 != 0 then (Failed(o.0), o.1) else Fetch(o.1, i, off, len, io)
  }

  // ---------------------------------------------------------------- the code

  class HandleCache {
    var storages: seq<Storage>
    var owner: Option<Owner>
    var handle: Option<Handle>
    var openCount: nat
    var maxReadLen: nat
    var nextSession: nat
    var files: map<Path, seq<byte>>
    ghost var opens: nat
    ghost var closes: nat
    ghost var issued: nat

    ghost function Value(): State
      reads this
    {
      State(storages, owner, handle, openCount, maxReadLen, nextSession, files, opens, closes, issued)
    }

    constructor (n: nat, files: map<Path, seq<byte>>)
      ensures Value() == Start(n, files)
    {
      storages := seq(n, _ => BLANK);
      owner, handle, openCount, maxReadLen, nextSession := None, None, 0, 0, 1;
      this.files := files;
      opens, closes, issued := 0, 0, 0;
    }

    method ReleaseOpenFile(io: Io) returns (result: Result)
      modifies this`owner, this`handle, this`closes
      ensures result == io.close && Value() == CloseOpenFile(old(Value()))
    {
      owner := None;
      handle := None;
      closes := closes + 1;
      result := io.close;
    }

    method ReleaseStorage(i: nat, io: Io) returns (result: Result)
      requires i < |storages|
      modifies this`owner, this`handle, this`closes
      ensures (result, Value()) == Release(old(Value()), i, io)
    {
      if owner.None? || owner.value.storage != i || owner.value.session != storages[i].session {
        return 0;
      }
      result := ReleaseOpenFile(io);
    }

    method PrepareStorage(i: nat, path: Option<Path>, io: Io) returns (result: Result)
      requires i < |storages|
      modifies this
      ensures (result, Value()) == Prepare(old(Value()), i, path, io)
    {
      result := ReleaseStorage(i, io);
      if result != 0 {
        return;
      }
      storages := storages[i := BLANK];
      if path.None? {
        return -ENAMETOOLONG;
      }
      storages := storages[i := storages[i].(path := path)];
      assert storages == old(storages)[i := BLANK.(path := path)];
    }

    method Backend(i: nat)
      requires i < |storages|
      modifies this
      ensures Value() == MakeBackend(old(Value()), i)
    {
      if storages[i].session == 0 {
        storages := storages[i := storages[i].(session := nextSession)];
        nextSession := if nextSession == SIZE_MAX then 0 else nextSession + 1;
        issued := issued + 1;
        if nextSession == 0 {
          nextSession := 1;
        }
      }
    }

    method ReadSqbc(i: nat, off: nat, len: nat, io: Io) returns (result: Outcome)
      requires i < |storages| && (owner.Some? ==> handle.Some?)
      modifies this
      ensures (result, Value()) == Read(old(Value()), i, off, len, io)
    {
      if storages[i].path.None? {
        return Failed(-EINVAL);
      }
      if owner.None? || owner.value.storage != i || owner.value.session != storages[i].session {
        if owner.Some? {
          var closed := ReleaseOpenFile(io);
          if closed != 0 {
            return Failed(closed);
          }
        }
        var path := storages[i].path.value;
        if io.open != 0 {
          return Failed(io.open);
        }
        if path !in files {
          return Failed(-ENOENT);
        }
        handle := Some(Handle(path, files[path]));
        opens := opens + 1;
        owner := Some(Owner(i, storages[i].session));
        openCount := openCount + 1;
        maxReadLen := 0;
      }
      result := SeekAndRead(i, off, len, io);
    }

    method SeekAndRead(i: nat, off: nat, len: nat, io: Io) returns (result: Outcome)
      requires i < |storages| && IsOpen(Value(), i) && handle.Some?
      modifies this
      ensures (result, Value()) == Fetch(old(Value()), i, off, len, io)
    {
      if io.seek != 0 {
        var _ := ReleaseStorage(i, io);
        return Failed(io.seek);
      }
      if io.read != 0 {
        var _ := ReleaseStorage(i, io);
        return Failed(io.read);
      }
      var content := handle.value.content;
      var got := if Available(content, off) < io.room then Available(content, off) else io.room;
      if got < len {
        var _ := ReleaseStorage(i, io);
        return Failed(-EIO);
      }
      result := Done(if len == 0 then [] else content[off..off + len]);
      var st := storages[i];
      storages := storages[i := st.(readCount := st.readCount + 1, totalReadLen := st.totalReadLen + len)];
      if len > maxReadLen {
        maxReadLen := len;
      }
    }
  }

  // ---------------------------------------------------------------- what every run keeps

  /** `ReplaceCall` is the rest of the firmware writing or removing a file. */
  datatype Call =
    | ReleaseCall(i: nat, io: Io)
    | PrepareCall(i: nat, path: Option<Path>, io: Io)
    | RepointCall(i: nat, path: Option<Path>)
    | BackendCall(i: nat)
    | ReadCall(i: nat, off: nat, len: nat, io: Io)
    | ReplaceCall(file: Path, content: Option<seq<byte>>)

  function Start(n: nat, files: map<Path, seq<byte>>): State
  {
    State(seq(n, _ => BLANK), None, None, 0, 0, 1, files, 0, 0, 0)
  }

  predicate Bookkeeping(s: State)
  {
    && (s.owner.Some? <==> s.handle.Some?)
    && s.opens == s.closes + (if s.owner.Some? then 1 else 0)
    && s.openCount == s.opens
  }

  function Apply(s: State, c: Call): State
    requires Bookkeeping(s)
  {
    if !c.ReplaceCall? && c.i >= |s.storages| then s else
    match c
    case ReleaseCall(i, io) => Release(s, i, io).1
    case PrepareCall(i, path, io) => Prepare(s, i, path, io).1
    case RepointCall(i, path) => Repoint(s, i, path)
    case BackendCall(i) => MakeBackend(s, i)
    case ReadCall(i, off, len, io) => Read(s, i, off, len, io).1
    case ReplaceCall(file, content) =>
      s.(files := if content.Some? then s.files[file := content.value] else s.files - {file})
  }

  /** At most one file is open at any time, whatever fails: opens and closes alternate. */
  lemma OneFileOpen(s: State, c: Call)
    requires Bookkeeping(s)
    ensures Bookkeeping(Apply(s, c)) && |Apply(s, c).storages| == |s.storages|
  {
  }

  /** A release lets go of what the storage holds under its session, and of nothing else. */
  lemma ReleaseOutcome(s: State, i: nat, io: Io)
    requires Bookkeeping(s) && i < |s.storages|
    ensures var (result, t) := Release(s, i, io);
            && t.owner != Some(Owner(i, s.storages[i].session)) && t.storages == s.storages && t.files == s.files
            && (s.owner == Some(Owner(i, s.storages[i].session)) ==> result == io.close && t.owner.None?)
            && (s.owner != Some(Owner(i, s.storages[i].session)) ==> result == 0 && t == s)
  {
  }

  /** A prepared storage starts over with its path, unless the release fails; a path that does not fit is an error. */
  lemma PrepareOutcome(s: State, i: nat, path: Option<Path>, io: Io)
    requires Bookkeeping(s) && i < |s.storages|
    ensures var (result, t) := Prepare(s, i, path, io);
            var released := s.owner != Some(Owner(i, s.storages[i].session)) || io.close == 0;
            && (!released ==> result == io.close && t.storages == s.storages)
            && (released ==>
                  && result == (if path.Some? then 0 else -36)
                  && t.storages == s.storages[i := Storage(path, 0, 0, 0)]
                  && (t.owner.Some? ==> t.owner == s.owner && t.owner != Some(Owner(i, s.storages[i].session))))
  {
  }

  function Run(n: nat, files: map<Path, seq<byte>>, calls: seq<Call>): (s: State)
    ensures Bookkeeping(s) && |s.storages| == n
  {
    if calls == [] then Start(n, files)
    else
      var before := Run(n, files, calls[..|calls| - 1]);
      OneFileOpen(before, calls[|calls| - 1]);
      Apply(before, calls[|calls| - 1])
  }

  /**
   * Callers read through a backend, an open file keeps its content, and a storage is not given the very
   * number under which its file of another path is still held.
   */
  predicate Legal(s: State, c: Call)
    requires Bookkeeping(s)
  {
    match c
    case ReadCall(i, _, _, _) => i < |s.storages| && s.storages[i].path.Some? ==> s.storages[i].session != 0
    case ReplaceCall(file, content) =>
      s.handle.Some? && s.handle.value.path == file ==> content == Some(s.handle.value.content)
    case BackendCall(i) =>
      i < |s.storages| && s.storages[i].session == 0 && s.owner == Some(Owner(i, s.nextSession)) ==>
        s.storages[i].path == Some(s.handle.value.path)
    case _ => true
  }

  ghost predicate AllLegal(n: nat, files: map<Path, seq<byte>>, calls: seq<Call>)
  {
    forall k :: 0 <= k < |calls| ==> Legal(Run(n, files, calls[..k]), calls[k])
  }

  /** The file held under a storage's current session is that storage's own file, as it is now. */
  predicate Fresh(s: State)
  {
    && Bookkeeping(s)
    && s.nextSession != 0
    && (s.owner.Some? ==>
          var o, h := s.owner.value, s.handle.value;
          && o.storage < |s.storages| && o.session != 0
          && h.path in s.files && s.files[h.path] == h.content
          && (s.storages[o.storage].session == o.session ==> s.storages[o.storage].path == Some(h.path)))
  }

  lemma StepKeepsFresh(s: State, c: Call)
    requires Fresh(s) && Legal(s, c)
    ensures Fresh(Apply(s, c))
  {
    match c {
      case ReadCall(i, off, len, io) =>
        if i < |s.storages| {
          ReadKeepsFresh(s, i, off, len, io);
        }
      case ReplaceCall(_, _) =>
      case _ =>
    }
  }

  lemma ReadKeepsFresh(s: State, i: nat, off: nat, len: nat, io: Io)
    requires Fresh(s) && i < |s.storages| && (s.storages[i].path.Some? ==> s.storages[i].session != 0)
    ensures Fresh(Read(s, i, off, len, io).1)
  {
  }

  /** Nothing weaker would do: a backend or a replacement that is not legal spoils the state. */
  lemma LegalIsExact(s: State, c: Call)
    requires Fresh(s) && (c.BackendCall? || c.ReplaceCall?)
    ensures Fresh(Apply(s, c)) <==> Legal(s, c)
  {
  }

  lemma {:induction false} RunsStayFresh(n: nat, files: map<Path, seq<byte>>, calls: seq<Call>)
    requires AllLegal(n, files, calls)
    ensures Fresh(Run(n, files, calls))
  {
    if calls != [] {
      var before := calls[..|calls| - 1];
      assert forall k :: 0 <= k < |before| ==> before[..k] == calls[..k];
      RunsStayFresh(n, files, before);
      StepKeepsFresh(Run(n, files, before), calls[|calls| - 1]);
    }
  }

  // ---------------------------------------------------------------- refinement of open, read, close

  /** What a reader without a cache does: open the storage's file, read the range, close. */
  function OpenReadClose(s: State, i: nat, off: nat, len: nat): Outcome
    requires i < |s.storages|
  {
    var path := s.storages[i].path;
    if path.None? then Failed(-EINVAL)
    else if path.value !in s.files then Failed(-ENOENT)
    else if len > Available(s.files[path.value], off) then Failed(-EIO)
    else Done(if len == 0 then [] else s.files[path.value][off..off + len])
  }

  /** The cache is invisible: every read that succeeds agrees, and without I/O errors so does every failure. */
  lemma CachedReadRefines(n: nat, files: map<Path, seq<byte>>, calls: seq<Call>, i: nat, off: nat, len: nat, io: Io)
    requires AllLegal(n, files, calls)
    requires i < n && Run(n, files, calls).storages[i].session != 0
    ensures var s := Run(n, files, calls);
            && (Read(s, i, off, len, io).0.Done? ==> Read(s, i, off, len, io).0 == OpenReadClose(s, i, off, len))
            && (Fine(io, len) ==> Read(s, i, off, len, io).0 == OpenReadClose(s, i, off, len))
  {
    RunsStayFresh(n, files, calls);
    FreshReadRefines(Run(n, files, calls), i, off, len, io);
  }

  lemma FreshReadRefines(s: State, i: nat, off: nat, len: nat, io: Io)
    requires Fresh(s) && i < |s.storages| && s.storages[i].session != 0
    ensures Read(s, i, off, len, io).0.Done? ==> Read(s, i, off, len, io).0 == OpenReadClose(s, i, off, len)
    ensures Fine(io, len) ==> Read(s, i, off, len, io).0 == OpenReadClose(s, i, off, len)
  {
  }

  /** A read under another number than the file is held under opens anew: whatever was replaced, it is right. */
  lemma ReopenedReadRefines(s: State, i: nat, off: nat, len: nat, io: Io)
    requires Bookkeeping(s) && i < |s.storages| && s.storages[i].session != 0
    requires s.owner != Some(Owner(i, s.storages[i].session))
    ensures Read(s, i, off, len, io).0.Done? ==> Read(s, i, off, len, io).0 == OpenReadClose(s, i, off, len)
    ensures Fine(io, len) ==> Read(s, i, off, len, io).0 == OpenReadClose(s, i, off, len)
  {
  }

  // ---------------------------------------------------------------- the callers there are

  /**
   * What the firmware's callers do: storage `temp` alone is blanked without a release, and only ever pointed at
   * one path; all others are released when they are prepared; a backend is made once the path is there. As in
   * every legal run, no file is replaced while it is open.
   */
  predicate ByCallers(s: State, c: Call, temp: nat, tempPath: Path)
    requires Bookkeeping(s)
  {
    match c
    case PrepareCall(i, _, _) => i != temp
    case RepointCall(i, path) => i == temp && (path.Some? ==> path.value == tempPath)
    case BackendCall(i) => i < |s.storages| ==> s.storages[i].path.Some?
    case _ => Legal(s, c)
  }

  ghost predicate AllByCallers(n: nat, files: map<Path, seq<byte>>, calls: seq<Call>, temp: nat, tempPath: Path)
  {
    forall k :: 0 <= k < |calls| ==> ByCallers(Run(n, files, calls[..k]), calls[k], temp, tempPath)
  }

  /** The file held is that of its storage, and only the blanked storage may have lost its number. */
  predicate HeldByCallers(s: State, temp: nat, tempPath: Path)
  {
    && Bookkeeping(s) && s.nextSession != 0
    && (temp < |s.storages| && s.storages[temp].path.Some? ==> s.storages[temp].path.value == tempPath)
    && (s.owner.Some? ==>
          var o, h := s.owner.value, s.handle.value;
          && o.storage < |s.storages| && o.session != 0
          && (s.storages[o.storage].path.Some? ==> s.storages[o.storage].path.value == h.path)
          && (o.storage == temp ==> h.path == tempPath)
          && (o.storage != temp ==> s.storages[o.storage].session == o.session))
  }

  lemma CallersKeepHeld(s: State, c: Call, temp: nat, tempPath: Path)
    requires HeldByCallers(s, temp, tempPath) && ByCallers(s, c, temp, tempPath)
    ensures Legal(s, c) && HeldByCallers(Apply(s, c), temp, tempPath)
  {
    match c {
      case ReadCall(i, off, len, io) => CallerReads(s, i, off, len, io, temp, tempPath);
      case _ =>
    }
  }

  lemma CallerReads(s: State, i: nat, off: nat, len: nat, io: Io, temp: nat, tempPath: Path)
    requires HeldByCallers(s, temp, tempPath) && Legal(s, ReadCall(i, off, len, io))
    ensures HeldByCallers(Apply(s, ReadCall(i, off, len, io)), temp, tempPath)
  {
  }

  /** Every run of the callers is legal, however often the numbers come round. */
  lemma {:induction false} CallersAreLegal(n: nat, files: map<Path, seq<byte>>, calls: seq<Call>, temp: nat,
                                           tempPath: Path)
    requires AllByCallers(n, files, calls, temp, tempPath)
    ensures AllLegal(n, files, calls) && HeldByCallers(Run(n, files, calls), temp, tempPath)
  {
    if calls != [] {
      var before, last := calls[..|calls| - 1], calls[|calls| - 1];
      ByCallersBefore(n, files, calls, temp, tempPath);
      CallersAreLegal(n, files, before, temp, tempPath);
      CallersKeepHeld(Run(n, files, before), last, temp, tempPath);
      LegalExtends(n, files, before, last);
      assert calls == before + [last];
    }
  }

  lemma ByCallersBefore(n: nat, files: map<Path, seq<byte>>, calls: seq<Call>, temp: nat, tempPath: Path)
    requires AllByCallers(n, files, calls, temp, tempPath) && calls != []
    ensures AllByCallers(n, files, calls[..|calls| - 1], temp, tempPath)
    ensures ByCallers(Run(n, files, calls[..|calls| - 1]), calls[|calls| - 1], temp, tempPath)
  {
    var before := calls[..|calls| - 1];
    forall k | 0 <= k < |before| ensures ByCallers(Run(n, files, before[..k]), before[k], temp, tempPath) {
      assert before[..k] == calls[..k];
    }
  }

  /** For the callers there are, the cache is invisible in every run. */
  lemma CallersReadTheirFile(n: nat, files: map<Path, seq<byte>>, calls: seq<Call>, temp: nat, tempPath: Path,
                             i: nat, off: nat, len: nat, io: Io)
    requires AllByCallers(n, files, calls, temp, tempPath)
    requires i < n && Run(n, files, calls).storages[i].session != 0
    ensures var s := Run(n, files, calls);
            && (Read(s, i, off, len, io).0.Done? ==> Read(s, i, off, len, io).0 == OpenReadClose(s, i, off, len))
            && (Fine(io, len) ==> Read(s, i, off, len, io).0 == OpenReadClose(s, i, off, len))
  {
    CallersAreLegal(n, files, calls, temp, tempPath);
    CachedReadRefines(n, files, calls, i, off, len, io);
  }

  /** After a failed read nothing is held for the storage, so the next one starts from a fresh open. */
  lemma FailureLetsGo(s: State, i: nat, off: nat, len: nat, io: Io)
    requires Fresh(s) && i < |s.storages| && Read(s, i, off, len, io).0.Failed?
    ensures s.storages[i].path.Some? ==> Read(s, i, off, len, io).1.owner.None?
    ensures Read(s, i, off, len, io).1.storages == s.storages
  {
  }

  /** What a read that succeeds counts: for the storage, and for the file since it was opened. */
  lemma ReadCounts(s: State, i: nat, off: nat, len: nat, io: Io)
    requires Bookkeeping(s) && i < |s.storages| && Read(s, i, off, len, io).0.Done?
    ensures var t := Read(s, i, off, len, io).1; var st := s.storages[i];
            && t.storages == s.storages[i := st.(readCount := st.readCount + 1, totalReadLen := st.totalReadLen + len)]
            && t.openCount == s.openCount + (if IsOpen(s, i) then 0 else 1)
            && t.maxReadLen == if IsOpen(s, i) && s.maxReadLen > len then s.maxReadLen else len
  {
  }

  /** Reads of one storage, one after another. */
  function Reads(s: State, i: nat, ranges: seq<(nat, nat)>, io: Io): (t: State)
    requires Bookkeeping(s) && i < |s.storages|
    ensures Bookkeeping(t) && |t.storages| == |s.storages|
    decreases |ranges|
  {
    if ranges == [] then s
    else
      OneFileOpen(s, ReadCall(i, ranges[0].0, ranges[0].1, io));
      Reads(Read(s, i, ranges[0].0, ranges[0].1, io).1, i, ranges[1..], io)
  }

  function TotalLen(ranges: seq<(nat, nat)>): nat
  {
    if ranges == [] then 0 else ranges[0].1 + TotalLen(ranges[1..])
  }

  /** However many reads one storage makes within its file, the file is opened once. */
  lemma {:induction false} ReadsShareOneOpen(s: State, i: nat, ranges: seq<(nat, nat)>, io: Io)
    requires Fresh(s) && i < |s.storages| && s.storages[i].session != 0
    requires s.storages[i].path.Some? && s.storages[i].path.value in s.files
    requires forall k :: 0 <= k < |ranges| ==>
               Fine(io, ranges[k].1) && ranges[k].1 <= Available(s.files[s.storages[i].path.value], ranges[k].0)
    ensures var t := Reads(s, i, ranges, io);
            && t.opens == s.opens + (if ranges == [] || IsOpen(s, i) then 0 else 1)
            && (ranges != [] ==> IsOpen(t, i))
            && t.storages[i].readCount == s.storages[i].readCount + |ranges|
            && t.storages[i].totalReadLen == s.storages[i].totalReadLen + TotalLen(ranges)
    decreases |ranges|
  {
    if ranges != [] {
      var c := ReadCall(i, ranges[0].0, ranges[0].1, io);
      StepKeepsFresh(s, c);
      ReadsShareOneOpen(Apply(s, c), i, ranges[1..], io);
    }
  }

  // ---------------------------------------------------------------- the session numbers

  /** The numbers are those from 1 to 2^32 - 1, over and over. */
  lemma NumbersAre(k: nat)
    ensures 1 <= SessionNumber(k) <= 0xFFFF_FFFF
    ensures k < 0xFFFF_FFFF ==> SessionNumber(k) == k + 1
    ensures SessionNumber(k + 0xFFFF_FFFF) == SessionNumber(k)
  {
  }

  /** The k-th number given out: they run from one to the largest size and start over. */
  function SessionNumber(k: nat): nat
  {
    k % SIZE_MAX + 1
  }

  lemma {:induction false} NumbersGivenOut(n: nat, files: map<Path, seq<byte>>, calls: seq<Call>)
    ensures var s := Run(n, files, calls); s.nextSession == SessionNumber(s.issued)
  {
    if calls != [] {
      NumbersGivenOut(n, files, calls[..|calls| - 1]);
      StepCounts(Run(n, files, calls[..|calls| - 1]), calls[|calls| - 1]);
    }
  }

  lemma StepCounts(s: State, c: Call)
    requires Bookkeeping(s) && s.nextSession == SessionNumber(s.issued)
    ensures Apply(s, c).nextSession == SessionNumber(Apply(s, c).issued)
  {
    NextNumber(s.issued);
    if c.BackendCall? {
    } else {
      assert Apply(s, c).issued == s.issued && Apply(s, c).nextSession == s.nextSession;
    }
  }

  lemma NextNumber(k: nat)
    ensures SessionNumber(k + 1) == if SessionNumber(k) == SIZE_MAX then 1 else SessionNumber(k) + 1
  {
  }

  /** Two numbers clash exactly when they are a multiple of the cycle apart; within a cycle none do. */
  lemma NumbersClash(j: nat, k: nat)
    requires j <= k
    ensures SessionNumber(j) == SessionNumber(k) <==> (k - j) % SIZE_MAX == 0
  {
  }

  /** Every number in use was given out before. */
  ghost predicate NumbersUsed(s: State)
  {
    && (forall i :: 0 <= i < |s.storages| ==>
          s.storages[i].session == 0 || exists j: nat :: j < s.issued && s.storages[i].session == SessionNumber(j))
    && (s.owner.Some? && s.owner.value.session != 0 ==>
          exists j: nat :: j < s.issued && s.owner.value.session == SessionNumber(j))
  }

  lemma StepUsesNumbers(s: State, c: Call)
    requires Bookkeeping(s) && NumbersUsed(s) && s.nextSession == SessionNumber(s.issued)
    ensures NumbersUsed(Apply(s, c))
  {
    assert Apply(s, c).issued >= s.issued;
  }

  lemma {:induction false} RunsUseNumbers(n: nat, files: map<Path, seq<byte>>, calls: seq<Call>)
    ensures NumbersUsed(Run(n, files, calls))
  {
    if calls != [] {
      var before := calls[..|calls| - 1];
      RunsUseNumbers(n, files, before);
      NumbersGivenOut(n, files, before);
      StepUsesNumbers(Run(n, files, before), calls[|calls| - 1]);
    }
  }

  /** As long as the numbers have not come round, making a backend is legal. */
  lemma NoClashWithinCycle(n: nat, files: map<Path, seq<byte>>, calls: seq<Call>, i: nat)
    requires Run(n, files, calls).issued < SIZE_MAX
    ensures Legal(Run(n, files, calls), BackendCall(i))
  {
    var s := Run(n, files, calls);
    RunsUseNumbers(n, files, calls);
    NumbersGivenOut(n, files, calls);
    forall j: nat | j < s.issued ensures SessionNumber(j) != s.nextSession {
      NumbersClash(j, s.issued);
    }
  }

  /** A backend that is not legal makes the next read return the old file, whatever its range. */
  lemma ClashReadsOldFile(s: State, i: nat, off: nat, len: nat, io: Io)
    requires Fresh(s) && i < |s.storages| && s.storages[i].path.Some? && !Legal(s, BackendCall(i))
    requires Fine(io, len) && len <= Available(s.handle.value.content, off)
    ensures s.storages[i].path != Some(s.handle.value.path)
    ensures Read(MakeBackend(s, i), i, off, len, io).0
            == Done(if len == 0 then [] else s.files[s.handle.value.path][off..off + len])
  {
  }

  // ---------------------------------------------------------------- a run that comes round

  const FINE := Io(0, 0, 0, 0, 0)

  lemma RunExtends(n: nat, files: map<Path, seq<byte>>, calls: seq<Call>, c: Call)
    ensures Run(n, files, calls + [c]) == Apply(Run(n, files, calls), c)
  {
    assert (calls + [c])[..|calls|] == calls;
  }

  lemma LegalExtends(n: nat, files: map<Path, seq<byte>>, calls: seq<Call>, c: Call)
    requires AllLegal(n, files, calls) && Legal(Run(n, files, calls), c)
    ensures AllLegal(n, files, calls + [c])
  {
    var all := calls + [c];
    forall k | 0 <= k < |all| ensures Legal(Run(n, files, all[..k]), all[k]) {
      assert all[..k] == calls[..k];
      assert k == |calls| ==> calls[..k] == calls;
    }
  }

  /** Storage 0 holds the same file as in `s`, after `k` more numbers. */
  predicate SameHeld(s: State, t: State, k: nat)
  {
    t.owner == s.owner == Some(Owner(0, 1)) && t.handle == s.handle && t.files == s.files && t.issued == s.issued + k
  }

  lemma RepointHolds(s: State, path: Path)
    requires Bookkeeping(s) && |s.storages| == 2 && s.owner == Some(Owner(0, 1))
    ensures var t := Apply(s, RepointCall(1, Some(path)));
            Legal(s, RepointCall(1, Some(path))) && SameHeld(s, t, 0) && t.storages[1].session == 0
  {
  }

  lemma BackendHolds(s: State)
    requires Bookkeeping(s) && |s.storages| == 2 && s.owner == Some(Owner(0, 1)) && s.storages[1].session == 0
    ensures Legal(s, BackendCall(1)) && SameHeld(s, Apply(s, BackendCall(1)), 1)
  {
  }

  lemma OneMore(files: map<Path, seq<byte>>, before: seq<Call>, c: Call)
    requires AllLegal(2, files, before) && Legal(Run(2, files, before), c)
    ensures AllLegal(2, files, before + [c]) && Run(2, files, before + [c]) == Apply(Run(2, files, before), c)
  {
    RunExtends(2, files, before, c);
    LegalExtends(2, files, before, c);
  }

  lemma TwoMore(files: map<Path, seq<byte>>, before: seq<Call>, path: Path)
    requires AllLegal(2, files, before) && Run(2, files, before).owner == Some(Owner(0, 1))
    ensures var after := before + [RepointCall(1, Some(path))] + [BackendCall(1)];
            AllLegal(2, files, after) && SameHeld(Run(2, files, before), Run(2, files, after), 1)
  {
    var one := before + [RepointCall(1, Some(path))];
    RepointHolds(Run(2, files, before), path);
    OneMore(files, before, RepointCall(1, Some(path)));
    BackendHolds(Run(2, files, one));
    OneMore(files, one, BackendCall(1));
  }

  ghost predicate HeldBetween(files: map<Path, seq<byte>>, calls: seq<Call>, later: seq<Call>, k: nat)
  {
    AllLegal(2, files, later) && SameHeld(Run(2, files, calls), Run(2, files, later), k)
  }

  lemma HeldOneMore(files: map<Path, seq<byte>>, calls: seq<Call>, later: seq<Call>, path: Path, k: nat)
    requires HeldBetween(files, calls, later, k)
    ensures HeldBetween(files, calls, later + [RepointCall(1, Some(path))] + [BackendCall(1)], k + 1)
  {
    TwoMore(files, later, path);
  }

  /** Preparing another storage over and over uses up the numbers. */
  lemma {:induction false} OthersCount(files: map<Path, seq<byte>>, calls: seq<Call>, path: Path, k: nat)
    returns (later: seq<Call>)
    requires HeldBetween(files, calls, calls, 0)
    ensures HeldBetween(files, calls, later, k)
  {
    if k == 0 {
      later := calls;
    } else {
      var before := OthersCount(files, calls, path, k - 1);
      HeldOneMore(files, calls, before, path, k - 1);
      later := before + [RepointCall(1, Some(path))] + [BackendCall(1)];
    }
  }

  lemma FirstOpened(files: map<Path, seq<byte>>, first: Path)
    requires first in files
    ensures var calls := [RepointCall(0, Some(first)), BackendCall(0), ReadCall(0, 0, 0, FINE)];
            var s := Run(2, files, calls);
            && AllLegal(2, files, calls)
            && s.owner == Some(Owner(0, 1)) && s.handle == Some(Handle(first, files[first]))
            && s.files == files && s.issued == 1
  {
    var a, b, c := RepointCall(0, Some(first)), BackendCall(0), ReadCall(0, 0, 0, FINE);
    var none: seq<Call> := [];
    RunExtends(2, files, none, a);
    LegalExtends(2, files, none, a);
    RunExtends(2, files, none + [a], b);
    LegalExtends(2, files, none + [a], b);
    RunExtends(2, files, none + [a] + [b], c);
    LegalExtends(2, files, none + [a] + [b], c);
    assert none + [a] + [b] + [c] == [a, b, c];
  }

  /**
   * Why the callers matter: were a storage pointed at another path without a release, there is a run, legal up to
   * its last call, after which it reads its previous file.
   */
  lemma StaleAfterFullCycle(files: map<Path, seq<byte>>, first: Path, second: Path) returns (calls: seq<Call>)
    requires first in files && first != second
    ensures var s := Run(2, files, calls);
            && AllLegal(2, files, calls) && !Legal(s, BackendCall(0))
            && s.storages[0].path == Some(second) && s.files == files
            && forall off: nat, len: nat, io: Io | Fine(io, len) && len <= Available(files[first], off) ::
                 Read(MakeBackend(s, 0), 0, off, len, io).0
                 == Done(if len == 0 then [] else files[first][off..off + len])
  {
    var start := [RepointCall(0, Some(first)), BackendCall(0), ReadCall(0, 0, 0, FINE)];
    FirstOpened(files, first);
    var round := OthersCount(files, start, second, SIZE_MAX - 1);
    calls := round + [RepointCall(0, Some(second))];
    RunExtends(2, files, round, RepointCall(0, Some(second)));
    LegalExtends(2, files, round, RepointCall(0, Some(second)));
    NumbersGivenOut(2, files, round);
    RunsStayFresh(2, files, calls);
    var s := Run(2, files, calls);
    forall off: nat, len: nat, io: Io | Fine(io, len) && len <= Available(files[first], off)
      ensures Read(MakeBackend(s, 0), 0, off, len, io).0 == Done(if len == 0 then [] else files[first][off..off + len])
    {
      ClashReadsOldFile(s, 0, off, len, io);
    }
  }
}
