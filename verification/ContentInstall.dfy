/**
 * Chunked upload of content files: begin, chunks with a running checksum into a staging file, and a
 * commit that replaces the final file. Every file-system call may fail with the code in `Io`, and a
 * write may stop short.
 */
module ContentInstall {
  import opened Bytes
  import opened Crc32

  const EIO := 5
  const EBUSY := 16
  const EINVAL := 22
  const ENOENT := 2

  const BOOKS_DIR := "/SD:/books/"
  const NAME_BYTES := 80

  type Files = map<string, seq<byte>>

  function FinalPath(name: string): string
  {
    BOOKS_DIR + name
  }

  function StagingPath(name: string): string
  {
    BOOKS_DIR + name + ".upload"
  }

  lemma PathsDiffer(name: string)
    ensures FinalPath(name) != StagingPath(name)
  {
    assert |FinalPath(name)| < |StagingPath(name)|;
  }

  predicate NameSafe(name: string)
  {
    && name != "" && name[0] != '.' && |name| < NAME_BYTES
    && forall i :: 0 <= i < |name| ==> name[i] != '/' && name[i] != '\\'
  }

  datatype Phase = Receiving | Committing

  /**
   * `accepted` is what the session has taken so far; the firmware keeps only its length and register.
   * `written` is what the staging file took, and `spilled` how much of it came from writes that stopped short.
   */
  datatype Session =
    | NoSession
    | Session(name: string, total: nat, expected: bv32, running: bv32, received: nat, stagingOpen: bool, phase: Phase,
              accepted: seq<byte>, written: seq<byte>, spilled: nat)

  datatype State = State(files: Files, session: Session)

  /** A negative error number. */
  type Errno = code: int | code < 0 witness -1

  /** A write takes everything, stops after `n` bytes, or fails with a code. */
  datatype Write = Whole | Short(n: nat) | Failing(code: Errno)

  /** What the file system answers, zero for success. */
  datatype Io = Io(mkdir: int, unlink: int, open: int, write: Write, rename: int)

  const FINE := Io(0, 0, 0, Whole, 0)

  // ---------------------------------------------------------------- the operations on values

  function Begin(s: State, name: string, total: nat, expected: bv32): (int, State)
  {
    if s.session.Session? then (-EBUSY, s)
    else if total == 0 || !NameSafe(name) then (-EINVAL, s)
    else (0, s.(session := Session(name, total, expected, INITIAL, 0, false, Receiving, [], [], 0)))
  }

  /** Remove a file if it is there. */
  function UnlinkIfExists(files: Files, path: string, code: int): (int, Files)
  {
    if path !in files then (0, files) else if code != 0 then (code, files) else (0, files - {path})
  }

  /** Make the staging file new and empty. */
  function Prepare(files: Files, path: string, io: Io): (int, Files)
  {
    if io.mkdir != 0 then (io.mkdir, files)
    else
      var u := UnlinkIfExists(files, path, io.unlink);
      if u.0 != 0 then u else if io.open != 0 then (io.open, u.1) else (0, u.1[path := []])
  }

  function Chunk(s: State, offset: nat, bytes: seq<byte>, io: Io): (int, State)
  {
    var e := s.session;
    if e.NoSession? || e.phase != Receiving then (-EINVAL, s)
    else if offset != e.received || e.received + |bytes| > e.total then (-EINVAL, s)
    else
      var path := StagingPath(e.name);
      var p := if e.stagingOpen then (0, s.files) else Prepare(s.files, path, io);
      if p.0 != 0 then (p.0, s.(files := p.1))
      else Take(State(p.1, Opened(e)), path, bytes, io)
  }

  /** A staging file just made is empty. */
  function Opened(e: Session): Session
    requires e.Session?
  {
    if e.stagingOpen then e else e.(stagingOpen := true, written := [], spilled := 0)
  }

  /** Append to the open staging file; register and count follow when the write went through. */
  function Take(s: State, path: string, bytes: seq<byte>, io: Io): (int, State)
    requires s.session.Session?
  {
    var e := s.session;
    if io.write.Failing? then (io.write.code, s)
    else if path !in s.files then (-EIO, s)
    else if io.write.Short? && io.write.n < |bytes| then
      (-EIO, Spill(s, path, bytes[..io.write.n]))
    else (0, Accept(s, path, bytes, Update(e.running, bytes)))
  }

  function Spill(s: State, path: string, part: seq<byte>): State
    requires s.session.Session? && path in s.files
  {
    var e := s.session;
    State(s.files[path := s.files[path] + part], e.(written := e.written + part, spilled := e.spilled + |part|))
  }

  function Accept(s: State, path: string, bytes: seq<byte>, register: bv32): State
    requires s.session.Session? && path in s.files
  {
    var e := s.session;
    State(s.files[path := s.files[path] + bytes],
          e.(running := register, received := e.received + |bytes|, accepted := e.accepted + bytes,
             written := e.written + bytes))
  }

  predicate Complete(e: Session)
    requires e.Session?
  {
    e.received == e.total && Complement(e.running) == e.expected
  }

  function Commit(s: State, io: Io): (int, State)
  {
    var e := s.session;
    if e.NoSession? then (-EINVAL, s)
    else
      var staging, final := StagingPath(e.name), FinalPath(e.name);
      if !Complete(e) then (-EIO, State(UnlinkIfExists(s.files, staging, io.unlink).1, NoSession))
      else
        var closed := e.(stagingOpen := false, phase := Committing);
        var u := UnlinkIfExists(s.files, final, io.unlink);
        if u.0 != 0 then (u.0, State(u.1, closed))
        else if io.rename != 0 || staging !in u.1 then
          (if io.rename != 0 then io.rename else -ENOENT, State(u.1, closed))
        else (0, State((u.1 - {staging})[final := u.1[staging]], NoSession))
  }

  /** A device reset drops the session and its staging file. */
  function Reset(s: State, io: Io): State
  {
    if s.session.NoSession? then s
    else State(UnlinkIfExists(s.files, StagingPath(s.session.name), io.unlink).1, NoSession)
  }

  // ---------------------------------------------------------------- the code

  class Installer {
    var files: Files
    var active: bool
    var name: string
    var total: nat
    var expected: bv32
    var running: bv32
    var received: nat
    var stagingOpen: bool
    var phase: Phase
    ghost var accepted: seq<byte>
    ghost var written: seq<byte>
    ghost var spilled: nat

    ghost function Value(): State
      reads this
    {
      State(files,
            if active then
              Session(name, total, expected, running, received, stagingOpen, phase, accepted, written, spilled)
            else NoSession)
    }

    constructor (files: Files)
      ensures Value() == State(files, NoSession)
    {
      this.files, active, name, total, expected, running, received := files, false, "", 0, 0, 0, 0;
      stagingOpen, phase, accepted, written, spilled := false, Receiving, [], [], 0;
    }

    method BeginInstall(newName: string, length: nat, crc: bv32) returns (result: int)
      modifies this
      ensures (result, Value()) == Begin(old(Value()), newName, length, crc)
    {
      if active {
        return -EBUSY;
      }
      if length == 0 || !NameSafe(newName) {
        return -EINVAL;
      }
      name, total, expected := newName, length, crc;
      running, received, stagingOpen := INITIAL, 0, false;
      accepted, written, spilled := [], [], 0;
      active, phase := true, Receiving;
      result := 0;
    }

    method UnlinkFile(path: string, code: int) returns (result: int)
      modifies this`files
      ensures (result, files) == UnlinkIfExists(old(files), path, code)
    {
      if path !in files {
        return 0;
      }
      if code != 0 {
        return code;
      }
      files := files - {path};
      result := 0;
    }

    method PrepareStaging(path: string, io: Io) returns (result: int)
      modifies this`files, this`stagingOpen, this`written, this`spilled
      ensures if old(stagingOpen) then result == 0 && files == old(files)
              else (result, files) == Prepare(old(files), path, io)
      ensures stagingOpen == (old(stagingOpen) || result == 0)
      ensures if old(stagingOpen) || result != 0 then written == old(written) && spilled == old(spilled)
              else written == [] && spilled == 0
    {
      if stagingOpen {
        return 0;
      }
      if io.mkdir != 0 {
        return io.mkdir;
      }
      result := UnlinkFile(path, io.unlink);
      if result != 0 {
        return;
      }
      if io.open != 0 {
        return io.open;
      }
      files := files[path := []];
      stagingOpen := true;
      written, spilled := [], 0;
    }

    method AppendChunk(offset: nat, bytes: seq<byte>, io: Io) returns (result: int)
      modifies this
      ensures (result, Value()) == Chunk(old(Value()), offset, bytes, io)
    {
      if !active || phase != Receiving {
        return -EINVAL;
      }
      if offset != received || received + |bytes| > total {
        return -EINVAL;
      }
      var path := StagingPath(name);
      ghost var before := Value();
      result := PrepareStaging(path, io);
      assert Value() == State(files, if result == 0 then Opened(before.session) else before.session);
      if result == 0 {
        result := TakeBytes(path, bytes, io);
      }
    }

    method TakeBytes(path: string, bytes: seq<byte>, io: Io) returns (result: int)
      requires active
      modifies this`files, this`running, this`received, this`accepted, this`written, this`spilled
      ensures (result, Value()) == Take(old(Value()), path, bytes, io)
    {
      if io.write.Failing? {
        return io.write.code;
      }
      if path !in files {
        return -EIO;
      }
      if io.write.Short? && io.write.n < |bytes| {
        AppendPart(path, bytes[..io.write.n]);
        return -EIO;
      }
      var register := UpdateRunning(running, bytes);
      AppendAll(path, bytes, register);
      result := 0;
    }

    method AppendPart(path: string, part: seq<byte>)
      requires active && path in files
      modifies this`files, this`written, this`spilled
      ensures Value() == Spill(old(Value()), path, part)
    {
      files := files[path := files[path] + part];
      written, spilled := written + part, spilled + |part|;
    }

    /** The write went through: the register and the count follow. */
    method AppendAll(path: string, bytes: seq<byte>, register: bv32)
      requires active && path in files
      modifies this`files, this`running, this`received, this`accepted, this`written
      ensures Value() == Accept(old(Value()), path, bytes, register)
    {
      files := files[path := files[path] + bytes];
      running := register;
      received := received + |bytes|;
      accepted, written := accepted + bytes, written + bytes;
    }

    method CommitInstall(io: Io) returns (result: int)
      modifies this
      ensures (result, Value()) == Commit(old(Value()), io)
    {
      if !active {
        return -EINVAL;
      }
      var staging, final := StagingPath(name), FinalPath(name);
      phase := Committing;
      stagingOpen := false;
      if received != total || Complement(running) != expected {
        var ignored := UnlinkFile(staging, io.unlink);
        active := false;
        return -EIO;
      }
      result := UnlinkFile(final, io.unlink);
      if result != 0 {
        return;
      }
      if io.rename != 0 {
        return io.rename;
      }
      if staging !in files {
        return -ENOENT;
      }
      files := (files - {staging})[final := files[staging]];
      active := false;
    }
  }

  // ---------------------------------------------------------------- what every call keeps

  /** The register and the staging file are those of the accepted prefix. */
  predicate Inv(s: State)
  {
    s.session.Session? ==>
      var e := s.session;
      && 0 < e.total && |e.accepted| == e.received <= e.total
      && e.running == Update(INITIAL, e.accepted)
      && (e.stagingOpen || e.phase == Committing ==>
            StagingPath(e.name) in s.files && s.files[StagingPath(e.name)] == e.written)
      && |e.written| == |e.accepted| + e.spilled && (e.spilled == 0 ==> e.written == e.accepted)
      && (!e.stagingOpen && e.phase == Receiving ==> e.accepted == [] && e.spilled == 0)
      && (e.phase == Committing ==> Complete(e))
  }

  datatype Call =
    | BeginCall(name: string, total: nat, expected: bv32)
    | ChunkCall(offset: nat, bytes: seq<byte>, io: Io)
    | CommitCall(io: Io)
    | ResetCall(io: Io)

  function Apply(s: State, c: Call): State
  {
    match c
    case BeginCall(name, total, expected) => Begin(s, name, total, expected).1
    case ChunkCall(offset, bytes, io) => Chunk(s, offset, bytes, io).1
    case CommitCall(io) => Commit(s, io).1
    case ResetCall(io) => Reset(s, io)
  }

  function Run(s: State, calls: seq<Call>): State
  {
    if calls == [] then s else Apply(Run(s, calls[..|calls| - 1]), calls[|calls| - 1])
  }

  lemma TakeKeepsInv(s: State, bytes: seq<byte>, io: Io)
    requires Inv(s) && s.session.Session? && s.session.stagingOpen && s.session.phase == Receiving
    requires s.session.received + |bytes| <= s.session.total
    ensures Inv(Take(s, StagingPath(s.session.name), bytes, io).1)
  {
    UpdateConcat(INITIAL, s.session.accepted, bytes);
  }

  lemma ChunkKeepsInv(s: State, offset: nat, bytes: seq<byte>, io: Io)
    requires Inv(s)
    ensures Inv(Chunk(s, offset, bytes, io).1)
  {
    var e := s.session;
    if e.Session? && e.phase == Receiving && offset == e.received && e.received + |bytes| <= e.total {
      var path := StagingPath(e.name);
      var p := if e.stagingOpen then (0, s.files) else Prepare(s.files, path, io);
      if p.0 == 0 {
        TakeKeepsInv(State(p.1, Opened(e)), bytes, io);
      }
    }
  }

  lemma CommitKeepsInv(s: State, io: Io)
    requires Inv(s)
    ensures Inv(Commit(s, io).1)
  {
    if s.session.Session? {
      PathsDiffer(s.session.name);
    }
  }

  /** In every run the running register is the one-shot register of what was accepted. */
  lemma {:induction false} RunsKeepInv(files: Files, calls: seq<Call>)
    ensures Inv(Run(State(files, NoSession), calls))
  {
    if calls != [] {
      var s := Run(State(files, NoSession), calls[..|calls| - 1]);
      RunsKeepInv(files, calls[..|calls| - 1]);
      match calls[|calls| - 1] {
        case ChunkCall(offset, bytes, io) => ChunkKeepsInv(s, offset, bytes, io);
        case CommitCall(io) => CommitKeepsInv(s, io);
        case _ =>
      }
    }
  }

  /** Which names are taken: not empty, not hidden, no path, and short enough for their buffer. */
  lemma BeginExactly(s: State, name: string, total: nat, expected: bv32)
    ensures Begin(s, name, total, expected).0 == 0 <==>
            && s.session.NoSession? && total > 0
            && 0 < |name| < 80 && name[0] != '.' && '/' !in name && '\\' !in name
    ensures var (result, t) := Begin(s, name, total, expected);
            && (result == 0 ==>
                  && t.session.Session? && t.session.name == name && t.session.total == total
                  && t.session.expected == expected && t.session.accepted == [] && t.files == s.files && Inv(t))
            && (result != 0 ==> t == s && result == if s.session.Session? then -16 else -22)
  {
  }

  /** The final file, too, stays what it was. */
  ghost predicate SameButStaging(a: Files, b: Files, name: string)
  {
    forall path :: path != StagingPath(name) ==> (path in a <==> path in b) && (path in a ==> a[path] == b[path])
  }

  /** The file system lets a chunk through: the staging file is there or can be made, and the write is not cut. */
  predicate GoesThrough(s: State, bytes: seq<byte>, io: Io)
    requires s.session.Session?
  {
    && (s.session.stagingOpen ||
        (io.mkdir == 0 && io.open == 0 && (StagingPath(s.session.name) in s.files ==> io.unlink == 0)))
    && !io.write.Failing? && (io.write.Short? ==> io.write.n >= |bytes|)
  }

  /**
   * A chunk is accepted exactly where the accepted content ends, within the announced length, if the file system
   * lets it through, and then whole. What is refused for its offset or length leaves everything as it was.
   */
  lemma ChunkOutcome(s: State, offset: nat, bytes: seq<byte>, io: Io)
    requires Inv(s)
    ensures var (result, t) := Chunk(s, offset, bytes, io);
            var due := s.session.Session? && s.session.phase == Receiving
                       && offset == |s.session.accepted| && offset + |bytes| <= s.session.total;
            && (!due ==> result == -22 && t == s)
            && (result == 0 <==> due && GoesThrough(s, bytes, io))
            && (result == 0 ==> t.session.Session? && t.session.accepted == s.session.accepted + bytes)
            && (result != 0 ==> t.session.Session? == s.session.Session?)
            && (result != 0 && s.session.Session? ==> t.session.accepted == s.session.accepted)
            && (s.session.Session? ==> SameButStaging(s.files, t.files, s.session.name))
  {
  }

  /** A reset leaves no session and, unless it cannot be unlinked, no staging file; nothing else is touched. */
  lemma ResetOutcome(s: State, io: Io)
    ensures var t := Reset(s, io);
            && t.session.NoSession?
            && (s.session.NoSession? ==> t.files == s.files)
            && (s.session.Session? ==>
                  && SameButStaging(s.files, t.files, s.session.name)
                  && (io.unlink == 0 ==> StagingPath(s.session.name) !in t.files))
  {
  }

  /** Where a file and its staging copy live. */
  lemma PathsAre(name: string)
    ensures FinalPath(name) == "/SD:/books/" + name && StagingPath(name) == "/SD:/books/" + name + ".upload"
  {
  }

  ghost predicate SameElsewhere(a: Files, b: Files, name: string)
  {
    forall path :: path != FinalPath(name) && path != StagingPath(name) ==>
      (path in a <==> path in b) && (path in a ==> a[path] == b[path])
  }

  /**
   * A commit that succeeds leaves the accepted bytes as the final file, of the declared length and
   * checksum, exactly when no write of the session stopped part-way: the firmware does not seek back. A
   * length or checksum mismatch leaves the final file as it was. Nothing else is touched.
   */
  lemma CommitOutcome(s: State, io: Io)
    requires Inv(s) && s.session.Session?
    ensures var e, r := s.session, Commit(s, io); var final := FinalPath(e.name);
            && (r.0 == 0 ==> |e.accepted| == e.total && Checksum(e.accepted) == e.expected
                             && final in r.1.files && (r.1.files[final] == e.accepted <==> e.spilled == 0)
                             && StagingPath(e.name) !in r.1.files && r.1.session.NoSession?)
            && (|e.accepted| != e.total || Checksum(e.accepted) != e.expected ==>
                  && r.0 == -EIO && r.1.session.NoSession?
                  && (final in r.1.files <==> final in s.files)
                  && (final in s.files ==> r.1.files[final] == s.files[final]))
            && SameElsewhere(s.files, r.1.files, e.name)
  {
    PathsDiffer(s.session.name);
  }

  /** With a sound file system a commit succeeds exactly when length and checksum are as declared. */
  lemma CommitSucceedsExactly(s: State)
    requires Inv(s) && s.session.Session?
    ensures Commit(s, FINE).0 == 0 <==>
            |s.session.accepted| == s.session.total && Checksum(s.session.accepted) == s.session.expected
  {
    PathsDiffer(s.session.name);
  }

  // ---------------------------------------------------------------- a whole upload

  function Concat(chunks: seq<seq<byte>>): seq<byte>
  {
    if chunks == [] then [] else Concat(chunks[..|chunks| - 1]) + chunks[|chunks| - 1]
  }

  /** The chunks one after another, each at the offset where the previous one ended. */
  function SendAll(s: State, chunks: seq<seq<byte>>): State
  {
    if chunks == [] then s
    else
      var front := chunks[..|chunks| - 1];
      Chunk(SendAll(s, front), |Concat(front)|, chunks[|chunks| - 1], FINE).1
  }

  lemma {:induction false} SendAllAccepts(s: State, chunks: seq<seq<byte>>)
    requires Inv(s) && s.session.Session? && s.session.phase == Receiving
    requires s.session.accepted == [] && s.session.spilled == 0
    requires |Concat(chunks)| <= s.session.total
    ensures var t := SendAll(s, chunks);
            && Inv(t) && t.session.Session? && t.session.phase == Receiving
            && t.session.name == s.session.name && t.session.total == s.session.total
            && t.session.expected == s.session.expected
            && t.session.accepted == Concat(chunks) && t.session.spilled == 0
  {
    if chunks != [] {
      var front := chunks[..|chunks| - 1];
      SendAllAccepts(s, front);
      ChunkKeepsInv(SendAll(s, front), |Concat(front)|, chunks[|chunks| - 1], FINE);
    }
  }

  /** Begin, chunks and commit store exactly the concatenation of the chunks, or refuse it. */
  lemma UploadStores(files: Files, name: string, total: nat, expected: bv32, chunks: seq<seq<byte>>)
    requires total > 0 && NameSafe(name) && |Concat(chunks)| <= total
    ensures var begun := Begin(State(files, NoSession), name, total, expected);
            var done := Commit(SendAll(begun.1, chunks), FINE);
            && begun.0 == 0
            && (done.0 == 0 <==> |Concat(chunks)| == total && Checksum(Concat(chunks)) == expected)
            && (done.0 == 0 ==> FinalPath(name) in done.1.files && done.1.files[FinalPath(name)] == Concat(chunks))
  {
    var begun := Begin(State(files, NoSession), name, total, expected).1;
    SendAllAccepts(begun, chunks);
    var s := SendAll(begun, chunks);
    CommitSucceedsExactly(s);
    CommitOutcome(s, FINE);
  }

  /** Content corrupted on the way by a burst of at most 32 consecutive bits is never committed. */
  lemma CorruptedUploadRefused(s: State, meant: seq<byte>, at: nat, io: Io)
    requires Inv(s) && s.session.Session? && s.session.expected == Checksum(meant)
    requires |s.session.accepted| == |meant| && s.session.accepted != meant
    requires forall i :: 0 <= i < 8 * |meant| && !(at <= i < at + 32) ==> Bits(s.session.accepted)[i] == Bits(meant)[i]
    ensures Commit(s, io).0 == -EIO
  {
    BurstChangesChecksum(s.session.accepted, meant, at);
  }

  lemma ShortWrite(files: Files, e: Session, data: seq<byte>, n: nat)
    requires Inv(State(files, e)) && e.Session? && e.phase == Receiving && !e.stagingOpen && e.total == |data|
    requires n < |data|
    ensures var cut := Chunk(State(files, e), 0, data, FINE.(write := Short(n)));
            && cut.0 == -EIO && StagingPath(e.name) in cut.1.files
            && cut.1.session == e.(stagingOpen := true, written := data[..n], spilled := n)
  {
    assert [] + data[..n] == data[..n];
  }

  lemma Repeated(s: State, data: seq<byte>)
    requires Inv(s) && s.session.Session? && s.session.phase == Receiving && s.session.stagingOpen
    requires s.session.accepted == [] && s.session.total == |data|
    ensures var again := Chunk(s, 0, data, FINE);
            && again.0 == 0 && Inv(again.1) && again.1.session.Session?
            && again.1.session.name == s.session.name && again.1.session.expected == s.session.expected
            && again.1.session.total == |data|
            && again.1.session.accepted == data && again.1.session.written == s.session.written + data
  {
    ChunkKeepsInv(s, 0, data, FINE);
    assert [] + data == data;
  }

  /** A commit stores what the staging file took. */
  lemma CommitStoresWritten(s: State)
    requires Inv(s) && s.session.Session? && Complete(s.session)
    ensures var done := Commit(s, FINE); var final := FinalPath(s.session.name);
            done.0 == 0 && final in done.1.files && done.1.files[final] == s.session.written
  {
    PathsDiffer(s.session.name);
  }

  /** Repeating a chunk after its write stopped short: the commit accepts, and the file is not what was sent. */
  lemma ShortWriteSpoilsUpload(files: Files, name: string, data: seq<byte>, n: nat)
    requires NameSafe(name) && 0 < n < |data|
    ensures var begun := Begin(State(files, NoSession), name, |data|, Checksum(data)).1;
            var cut := Chunk(begun, 0, data, FINE.(write := Short(n)));
            var again := Chunk(cut.1, 0, data, FINE);
            var done := Commit(again.1, FINE);
            && cut.0 == -EIO && again.0 == 0 && done.0 == 0
            && FinalPath(name) in done.1.files && done.1.files[FinalPath(name)] == data[..n] + data != data
  {
    var begun := Begin(State(files, NoSession), name, |data|, Checksum(data)).1;
    var cut := Chunk(begun, 0, data, FINE.(write := Short(n))).1;
    ShortWrite(files, begun.session, data, n);
    ChunkKeepsInv(begun, 0, data, FINE.(write := Short(n)));
    Repeated(cut, data);
    CommitStoresWritten(Chunk(cut, 0, data, FINE).1);
    assert |data[..n] + data| > |data|;
  }

  /**
   * When the rename fails the commit can be repeated: the session waits, its file closed, with the staging content,
   * while the old final file is gone unless it could not be unlinked.
   */
  lemma FailedCommitWaits(s: State, io: Io)
    requires Inv(s) && s.session.Session? && Complete(s.session) && (io.unlink != 0 || io.rename != 0)
    requires s.session.stagingOpen || s.session.phase == Committing
    requires FinalPath(s.session.name) in s.files
    ensures var (result, t) := Commit(s, io); var name := s.session.name;
            && result == (if io.unlink != 0 then io.unlink else io.rename)
            && t.session == s.session.(stagingOpen := false, phase := Committing)
            && StagingPath(name) in t.files && t.files[StagingPath(name)] == s.files[StagingPath(name)]
            && (FinalPath(name) in t.files <==> io.unlink != 0)
  {
    PathsDiffer(s.session.name);
  }
}
