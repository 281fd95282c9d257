/**
 * The framed file transfer over BLE: a name, then content into a staging file, then a completion event
 * that takes the file over from the session. A write may fail, or stop after part of its data.
 */
module BleTransfer {
  import opened Bytes

  datatype Option<+T> = None | Some(value: T)

  const RES_INV_PARAM := 0x03
  const RES_BUSY := 0x0a
  const RES_ROUTE_AMBIGUOUS := 0x11
  const ENOENT := 2
  const EIO := 5
  const EINVAL := 22
  const EFBIG := 27
  const NAME_MAX := 96

  /** The profile a file name is routed to; the staging path depends on nothing else. */
  datatype Profile = Profile(slot: nat, instance: string, event: string)

  /** What routing a name yields. */
  datatype Routing = Routed(profile: Profile) | Ambiguous | Unroutable

  /** Staging paths of different profiles differ. */
  datatype Path = StagingOf(slot: nat, instance: string)

  function PathOf(p: Profile): Path
  {
    StagingOf(p.slot, p.instance)
  }

  type Files = map<Path, seq<byte>>

  datatype Framing = NoFraming | Framing(total: nat, nameLen: nat, name: seq<byte>, nameDone: bool, off: nat)

  /** `staging` is the file the session still owns. */
  datatype Session =
    | NoSession
    | Session(profile: Profile, fileName: seq<byte>, staging: Option<Path>, open: bool, alloc: nat, received: nat)

  datatype Pending =
    | NoPending
    | Pending(active: bool, profile: Profile, fileName: seq<byte>, path: Path, received: nat, total: nat)

  /** A completion event as it was published: for which transfer, the file at that moment, what had been accepted. */
  datatype Published = Published(transfer: nat, path: Path, content: seq<byte>, sent: seq<byte>, total: nat)

  /** The three structures, the files, and the history: transfers begun, content accepted, events. */
  datatype State = State(
    framing: Framing, session: Session, pending: Pending, files: Files,
    begun: nat, accepted: seq<byte>, published: seq<Published>)

  const START := State(NoFraming, NoSession, NoPending, map[], 0, [], [])

  /** Zero, or a negative error number. */
  type Result = x: int | x <= 0

  /** What the file system answers: `room` bounds what one write takes; a failed unlink leaves the file. */
  datatype Io = Io(open: Result, seek: Result, write: Result, room: nat, unlinkFails: bool)

  // ---------------------------------------------------------------- the calls on values

  function BeginFramed(s: State, maxBytes: nat, total: nat, nameLen: nat): (int, State)
  {
    if nameLen == 0 || nameLen >= NAME_MAX then (RES_INV_PARAM, s)
    else if total == 0 || total > maxBytes then (RES_INV_PARAM, s)
    else if s.session.Session? || s.framing.Framing? then (RES_BUSY, s)
    else (0, s.(framing := Framing(total, nameLen, [], false, 0), begun := s.begun + 1))
  }

  /** Open the staging file of the profile the name is routed to. */
  function BeginInternal(s: State, name: seq<byte>, alloc: nat, routing: Routing, io: Io): (int, State)
  {
    if s.session.Session? then (RES_BUSY, s)
    else
      match routing
      case Ambiguous => (RES_ROUTE_AMBIGUOUS, s)
      case Unroutable => (RES_INV_PARAM, s)
      case Routed(p) =>
        if io.open != 0 then (io.open, s)
        else
          (0, s.(session := Session(p, name, Some(PathOf(p)), true, alloc, 0), files := s.files[PathOf(p) := []],
                 accepted := []))
  }

  function FeedName(s: State, data: seq<byte>, routing: Routing, io: Io): (int, State)
  {
    var f := s.framing;
    if f.NoFraming? || f.nameDone then (-EINVAL, s)
    else if |f.name| + |data| > f.nameLen then (RES_INV_PARAM, s)
    else
      var g := f.(name := f.name + data);
      var t := s.(framing := g);
      if |g.name| != g.nameLen then (0, t)
      else
        var r := BeginInternal(t, g.name, g.total, routing, io);
        if r.0 != 0 then (r.0, r.1.(framing := NoFraming)) else (0, r.1.(framing := g.(nameDone := true)))
  }

  /** The part of the file before `off`, then the data. */
  function WriteAt(content: seq<byte>, off: nat, data: seq<byte>): seq<byte>
  {
    if off + |data| <= |content| then content[..off] + data + content[off + |data|..]
    else if off <= |content| then content[..off] + data
    else content + seq(off - |content|, _ => 0) + data
  }

  function WriteInternal(s: State, data: seq<byte>, off: nat, rem: nat, io: Io): (int, State)
  {
    var e := s.session;
    if e.NoSession? || e.staging.None? then (-EINVAL, s)
    else if off + |data| > e.alloc then (-EFBIG, s)
    else if !e.open || e.staging.value !in s.files then (-EIO, s)
    else if io.seek != 0 then (io.seek, s)
    else if io.write != 0 then (io.write, s)
    else
      var path := e.staging.value;
      if io.room < |data| then (-EIO, s.(files := s.files[path := WriteAt(s.files[path], off, data[..io.room])])) else
      var files := s.files[path := WriteAt(s.files[path], off, data)];
      var counted := e.(received := e.received + |data|);
      var t := s.(files := files, session := counted, accepted := s.accepted + data);
      if rem != 0 then (0, t)
      else
        (0, t.(session := counted.(staging := None, open := false),
               pending := Pending(true, e.profile, e.fileName, path, counted.received, e.alloc),
               published := s.published + [Published(s.begun, path, files[path], s.accepted + data, e.alloc)]))
  }

  function FeedContent(s: State, data: seq<byte>, io: Io): (int, State)
  {
    var f := s.framing;
    if f.NoFraming? || !f.nameDone then (-EINVAL, s)
    else if f.off + |data| > f.total then (-EFBIG, s)
    else
      var rem := f.total - (f.off + |data|);
      var w := WriteInternal(s, data, f.off, rem, io);
      if w.0 != 0 then w
      else (0, w.1.(framing := if rem == 0 then NoFraming else f.(off := f.off + |data|)))
  }

  /** Abort, cancel and disconnect: drop what the session still owns. */
  function Abandon(s: State, io: Io): State
  {
    var e := s.session;
    s.(framing := NoFraming, session := NoSession,
       files := if e.Session? && e.staging.Some? && !io.unlinkFails then s.files - {e.staging.value} else s.files)
  }

  /** The poll loop takes the event, once; the file stays until it is cleaned up. */
  function Drain(s: State, appKnown: bool): (int, State)
  {
    if s.pending.NoPending? || !s.pending.active then (-ENOENT, s)
    else if !appKnown then (-EINVAL, s)
    else (0, s.(pending := s.pending.(active := false)))
  }

  function Cleanup(s: State, io: Io): State
  {
    if s.pending.NoPending? then s
    else s.(pending := NoPending, files := if io.unlinkFails then s.files else s.files - {s.pending.path})
  }

  // ---------------------------------------------------------------- the code

  class Transfer {
    const maxBytes: nat
    var framing: Framing
    var session: Session
    var pending: Pending
    var files: Files
    ghost var begun: nat
    ghost var accepted: seq<byte>
    ghost var published: seq<Published>

    ghost function Value(): State
      reads this
    {
      State(framing, session, pending, files, begun, accepted, published)
    }

    constructor (maxBytes: nat)
      ensures Value() == START && this.maxBytes == maxBytes
    {
      this.maxBytes := maxBytes;
      framing, session, pending, files := NoFraming, NoSession, NoPending, map[];
      begun, accepted, published := 0, [], [];
    }

    method BeginFramedTransfer(total: nat, nameLen: nat) returns (result: int)
      modifies this
      ensures (result, Value()) == BeginFramed(old(Value()), maxBytes, total, nameLen)
    {
      if nameLen == 0 || nameLen >= NAME_MAX {
        return RES_INV_PARAM;
      }
      if total == 0 || total > maxBytes {
        return RES_INV_PARAM;
      }
      if session.Session? || framing.Framing? {
        return RES_BUSY;
      }
      framing := Framing(total, nameLen, [], false, 0);
      begun := begun + 1;
      result := 0;
    }

    method OpenSession(name: seq<byte>, alloc: nat, routing: Routing, io: Io) returns (result: int)
      modifies this`session, this`files, this`accepted
      ensures (result, Value()) == BeginInternal(old(Value()), name, alloc, routing, io)
    {
      if session.Session? {
        return RES_BUSY;
      }
      match routing {
        case Ambiguous => return RES_ROUTE_AMBIGUOUS;
        case Unroutable => return RES_INV_PARAM;
        case Routed(p) =>
          if io.open != 0 {
            return io.open;
          }
          files := files[PathOf(p) := []];
          session := Session(p, name, Some(PathOf(p)), true, alloc, 0);
          accepted := [];
          return 0;
      }
    }

    method FeedNameBytes(data: seq<byte>, routing: Routing, io: Io) returns (result: int)
      modifies this
      ensures (result, Value()) == FeedName(old(Value()), data, routing, io)
    {
      if framing.NoFraming? || framing.nameDone {
        return -EINVAL;
      }
      if |framing.name| + |data| > framing.nameLen {
        return RES_INV_PARAM;
      }
      framing := framing.(name := framing.name + data);
      result := 0;
      if |framing.name| == framing.nameLen {
        result := OpenSession(framing.name, framing.total, routing, io);
        if result != 0 {
          framing := NoFraming;
          return;
        }
        framing := framing.(nameDone := true);
      }
    }

    method WriteContent(data: seq<byte>, off: nat, rem: nat, io: Io) returns (result: int)
      modifies this`session, this`pending, this`files, this`accepted, this`published
      ensures (result, Value()) == WriteInternal(old(Value()), data, off, rem, io)
    {
      if session.NoSession? || session.staging.None? {
        return -EINVAL;
      }
      if off + |data| > session.alloc {
        return -EFBIG;
      }
      if !session.open || session.staging.value !in files {
        return -EIO;
      }
      if io.seek != 0 {
        return io.seek;
      }
      if io.write != 0 {
        return io.write;
      }
      var path := session.staging.value;
      if io.room < |data| {
        files := files[path := WriteAt(files[path], off, data[..io.room])];
        return -EIO;
      }
      files := files[path := WriteAt(files[path], off, data)];
      session := session.(received := session.received + |data|);
      accepted := accepted + data;
      if rem == 0 {
        Publish(path);
      }
      result := 0;
    }

    /** Fill the event, close the file, publish, and detach the file from the session. */
    method Publish(path: Path)
      requires session.Session? && path in files
      modifies this`session, this`pending, this`published
      ensures pending == Pending(true, old(session).profile, old(session).fileName, path, old(session).received,
                                 old(session).alloc)
      ensures session == old(session).(staging := None, open := false)
      ensures published == old(published) + [Published(begun, path, files[path], accepted, old(session).alloc)]
    {
      pending := Pending(false, session.profile, session.fileName, path, session.received, session.alloc);
      session := session.(open := false);
      pending := pending.(active := true);
      published := published + [Published(begun, path, files[path], accepted, session.alloc)];
      session := session.(staging := None);
    }

    method FeedContentBytes(data: seq<byte>, io: Io) returns (result: int)
      modifies this
      ensures (result, Value()) == FeedContent(old(Value()), data, io)
    {
      if framing.NoFraming? || !framing.nameDone {
        return -EINVAL;
      }
      if framing.off + |data| > framing.total {
        return -EFBIG;
      }
      var rem := framing.total - (framing.off + |data|);
      result := WriteContent(data, framing.off, rem, io);
      if result != 0 {
        return;
      }
      framing := framing.(off := framing.off + |data|);
      if rem == 0 {
        framing := NoFraming;
      }
    }

    method CloseSessionFiles(io: Io)
      modifies this`session, this`files
      ensures files == if old(session).Session? && old(session).staging.Some? && !io.unlinkFails
                       then old(files) - {old(session).staging.value} else old(files)
      ensures session == if old(session).Session? then old(session).(open := false, staging := None) else old(session)
    {
      if session.Session? {
        session := session.(open := false);
        if session.staging.Some? {
          if !io.unlinkFails {
            files := files - {session.staging.value};
          }
          session := session.(staging := None);
        }
      }
    }

    method Abort(io: Io)
      modifies this
      ensures Value() == Abandon(old(Value()), io)
    {
      framing := NoFraming;
      CloseSessionFiles(io);
      session := NoSession;
    }

    method ResetSession(io: Io)
      modifies this
      ensures Value() == Abandon(old(Value()), io)
    {
      CloseSessionFiles(io);
      session := NoSession;
      framing := NoFraming;
    }

    method DrainPendingEvent(appKnown: bool) returns (result: int, event: string)
      modifies this`pending
      ensures (result, Value()) == Drain(old(Value()), appKnown)
      ensures result == 0 ==> event == old(pending).profile.event
    {
      event := "";
      if pending.NoPending? || !pending.active {
        return -ENOENT, event;
      }
      if !appKnown {
        return -EINVAL, event;
      }
      event := pending.profile.event;
      pending := pending.(active := false);
      result := 0;
    }

    method CleanupStaging(io: Io)
      modifies this`pending, this`files
      ensures Value() == Cleanup(old(Value()), io)
    {
      if pending.Pending? && !io.unlinkFails {
        files := files - {pending.path};
      }
      pending := NoPending;
    }
  }

  // ---------------------------------------------------------------- what every call keeps

  datatype Call =
    | BeginCall(total: nat, nameLen: nat)
    | NameCall(data: seq<byte>, routing: Routing, io: Io)
    | ContentCall(data: seq<byte>, io: Io)
    | AbandonCall(io: Io)
    | DrainCall(appKnown: bool)
    | CleanupCall(io: Io)

  function Apply(s: State, maxBytes: nat, c: Call): State
  {
    match c
    case BeginCall(total, nameLen) => BeginFramed(s, maxBytes, total, nameLen).1
    case NameCall(data, routing, io) => FeedName(s, data, routing, io).1
    case ContentCall(data, io) => FeedContent(s, data, io).1
    case AbandonCall(io) => Abandon(s, io)
    case DrainCall(appKnown) => Drain(s, appKnown).1
    case CleanupCall(io) => Cleanup(s, io)
  }

  function Run(s: State, maxBytes: nat, calls: seq<Call>): State
  {
    if calls == [] then s else Apply(Run(s, maxBytes, calls[..|calls| - 1]), maxBytes, calls[|calls| - 1])
  }

  predicate Transferring(s: State)
  {
    s.framing.Framing? && s.framing.nameDone
  }

  /** While content arrives, offset, count and accepted content agree, and so does the staging file. */
  predicate InStep(s: State)
  {
    && (s.framing.Framing? ==>
          0 < s.framing.total && |s.framing.name| <= s.framing.nameLen < NAME_MAX
          && (s.framing.nameDone <==> s.session.Session?)
          && (!s.framing.nameDone ==> s.framing.off == 0))
    && (Transferring(s) ==>
          var f, e := s.framing, s.session;
          && e.staging == Some(PathOf(e.profile)) && e.open && e.alloc == f.total
          && f.off == e.received == |s.accepted| < f.total)
    && (s.session.Session? && !Transferring(s) ==> s.session.staging.None?)
  }

  /**
   * Up to the offset the staging file holds the accepted content; a write cut short may have left more, not
   * past the total. (The file is there unless somebody cleaned it up.)
   */
  predicate FileInStep(s: State)
  {
    Transferring(s) && s.session.Session? && PathOf(s.session.profile) in s.files ==>
      var content := s.files[PathOf(s.session.profile)];
      |s.accepted| <= |content| <= s.framing.total && content[..|s.accepted|] == s.accepted
  }

  /** Each transfer published at most once, with the whole content, in order. */
  predicate PublishedInOrder(s: State)
  {
    && (forall i :: 0 <= i < |s.published| ==>
          var e := s.published[i]; 0 < e.transfer <= s.begun && e.content == e.sent && |e.sent| == e.total)
    && (forall i, j :: 0 <= i < j < |s.published| ==> s.published[i].transfer < s.published[j].transfer)
    && (s.framing.Framing? ==> 0 < s.begun && (s.published != [] ==> s.published[|s.published| - 1].transfer < s.begun))
  }

  predicate Inv(s: State)
  {
    InStep(s) && FileInStep(s) && PublishedInOrder(s)
  }

  /** A write that fails, or stops short, leaves the transfer where it was. */
  lemma FailedWriteKeepsInv(s: State, data: seq<byte>, io: Io)
    requires Inv(s) && FeedContent(s, data, io).0 != 0
    ensures Inv(FeedContent(s, data, io).1)
  {
  }

  lemma CompletingWriteKeepsInv(s: State, data: seq<byte>, io: Io)
    requires Inv(s) && FeedContent(s, data, io).0 == 0 && s.framing.off + |data| == s.framing.total
    ensures Inv(FeedContent(s, data, io).1)
  {
  }

  lemma WriteKeepsInv(s: State, data: seq<byte>, io: Io)
    requires Inv(s) && FeedContent(s, data, io).0 == 0 && s.framing.off + |data| < s.framing.total
    ensures Inv(FeedContent(s, data, io).1)
  {
  }

  lemma ContentKeepsInv(s: State, data: seq<byte>, io: Io)
    requires Inv(s)
    ensures Inv(FeedContent(s, data, io).1)
  {
    if FeedContent(s, data, io).0 != 0 {
      FailedWriteKeepsInv(s, data, io);
    } else if s.framing.off + |data| == s.framing.total {
      CompletingWriteKeepsInv(s, data, io);
    } else {
      WriteKeepsInv(s, data, io);
    }
  }

  lemma NameKeepsInv(s: State, data: seq<byte>, routing: Routing, io: Io)
    requires Inv(s)
    ensures Inv(FeedName(s, data, routing, io).1)
  {
  }

  lemma StepKeepsInv(s: State, maxBytes: nat, c: Call)
    requires Inv(s)
    ensures Inv(Apply(s, maxBytes, c))
  {
    match c {
      case ContentCall(data, io) => ContentKeepsInv(s, data, io);
      case NameCall(data, routing, io) => NameKeepsInv(s, data, routing, io);
      case _ =>
    }
  }

  lemma {:induction false} RunsKeepInv(maxBytes: nat, calls: seq<Call>)
    ensures Inv(Run(START, maxBytes, calls))
  {
    if calls != [] {
      RunsKeepInv(maxBytes, calls[..|calls| - 1]);
      StepKeepsInv(Run(START, maxBytes, calls[..|calls| - 1]), maxBytes, calls[|calls| - 1]);
    }
  }

  // ---------------------------------------------------------------- names

  /** What the calls since the last accepted begin have said of the file: the pieces of its name, where it goes. */
  datatype Said = Said(declared: nat, total: nat, name: seq<byte>, profile: Option<Profile>)

  predicate BeginAccepted(s: State, maxBytes: nat, total: nat, nameLen: nat)
  {
    && 0 < nameLen < 96 && 0 < total <= maxBytes
    && s.framing.NoFraming? && s.session.NoSession?
  }

  /** A piece is taken behind the ones before as long as the name is not complete and does not get too long. */
  function SaidNext(s: State, maxBytes: nat, d: Said, c: Call): Said
  {
    match c
    case BeginCall(total, nameLen) =>
      if BeginAccepted(s, maxBytes, total, nameLen) then Said(nameLen, total, [], None) else d
    case NameCall(data, routing, _) =>
      if |d.name| < d.declared && |d.name| + |data| <= d.declared then
        d.(name := d.name + data,
           profile := if |d.name| + |data| == d.declared && routing.Routed? then Some(routing.profile) else d.profile)
      else d
    case _ => d
  }

  function SaidAfter(maxBytes: nat, calls: seq<Call>): Said
  {
    if calls == [] then Said(0, 0, [], None)
    else
      var before := calls[..|calls| - 1];
      SaidNext(Run(START, maxBytes, before), maxBytes, SaidAfter(maxBytes, before), calls[|calls| - 1])
  }

  /** The call publishes an event. */
  predicate Publishes(s: State, maxBytes: nat, c: Call)
  {
    |Apply(s, maxBytes, c).published| > |s.published|
  }

  /** What had been said of the file published last. */
  function SaidOfPublished(maxBytes: nat, calls: seq<Call>): Said
  {
    if calls == [] then Said(0, 0, [], None)
    else
      var before := calls[..|calls| - 1];
      if Publishes(Run(START, maxBytes, before), maxBytes, calls[|calls| - 1]) then SaidAfter(maxBytes, before)
      else SaidOfPublished(maxBytes, before)
  }

  /** Framing, session and event carry what was said. */
  ghost predicate AsSaid(s: State, now: Said, published: Said)
  {
    && (s.framing.Framing? ==>
          && s.framing.name == now.name && s.framing.nameLen == now.declared && s.framing.total == now.total
          && (s.framing.nameDone <==> |now.name| == now.declared))
    && (s.session.Session? ==>
          && |now.name| == now.declared && s.session.fileName == now.name && s.session.alloc == now.total
          && now.profile == Some(s.session.profile))
    && (s.pending.Pending? ==>
          && s.pending.fileName == published.name && s.pending.total == published.total
          && published.profile == Some(s.pending.profile))
  }

  lemma NameAsSaid(s: State, maxBytes: nat, now: Said, published: Said, c: Call)
    requires Inv(s) && AsSaid(s, now, published) && c.NameCall?
    ensures AsSaid(Apply(s, maxBytes, c), SaidNext(s, maxBytes, now, c), published)
  {
  }

  lemma ContentAsSaid(s: State, maxBytes: nat, now: Said, published: Said, c: Call)
    requires Inv(s) && AsSaid(s, now, published) && c.ContentCall?
    ensures AsSaid(Apply(s, maxBytes, c), now, if Publishes(s, maxBytes, c) then now else published)
  {
  }

  lemma StepAsSaid(s: State, maxBytes: nat, now: Said, published: Said, c: Call)
    requires Inv(s) && AsSaid(s, now, published)
    ensures AsSaid(Apply(s, maxBytes, c), SaidNext(s, maxBytes, now, c),
                   if Publishes(s, maxBytes, c) then now else published)
  {
    match c {
      case NameCall(_, _, _) => NameAsSaid(s, maxBytes, now, published, c);
      case ContentCall(_, _) => ContentAsSaid(s, maxBytes, now, published, c);
      case _ =>
    }
  }

  /**
   * Over every run the name is the concatenation of the pieces accepted since the last accepted begin; once it
   * is complete it is that of the session, and from publication on that of the event, with the profile it was
   * routed to and the size announced.
   */
  lemma {:induction false} NamesAreAsSaid(maxBytes: nat, calls: seq<Call>)
    ensures AsSaid(Run(START, maxBytes, calls), SaidAfter(maxBytes, calls), SaidOfPublished(maxBytes, calls))
  {
    if calls != [] {
      var before := calls[..|calls| - 1];
      NamesAreAsSaid(maxBytes, before);
      RunsKeepInv(maxBytes, before);
      StepAsSaid(Run(START, maxBytes, before), maxBytes, SaidAfter(maxBytes, before), SaidOfPublished(maxBytes, before),
                 calls[|calls| - 1]);
    }
  }

  // ---------------------------------------------------------------- completion

  /** Content is taken whole or refused; the event is published exactly when the offset reaches the total. */
  lemma ContentOutcome(s: State, data: seq<byte>, io: Io)
    requires Inv(s)
    ensures var (result, t) := FeedContent(s, data, io);
            && (result == 0 ==> Transferring(s) && t.accepted == s.accepted + data)
            && (result != 0 ==> t == s.(files := t.files) && s.files.Keys == t.files.Keys)
            && (t.published != s.published <==> result == 0 && |t.accepted| == s.framing.total)
            && (result == 0 && |t.accepted| < s.framing.total ==> t.framing == s.framing.(off := |t.accepted|))
            && (t.published != s.published ==>
                  && t.framing.NoFraming? && t.session.staging.None? && !t.session.open
                  && t.pending.Pending? && t.pending.active && t.pending.received == t.pending.total == |t.accepted|
                  && t.pending.path in t.files && t.files[t.pending.path] == t.accepted
                  && t.published ==
                     s.published + [Published(s.begun, t.pending.path, t.accepted, t.accepted, |t.accepted|)])
  {
  }

  /** In every run: each transfer is published at most once, with exactly its content, at exactly its size. */
  lemma PublishedOnce(maxBytes: nat, calls: seq<Call>, i: nat, j: nat)
    requires i < j < |Run(START, maxBytes, calls).published|
    ensures var s := Run(START, maxBytes, calls);
            && s.published[i].transfer < s.published[j].transfer <= s.begun
            && s.published[i].content == s.published[i].sent && |s.published[i].sent| == s.published[i].total
  {
    RunsKeepInv(maxBytes, calls);
  }

  /** The poll loop delivers an event at most once. */
  lemma DrainedOnce(s: State, appKnown: bool, again: bool)
    ensures Drain(s, appKnown).0 == 0 <==> s.pending.Pending? && s.pending.active && appKnown
    ensures Drain(s, appKnown).0 == 0 ==> Drain(Drain(s, appKnown).1, again).0 == -ENOENT
    ensures Drain(s, appKnown).1.files == s.files && Drain(s, appKnown).1.pending.Pending? == s.pending.Pending?
  {
  }

  // ---------------------------------------------------------------- answers and clearing up

  /** When a begin is granted, and how it is refused otherwise. */
  lemma BeginAnswers(s: State, maxBytes: nat, total: nat, nameLen: nat)
    ensures var (result, t) := BeginFramed(s, maxBytes, total, nameLen);
            var proper := 0 < nameLen < 96 && 0 < total <= maxBytes;
            && (result == 0 <==> BeginAccepted(s, maxBytes, total, nameLen))
            && (result == 0x0a <==> proper && !BeginAccepted(s, maxBytes, total, nameLen))
            && (result == 0x03 <==> !proper)
            && (result != 0 ==> t == s) && t.session == s.session && t.pending == s.pending && t.files == s.files
  {
  }

  /** A piece is refused outside a name or past its length; the last one answers for the routing and the opening. */
  lemma NameAnswers(s: State, data: seq<byte>, routing: Routing, io: Io)
    requires Inv(s)
    ensures var (result, t) := FeedName(s, data, routing, io);
            var naming := s.framing.Framing? && !s.framing.nameDone;
            var size := if naming then |s.framing.name| + |data| else 0;
            && (!naming ==> result == -22 && t == s)
            && (naming && size > s.framing.nameLen ==> result == 0x03 && t == s)
            && (naming && size < s.framing.nameLen ==> result == 0 && t.session == s.session && t.files == s.files)
            && (naming && size == s.framing.nameLen ==>
                  && (result == 0 <==> routing.Routed? && io.open == 0)
                  && (routing.Ambiguous? ==> result == 0x11) && (routing.Unroutable? ==> result == 0x03)
                  && (routing.Routed? ==> result == io.open)
                  && (result != 0 ==> t == s.(framing := NoFraming))
                  && (result == 0 ==> Transferring(t) && t.accepted == []
                                      && t.files == s.files[PathOf(routing.profile) := []]))
  {
  }

  /** Content is refused before the name is complete and past the total; otherwise the file system decides. */
  lemma ContentAnswers(s: State, data: seq<byte>, io: Io)
    requires Inv(s)
    ensures var result := FeedContent(s, data, io).0;
            && (!Transferring(s) <==> result == -22 && FeedContent(s, data, io).1 == s && !Transferring(s))
            && (Transferring(s) && |s.accepted| + |data| > s.framing.total ==> result == -27)
            && (Transferring(s) && |s.accepted| + |data| <= s.framing.total ==>
                  (result == 0 <==> PathOf(s.session.profile) in s.files && io.seek == io.write == 0
                                    && |data| <= io.room))
  {
  }

  /** Dropping a session leaves nothing of it, its file only if that cannot be unlinked, and no other file touched. */
  lemma AbandonOutcome(s: State, io: Io)
    ensures var t := Abandon(s, io);
            && t.framing.NoFraming? && t.session.NoSession? && t.pending == s.pending && t.published == s.published
            && forall path ::
                 var owned := s.session.Session? && s.session.staging == Some(path);
                 && (path in t.files <==> path in s.files && !(owned && !io.unlinkFails))
                 && (path in t.files ==> t.files[path] == s.files[path])
  {
  }

  /** A clean-up leaves no event and, unless it cannot be unlinked, not its file; nothing else is touched. */
  lemma CleanupOutcome(s: State, io: Io)
    ensures var t := Cleanup(s, io);
            && t.pending.NoPending? && t.framing == s.framing && t.session == s.session && t.published == s.published
            && forall path ::
                 var handed := s.pending.Pending? && s.pending.path == path;
                 && (path in t.files <==> path in s.files && !(handed && !io.unlinkFails))
                 && (path in t.files ==> t.files[path] == s.files[path])
  {
  }

  // ---------------------------------------------------------------- what becomes of an event

  predicate Waits(s: State)
  {
    s.pending.Pending? && s.pending.active
  }

  /** The poll loop takes the event. */
  predicate Delivers(s: State, c: Call)
  {
    c.DrainCall? && Waits(s) && c.appKnown
  }

  /** Another transfer completes, or somebody cleans up: the event is overwritten or dropped. */
  predicate Overtakes(s: State, c: Call)
  {
    c.CleanupCall? || (c.ContentCall? && FeedContent(s, c.data, c.io).1.published != s.published)
  }

  predicate SameEvent(s: State, t: State)
  {
    t.pending == s.pending && t.published == s.published
  }

  lemma StepWaitsExactly(s: State, maxBytes: nat, c: Call)
    requires Waits(s)
    ensures SameEvent(s, Apply(s, maxBytes, c)) <==> !Delivers(s, c) && !Overtakes(s, c)
  {
  }

  /** After `k` calls the event of `s` has been waiting all along. */
  ghost predicate WaitedUntil(s: State, maxBytes: nat, calls: seq<Call>, k: nat)
    requires k <= |calls|
  {
    forall j :: 0 <= j <= k ==> SameEvent(s, Run(s, maxBytes, calls[..j]))
  }

  ghost predicate Delivered(s: State, maxBytes: nat, calls: seq<Call>)
  {
    exists k: nat ::
      k < |calls| && WaitedUntil(s, maxBytes, calls, k) && Delivers(Run(s, maxBytes, calls[..k]), calls[k])
  }

  ghost predicate Lost(s: State, maxBytes: nat, calls: seq<Call>)
  {
    exists k: nat ::
      k < |calls| && WaitedUntil(s, maxBytes, calls, k) && Overtakes(Run(s, maxBytes, calls[..k]), calls[k])
  }

  /** How long an event waits. */
  lemma {:induction false} FirstEnd(s: State, maxBytes: nat, calls: seq<Call>) returns (k: nat)
    requires Waits(s)
    ensures k <= |calls| && WaitedUntil(s, maxBytes, calls, k)
    ensures k < |calls| ==>
              var t := Run(s, maxBytes, calls[..k]); Delivers(t, calls[k]) || Overtakes(t, calls[k])
  {
    if calls == [] {
      k := 0;
      assert calls[..0] == [];
    } else {
      var n := |calls| - 1;
      var before := calls[..n];
      k := FirstEnd(s, maxBytes, before);
      assert forall j :: 0 <= j <= n ==> before[..j] == calls[..j];
      if k == n {
        var t := Run(s, maxBytes, before);
        StepWaitsExactly(t, maxBytes, calls[n]);
        if !Delivers(t, calls[n]) && !Overtakes(t, calls[n]) {
          k := |calls|;
          assert calls[..|calls|] == calls;
        }
      }
    }
  }

  /** While an event has been waiting, nothing has taken or overtaken it. */
  lemma WaitedUntaken(s: State, maxBytes: nat, calls: seq<Call>, k: nat, j: nat)
    requires Waits(s) && j < k <= |calls| && WaitedUntil(s, maxBytes, calls, k)
    ensures var t := Run(s, maxBytes, calls[..j]); !Delivers(t, calls[j]) && !Overtakes(t, calls[j])
  {
    assert calls[..j + 1][..j] == calls[..j];
    assert SameEvent(s, Run(s, maxBytes, calls[..j])) && SameEvent(s, Run(s, maxBytes, calls[..j + 1]));
    StepWaitsExactly(Run(s, maxBytes, calls[..j]), maxBytes, calls[j]);
  }

  /**
   * A published event is delivered exactly if the poll loop drains it before another transfer completes or
   * somebody cleans up, and lost exactly if one of these comes first.
   */
  lemma DeliveredExactly(s: State, maxBytes: nat, calls: seq<Call>)
    requires Waits(s)
    ensures Delivered(s, maxBytes, calls) <==>
            exists k: nat :: k < |calls| && Delivers(Run(s, maxBytes, calls[..k]), calls[k])
              && forall j: nat :: j < k ==> !Overtakes(Run(s, maxBytes, calls[..j]), calls[j])
    ensures Lost(s, maxBytes, calls) <==>
            exists k: nat :: k < |calls| && Overtakes(Run(s, maxBytes, calls[..k]), calls[k])
              && forall j: nat :: j < k ==> !Delivers(Run(s, maxBytes, calls[..j]), calls[j])
    ensures !(Delivered(s, maxBytes, calls) && Lost(s, maxBytes, calls))
  {
    var end := FirstEnd(s, maxBytes, calls);
    forall k: nat, j: nat | j < k <= |calls| && WaitedUntil(s, maxBytes, calls, k)
      ensures var t := Run(s, maxBytes, calls[..j]); !Delivers(t, calls[j]) && !Overtakes(t, calls[j])
    {
      WaitedUntaken(s, maxBytes, calls, k, j);
    }
    if end < |calls| {
      var t := Run(s, maxBytes, calls[..end]);
      assert SameEvent(s, t);
      assert !(Delivers(t, calls[end]) && Overtakes(t, calls[end]));
    }
  }

  // ---------------------------------------------------------------- the handed-off file

  predicate Owns(s: State, path: Path)
  {
    s.session.Session? && s.session.staging == Some(path)
  }

  /** A call that completes the name and opens the staging file at `path` for it. */
  predicate Opens(s: State, c: Call, path: Path)
  {
    && c.NameCall? && s.framing.Framing? && !s.framing.nameDone && s.session.NoSession?
    && |s.framing.name| + |c.data| == s.framing.nameLen
    && c.routing.Routed? && PathOf(c.routing.profile) == path && c.io.open == 0
  }

  /** A clean-up that succeeds for `path`. */
  predicate Cleans(s: State, c: Call, path: Path)
  {
    c.CleanupCall? && s.pending.Pending? && s.pending.path == path && !c.io.unlinkFails
  }

  /**
   * A file the session does not own keeps its content exactly unless it is cleaned up or opened anew; only
   * the second makes the session its owner.
   */
  lemma StepSparesExactly(s: State, maxBytes: nat, c: Call, path: Path)
    requires Inv(s) && path in s.files && !Owns(s, path)
    ensures var t := Apply(s, maxBytes, c);
            && (path in t.files && t.files[path] == s.files[path]
                <==> !Cleans(s, c, path) && !(Opens(s, c, path) && s.files[path] != []))
            && (Owns(t, path) <==> Opens(s, c, path))
  {
  }

  /** No call of a run cleans the file up or opens it anew. */
  ghost predicate RunSpares(s: State, maxBytes: nat, calls: seq<Call>, path: Path)
  {
    forall k :: 0 <= k < |calls| ==>
      !Cleans(Run(s, maxBytes, calls[..k]), calls[k], path) && !Opens(Run(s, maxBytes, calls[..k]), calls[k], path)
  }

  /** A completed transfer's file outlives any number of aborts, resets, and transfers that do not open its path. */
  lemma {:induction false} HandedOffFileSurvives(s: State, maxBytes: nat, calls: seq<Call>, path: Path)
    requires Inv(s) && path in s.files && !Owns(s, path) && RunSpares(s, maxBytes, calls, path)
    ensures var t := Run(s, maxBytes, calls);
            Inv(t) && path in t.files && t.files[path] == s.files[path] && !Owns(t, path)
  {
    if calls != [] {
      var before := calls[..|calls| - 1];
      assert forall k :: 0 <= k < |before| ==> before[..k] == calls[..k];
      HandedOffFileSurvives(s, maxBytes, before, path);
      StepSparesExactly(Run(s, maxBytes, before), maxBytes, calls[|calls| - 1], path);
      StepKeepsInv(Run(s, maxBytes, before), maxBytes, calls[|calls| - 1]);
    }
  }

  /** From the completing write on: the content handed over is what the consumer reads. */
  lemma CompletedContentSurvives(s: State, maxBytes: nat, data: seq<byte>, io: Io, calls: seq<Call>)
    requires Inv(s) && FeedContent(s, data, io).1.published != s.published
    requires RunSpares(FeedContent(s, data, io).1, maxBytes, calls, FeedContent(s, data, io).1.pending.path)
    ensures var t := FeedContent(s, data, io).1;
            t.pending.path in Run(t, maxBytes, calls).files
            && Run(t, maxBytes, calls).files[t.pending.path] == s.accepted + data
  {
    ContentOutcome(s, data, io);
    ContentKeepsInv(s, data, io);
    var t := FeedContent(s, data, io).1;
    HandedOffFileSurvives(t, maxBytes, calls, t.pending.path);
  }

  /** An abort takes the waiting file exactly when a later transfer to the same profile is under way. */
  lemma AbandonTakesWaitingFile(s: State, io: Io)
    requires Inv(s) && s.pending.Pending? && s.pending.path in s.files
    ensures s.pending.path !in Abandon(s, io).files
            <==> Transferring(s) && PathOf(s.session.profile) == s.pending.path && !io.unlinkFails
  {
  }

  const FINE := Io(0, 0, 0, 1000, false)

  /** And that happens: complete, begin again under the same profile, which already empties the file, abort. */
  lemma SecondTransferTakesWaitingFile(p: Profile)
    ensures var first := [BeginCall(1, 1), NameCall([65], Routed(p), FINE), ContentCall([7], FINE), AbandonCall(FINE)];
            var s := Run(START, 1000, first);
            var again := first + [BeginCall(1, 1), NameCall([66], Routed(p), FINE)];
            var t, u := Run(START, 1000, again + [AbandonCall(FINE)]), Run(START, 1000, again);
            && s.pending.Pending? && s.pending.active && PathOf(p) == s.pending.path && s.files == map[PathOf(p) := [7]]
            && u.pending == s.pending && u.files == map[PathOf(p) := []]
            && t.pending == s.pending && t.files == map[]
  {
    var c1, c2, c3, c4 := BeginCall(1, 1), NameCall([65], Routed(p), FINE), ContentCall([7], FINE), AbandonCall(FINE);
    var c6 := NameCall([66], Routed(p), FINE);
    var q := PathOf(p);
    Unrolled(c1, c2, c3, c4);
    var s2 := Apply(Apply(START, 1000, c1), 1000, c2);
    assert s2.files == map[q := []] && s2.session == Session(p, [65], Some(q), true, 1, 0);
    var s3 := Apply(s2, 1000, c3);
    assert WriteAt([], 0, [7]) == [7];
    assert s3.files == map[q := [7]] && s3.pending == Pending(true, p, [65], q, 1, 1);
    var s4 := Apply(s3, 1000, c4);
    assert s4 == State(NoFraming, NoSession, s3.pending, map[q := [7]], 1, [7], s3.published);
    var t2 := Apply(Apply(s4, 1000, c1), 1000, c6);
    assert t2.files == map[q := []] && t2.session == Session(p, [66], Some(q), true, 1, 0);
    assert Apply(t2, 1000, c4).files == map[];
    RunExtends(START, 1000, [c1, c2, c3, c4], c1);
    RunExtends(START, 1000, [c1, c2, c3, c4, c1], c6);
    RunExtends(START, 1000, [c1, c2, c3, c4, c1, c6], c4);
    assert [c1, c2, c3, c4] + [c1] == [c1, c2, c3, c4, c1];
    assert [c1, c2, c3, c4, c1] + [c6] == [c1, c2, c3, c4, c1, c6];
    assert [c1, c2, c3, c4, c1, c6] == [c1, c2, c3, c4] + [c1, c6];
  }

  lemma Unrolled(a: Call, b: Call, c: Call, d: Call)
    ensures Run(START, 1000, [a, b, c, d])
            == Apply(Apply(Apply(Apply(START, 1000, a), 1000, b), 1000, c), 1000, d)
  {
    RunExtends(START, 1000, [], a);
    RunExtends(START, 1000, [a], b);
    RunExtends(START, 1000, [a, b], c);
    RunExtends(START, 1000, [a, b, c], d);
    assert [] + [a] == [a] && [a] + [b] == [a, b] && [a, b] + [c] == [a, b, c] && [a, b, c] + [d] == [a, b, c, d];
  }

  lemma RunExtends(s: State, maxBytes: nat, calls: seq<Call>, c: Call)
    ensures Run(s, maxBytes, calls + [c]) == Apply(Run(s, maxBytes, calls), maxBytes, c)
  {
    assert (calls + [c])[..|calls|] == calls;
  }
}
