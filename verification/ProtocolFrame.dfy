/**
 * The SQDP frame: a 20-byte header (magic, kind, opcode, status, reserved byte, sequence, payload
 * length, payload checksum) and the payload. The host writes it, the firmware and the host read it.
 */
module ProtocolFrame {
  import opened Bytes
  import opened Crc32

  datatype Frame = Frame(kind: byte, opcode: byte, status: byte, sequence: nat, payload: seq<byte>)

  datatype Error = TruncatedHeader | BadMagic | LengthMismatch | PayloadCrc

  datatype Decoded = Accepted(frame: Frame) | Rejected(error: Error)

  const MAGIC: seq<byte> := [0x53, 0x51, 0x44, 0x50]
  const HEADER_LEN := 20
  const WORD_SPAN := 0x1_0000_0000

  /** How many values the device's 32-bit sizes have. */
  const SIZE_SPAN := 0x1_0000_0000

  /** A 32-bit word as four bytes, least significant first. */
  function WordBytes(w: bv32): (s: seq<byte>)
    ensures |s| == 4
  {
    [(w & 0xff) as bv8, ((w >> 8) & 0xff) as bv8, ((w >> 16) & 0xff) as bv8, (w >> 24) as bv8]
  }

  /** The firmware's little-endian read of a word. */
  function ReadWord(a: byte, b: byte, c: byte, d: byte): bv32
  {
    (a as bv32) | ((b as bv32) << 8) | ((c as bv32) << 16) | ((d as bv32) << 24)
  }

  lemma WordRoundTrip(w: bv32)
    ensures var s := WordBytes(w); ReadWord(s[0], s[1], s[2], s[3]) == w
  {
  }

  lemma WordBack(a: byte, b: byte, c: byte, d: byte)
    ensures WordBytes(ReadWord(a, b, c, d)) == [a, b, c, d]
  {
  }

  predicate Sendable(f: Frame)
  {
    f.sequence < WORD_SPAN && |f.payload| < WORD_SPAN
  }

  /** The bytes of a frame with an arbitrary value in the byte no reader looks at. */
  function Wire(f: Frame, reserved: byte): (s: seq<byte>)
    ensures |s| == HEADER_LEN + |f.payload|
  {
    MAGIC + [f.kind, f.opcode, f.status, reserved] + LeBytes(f.sequence, 4) + LeBytes(|f.payload|, 4)
    + WordBytes(Checksum(f.payload)) + f.payload
  }

  /** The host's encoder; a field that does not fit its width is an error. */
  method EncodeFrame(f: Frame) returns (ok: bool, bytes: seq<byte>)
    ensures ok <==> Sendable(f)
    ensures ok ==> bytes == Wire(f, 0)
  {
    bytes := [];
    ok := f.sequence < WORD_SPAN && |f.payload| < WORD_SPAN;
    if !ok {
      return;
    }
    var header := MAGIC;
    header := header + [f.kind, f.opcode, f.status, 0];
    header := header + LeBytes(f.sequence, 4);
    header := header + LeBytes(|f.payload|, 4);
    var crc := Compute(f.payload);
    header := header + WordBytes(crc);
    bytes := header + f.payload;
  }

  /** The firmware's decoder: the checks in the order the firmware makes them. */
  function Decode(bytes: seq<byte>): Decoded
  {
    if |bytes| < HEADER_LEN then Rejected(TruncatedHeader)
    else if bytes[..4] != MAGIC then Rejected(BadMagic)
    else if |bytes| != HEADER_LEN + LeValue(bytes[12..16]) then Rejected(LengthMismatch)
    else if Checksum(bytes[HEADER_LEN..]) != ReadWord(bytes[16], bytes[17], bytes[18], bytes[19]) then
      Rejected(PayloadCrc)
    else
      Accepted(Frame(bytes[4], bytes[5], bytes[6], LeValue(bytes[8..12]), bytes[HEADER_LEN..]))
  }

  lemma WrappedNeverMatches(len: nat, payloadLen: nat)
    requires HEADER_LEN <= len < SIZE_SPAN && payloadLen < WORD_SPAN
    ensures len == (HEADER_LEN + payloadLen) % SIZE_SPAN <==> len == HEADER_LEN + payloadLen
  {
  }

  /** The code; `bytes` has a size. The expected length may wrap, and then no length matches it. */
  method DecodeFrame(bytes: seq<byte>) returns (r: Decoded)
    requires |bytes| < SIZE_SPAN
    ensures r == Decode(bytes)
  {
    if |bytes| < HEADER_LEN {
      return Rejected(TruncatedHeader);
    }
    if bytes[..4] != MAGIC {
      return Rejected(BadMagic);
    }
    var payloadLen := LeValue(bytes[12..16]);
    WordField(bytes[12..16]);
    WrappedNeverMatches(|bytes|, payloadLen);
    var expectedLen := (HEADER_LEN + payloadLen) % SIZE_SPAN;
    if |bytes| != expectedLen {
      return Rejected(LengthMismatch);
    }
    var payload := bytes[HEADER_LEN..];
    var payloadCrc := ReadWord(bytes[16], bytes[17], bytes[18], bytes[19]);
    var crc := Compute(payload);
    if crc != payloadCrc {
      return Rejected(PayloadCrc);
    }
    r := Accepted(Frame(bytes[4], bytes[5], bytes[6], LeValue(bytes[8..12]), payload));
  }

  lemma SpanOfWord()
    ensures Span(4) == WORD_SPAN
  {
    assert Span(2) == 65536;
  }

  lemma WordField(s: seq<byte>)
    requires |s| == 4
    ensures LeValue(s) < WORD_SPAN && LeBytes(LeValue(s), 4) == s
    ensures WordBytes(ReadWord(s[0], s[1], s[2], s[3])) == s
  {
    SpanOfWord();
    LeBytesValue(s);
    WordBack(s[0], s[1], s[2], s[3]);
  }

  lemma HeaderPieces(bytes: seq<byte>)
    requires |bytes| >= HEADER_LEN
    ensures bytes == bytes[..4] + [bytes[4], bytes[5], bytes[6], bytes[7]] + bytes[8..12] + bytes[12..16]
                     + bytes[16..20] + bytes[HEADER_LEN..]
    ensures bytes[16..20] == [bytes[16], bytes[17], bytes[18], bytes[19]]
  {
  }

  lemma WireParts(f: Frame, reserved: byte)
    ensures var s := Wire(f, reserved);
            && s[..4] == MAGIC && s[4] == f.kind && s[5] == f.opcode && s[6] == f.status && s[7] == reserved
            && s[8..12] == LeBytes(f.sequence, 4) && s[12..16] == LeBytes(|f.payload|, 4)
            && s[16..20] == WordBytes(Checksum(f.payload)) && s[HEADER_LEN..] == f.payload
  {
  }

  /** The word's bytes by weight. */
  lemma WordBytesWeigh(w: bv32)
    ensures var s := WordBytes(w);
            w == (s[0] as bv32) | ((s[1] as bv32) << 8) | ((s[2] as bv32) << 16) | ((s[3] as bv32) << 24)
  {
  }

  /** Where everything is in a frame. */
  lemma WireLayout(f: Frame)
    requires Sendable(f)
    ensures var s := Wire(f, 0);
            && |s| == 20 + |f.payload|
            && s[0] == 0x53 && s[1] == 0x51 && s[2] == 0x44 && s[3] == 0x50
            && s[4] == f.kind && s[5] == f.opcode && s[6] == f.status && s[7] == 0
            && f.sequence == LittleEndian(s[8], s[9], s[10], s[11])
            && |f.payload| == LittleEndian(s[12], s[13], s[14], s[15])
            && Checksum(f.payload)
               == (s[16] as bv32) | ((s[17] as bv32) << 8) | ((s[18] as bv32) << 16) | ((s[19] as bv32) << 24)
            && s[20..] == f.payload
  {
    var s := Wire(f, 0);
    WireParts(f, 0);
    SpanOfWord();
    LeValueBytes(f.sequence, 4);
    LeValueBytes(|f.payload|, 4);
    FourDigits(s[8..12]);
    FourDigits(s[12..16]);
    WordBytesWeigh(Checksum(f.payload));
    assert s[16] == s[16..20][0] && s[17] == s[16..20][1] && s[18] == s[16..20][2] && s[19] == s[16..20][3];
    assert s[..4][0] == s[0] && s[..4][1] == s[1] && s[..4][2] == s[2] && s[..4][3] == s[3];
  }

  function LittleEndian(a: byte, b: byte, c: byte, d: byte): nat
  {
    a as int + 0x100 * b as int + 0x1_0000 * c as int + 0x100_0000 * d as int
  }

  lemma FourDigits(s: seq<byte>)
    requires |s| == 4
    ensures LeValue(s) == LittleEndian(s[0], s[1], s[2], s[3])
  {
    assert s[1..][1..] == s[2..] && s[2..][1..] == s[3..] && s[3..][1..] == [];
    assert LeValue(s[3..]) == s[3] as int;
    assert LeValue(s[2..]) == s[2] as int + 256 * LeValue(s[3..]);
    assert LeValue(s[1..]) == s[1] as int + 256 * LeValue(s[2..]);
  }

  /** Every layout of a sendable frame is accepted and gives the frame back. */
  lemma DecodeWire(f: Frame, reserved: byte)
    requires Sendable(f)
    ensures Decode(Wire(f, reserved)) == Accepted(f)
  {
    var s := Wire(f, reserved);
    WireParts(f, reserved);
    SpanOfWord();
    LeValueBytes(f.sequence, 4);
    LeValueBytes(|f.payload|, 4);
    var crc := Checksum(f.payload);
    WordRoundTrip(crc);
    var w := WordBytes(crc);
    assert s[16] == s[16..20][0] && s[17] == s[16..20][1] && s[18] == s[16..20][2] && s[19] == s[16..20][3];
  }

  /** A rejection names the first thing that is wrong: length, magic, declared length, checksum. */
  lemma RejectedFor(bytes: seq<byte>)
    ensures Decode(bytes) == Rejected(TruncatedHeader) <==> |bytes| < 20
    ensures Decode(bytes) == Rejected(BadMagic) <==> |bytes| >= 20 && bytes[..4] != [0x53, 0x51, 0x44, 0x50]
    ensures Decode(bytes) == Rejected(LengthMismatch) <==>
            && |bytes| >= 20 && bytes[..4] == [0x53, 0x51, 0x44, 0x50]
            && |bytes| != 20 + LittleEndian(bytes[12], bytes[13], bytes[14], bytes[15])
  {
    if |bytes| >= 20 {
      FourDigits(bytes[12..16]);
    }
  }

  /** Nothing else is accepted: an accepted byte string is the layout of the frame it decodes to. */
  lemma AcceptedIsWire(bytes: seq<byte>)
    requires Decode(bytes).Accepted?
    ensures Sendable(Decode(bytes).frame)
    ensures bytes == Wire(Decode(bytes).frame, bytes[7])
  {
    HeaderPieces(bytes);
    WordField(bytes[8..12]);
    WordField(bytes[12..16]);
    WordField(bytes[16..20]);
  }

  /** The decoder accepts exactly the layouts of sendable frames, whatever the reserved byte. */
  lemma DecodeCharacterised(bytes: seq<byte>, f: Frame)
    ensures Decode(bytes) == Accepted(f) <==> Sendable(f) && exists reserved :: bytes == Wire(f, reserved)
  {
    if Decode(bytes) == Accepted(f) {
      AcceptedIsWire(bytes);
    }
    if Sendable(f) && exists reserved :: bytes == Wire(f, reserved) {
      var reserved :| bytes == Wire(f, reserved);
      DecodeWire(f, reserved);
    }
  }

  /** Re-encoding what was accepted gives the same bytes exactly when the reserved byte was zero. */
  lemma ReencodeAccepted(bytes: seq<byte>)
    requires Decode(bytes).Accepted?
    ensures Wire(Decode(bytes).frame, 0) == bytes <==> bytes[7] == 0
  {
    AcceptedIsWire(bytes);
    WireParts(Decode(bytes).frame, 0);
  }

  /**
   * No frame whose payload suffered an error burst of at most 32 consecutive bits is accepted: it is
   * rejected for its checksum.
   */
  lemma CorruptedPayloadRejected(good: seq<byte>, bad: seq<byte>, at: nat)
    requires Decode(good).Accepted?
    requires |bad| == |good| && bad != good && bad[..HEADER_LEN] == good[..HEADER_LEN]
    requires forall i :: 0 <= i < 8 * (|good| - HEADER_LEN) && !(at <= i < at + 32) ==>
               Bits(good[HEADER_LEN..])[i] == Bits(bad[HEADER_LEN..])[i]
    ensures Decode(bad) == Rejected(PayloadCrc)
  {
    assert good == good[..HEADER_LEN] + good[HEADER_LEN..];
    assert bad == bad[..HEADER_LEN] + bad[HEADER_LEN..];
    BurstChangesChecksum(good[HEADER_LEN..], bad[HEADER_LEN..], at);
    assert bad[..4] == bad[..HEADER_LEN][..4] && good[..4] == good[..HEADER_LEN][..4];
    assert bad[12..16] == bad[..HEADER_LEN][12..16] && good[12..16] == good[..HEADER_LEN][12..16];
    forall k | 16 <= k < 20 ensures bad[k] == good[k] {
      assert bad[k] == bad[..HEADER_LEN][k] && good[k] == good[..HEADER_LEN][k];
    }
  }
}
