/**
 * The host's tag-type-length-value codec for frame payloads. Records nest to any depth. A text is
 * represented by its encoded bytes; which byte strings are texts is the parameter `utf8`.
 */
module FieldCodec {
  import opened Bytes
  import opened ProtocolFrame

  datatype Value =
    | Blob(bytes: seq<byte>)
    | Text(bytes: seq<byte>)
    | Bool(flag: bool)
    | I64(number: int)
    | U64(number: int)
    | Record(fields: seq<Field>)

  datatype Field = Field(tag: byte, value: Value)

  datatype Option<+T> = None | Some(value: T)

  datatype Error =
    TruncatedField | TruncatedValue | InvalidText | InvalidBool | InvalidI64 | InvalidU64 | UnknownType

  datatype Result<+T> = Ok(value: T) | Err(error: Error)

  const TYPE_BLOB: byte := 0
  const TYPE_TEXT: byte := 1
  const TYPE_BOOL: byte := 3
  const TYPE_I64: byte := 4
  const TYPE_U64: byte := 5
  const TYPE_RECORD: byte := 32

  const SPAN_16 := 0x1_0000
  const SPAN_63 := 0x8000_0000_0000_0000
  const SPAN_64 := 0x1_0000_0000_0000_0000

  function TypeId(v: Value): byte
  {
    match v
    case Blob(_) => TYPE_BLOB
    case Text(_) => TYPE_TEXT
    case Bool(_) => TYPE_BOOL
    case I64(_) => TYPE_I64
    case U64(_) => TYPE_U64
    case Record(_) => TYPE_RECORD
  }

  /** Two's complement in 64 bits, and back. */
  function Unsigned64(v: int): nat
    requires -SPAN_63 <= v < SPAN_63
  {
    if v < 0 then v + SPAN_64 else v
  }

  function Signed64(u: nat): int
  {
    if u >= SPAN_63 then u - SPAN_64 else u
  }

  /** The bytes of one value, or nothing where the encoder raises. */
  function EncodeValue(utf8: seq<byte> -> bool, v: Value): Option<seq<byte>>
    decreases v, 0
  {
    match v
    case Blob(bytes) => Some(bytes)
    case Text(bytes) => if utf8(bytes) then Some(bytes) else None
    case Bool(flag) => Some(if flag then [1] else [0])
    case I64(n) => if -SPAN_63 <= n < SPAN_63 then Some(LeBytes(Unsigned64(n), 8)) else None
    case U64(n) => if 0 <= n < SPAN_64 then Some(LeBytes(n, 8)) else None
    case Record(fields) => EncodeFields(utf8, fields)
  }

  function EncodeField(utf8: seq<byte> -> bool, f: Field): Option<seq<byte>>
    decreases f, 0
  {
    match EncodeValue(utf8, f.value)
    case None => None
    case Some(bytes) =>
      if |bytes| < SPAN_16 then Some([f.tag, TypeId(f.value)] + LeBytes(|bytes|, 2) + bytes) else None
  }

  /** The encoded list: fields one after another, first to last. */
  function EncodeFields(utf8: seq<byte> -> bool, fields: seq<Field>): Option<seq<byte>>
    decreases fields, 0
  {
    if fields == [] then Some([])
    else
      match EncodeField(utf8, fields[0])
      case None => None
      case Some(head) =>
        match EncodeFields(utf8, fields[1..])
        case None => None
        case Some(tail) => Some(head + tail)
  }

  function DecodeValue(utf8: seq<byte> -> bool, typeId: byte, bytes: seq<byte>): Result<Value>
    decreases |bytes|, 1
  {
    if typeId == TYPE_BLOB then Ok(Blob(bytes))
    else if typeId == TYPE_TEXT then if utf8(bytes) then Ok(Text(bytes)) else Err(InvalidText)
    else if typeId == TYPE_BOOL then
      if bytes == [0] then Ok(Bool(false)) else if bytes == [1] then Ok(Bool(true)) else Err(InvalidBool)
    else if typeId == TYPE_I64 then
      if |bytes| != 8 then Err(InvalidI64) else Ok(I64(Signed64(LeValue(bytes))))
    else if typeId == TYPE_U64 then
      if |bytes| != 8 then Err(InvalidU64) else Ok(U64(LeValue(bytes)))
    else if typeId == TYPE_RECORD then
      match DecodeFields(utf8, bytes) {
        case Ok(fields) => Ok(Record(fields))
        case Err(e) => Err(e)
      }
    else Err(UnknownType)
  }

  function DecodeFields(utf8: seq<byte> -> bool, payload: seq<byte>): Result<seq<Field>>
    decreases |payload|, 0
  {
    if payload == [] then Ok([])
    else if |payload| < 4 then Err(TruncatedField)
    else
      var n := LeValue(payload[2..4]);
      if |payload| - 4 < n then Err(TruncatedValue)
      else
        match DecodeValue(utf8, payload[1], payload[4..4 + n])
        case Err(e) => Err(e)
        case Ok(v) =>
          match DecodeFields(utf8, payload[4 + n..])
          case Err(e) => Err(e)
          case Ok(rest) => Ok([Field(payload[0], v)] + rest)
  }

  // ---------------------------------------------------------------- the loops of the host

  lemma {:induction false} EncodeSplit(utf8: seq<byte> -> bool, a: seq<Field>, b: seq<Field>)
    ensures EncodeFields(utf8, a + b) ==
            match (EncodeFields(utf8, a), EncodeFields(utf8, b))
            case (Some(x), Some(y)) => Some(x + y)
            case _ => None
    decreases |a|
  {
    if a == [] {
      assert a + b == b;
      assert EncodeFields(utf8, b).Some? ==> [] + EncodeFields(utf8, b).value == EncodeFields(utf8, b).value;
    } else {
      assert (a + b)[1..] == a[1..] + b;
      EncodeSplit(utf8, a[1..], b);
      if EncodeField(utf8, a[0]).Some? && EncodeFields(utf8, a[1..]).Some? && EncodeFields(utf8, b).Some? {
        var x, y, z := EncodeField(utf8, a[0]).value, EncodeFields(utf8, a[1..]).value, EncodeFields(utf8, b).value;
        assert x + (y + z) == (x + y) + z;
      }
    }
  }

  lemma EncodeOne(utf8: seq<byte> -> bool, f: Field)
    ensures EncodeFields(utf8, [f]) == EncodeField(utf8, f)
  {
    assert [f][1..] == [];
    if EncodeField(utf8, f).Some? {
      assert EncodeField(utf8, f).value + [] == EncodeField(utf8, f).value;
    }
  }

  method EncodeFieldList(utf8: seq<byte> -> bool, fields: seq<Field>) returns (r: Option<seq<byte>>)
    ensures r == EncodeFields(utf8, fields)
    decreases fields
  {
    var payload: seq<byte> := [];
    for i := 0 to |fields|
      invariant EncodeFields(utf8, fields[..i]) == Some(payload)
    {
      var f := fields[i];
      assert fields[..i + 1] == fields[..i] + [f];
      assert fields == fields[..i + 1] + fields[i + 1..];
      EncodeSplit(utf8, fields[..i], [f]);
      EncodeOne(utf8, f);
      EncodeSplit(utf8, fields[..i + 1], fields[i + 1..]);
      var bytes: seq<byte> := [];
      match f.value {
        case Blob(b) => bytes := b;
        case Text(b) =>
          if !utf8(b) { return None; }
          bytes := b;
        case Bool(flag) => bytes := if flag then [1] else [0];
        case I64(n) =>
          if !(-SPAN_63 <= n < SPAN_63) { return None; }
          bytes := LeBytes(Unsigned64(n), 8);
        case U64(n) =>
          if !(0 <= n < SPAN_64) { return None; }
          bytes := LeBytes(n, 8);
        case Record(inner) =>
          assert f.value < f;
          var nested := EncodeFieldList(utf8, inner);
          if nested.None? { return None; }
          bytes := nested.value;
      }
      if |bytes| >= SPAN_16 { return None; }
      payload := payload + ([f.tag, TypeId(f.value)] + LeBytes(|bytes|, 2) + bytes);
    }
    assert fields[..|fields|] == fields;
    r := Some(payload);
  }

  function Prepend(fields: seq<Field>, r: Result<seq<Field>>): Result<seq<Field>>
  {
    match r
    case Ok(rest) => Ok(fields + rest)
    case Err(e) => Err(e)
  }

  lemma PrependNothing(r: Result<seq<Field>>)
    ensures Prepend([], r) == r
  {
    if r.Ok? {
      assert [] + r.value == r.value;
    }
  }

  lemma PrependOne(fields: seq<Field>, f: Field, r: Result<seq<Field>>)
    ensures Prepend(fields, Prepend([f], r)) == Prepend(fields + [f], r)
  {
    if r.Ok? {
      assert fields + ([f] + r.value) == (fields + [f]) + r.value;
    }
  }

  /** One turn of the decoding loop, from `offset` on. */
  lemma DecodeHead(utf8: seq<byte> -> bool, payload: seq<byte>, offset: nat)
    requires offset + 4 <= |payload|
    ensures var rest := payload[offset..]; var n := LeValue(payload[offset + 2..offset + 4]);
            if |rest| - 4 < n then DecodeFields(utf8, rest) == Err(TruncatedValue)
            else
              var v := DecodeValue(utf8, payload[offset + 1], payload[offset + 4..offset + 4 + n]);
              DecodeFields(utf8, rest) ==
              if v.Err? then Err(v.error)
              else Prepend([Field(payload[offset], v.value)], DecodeFields(utf8, payload[offset + 4 + n..]))
  {
    var rest, n := payload[offset..], LeValue(payload[offset + 2..offset + 4]);
    assert payload[offset + 2..offset + 4] == rest[2..4];
    if |rest| - 4 >= n {
      assert payload[offset + 4..offset + 4 + n] == rest[4..4 + n] && payload[offset + 4 + n..] == rest[4 + n..];
    }
  }

  /** The fields so far, then what decoding from `offset` on yields. */
  function Continued(utf8: seq<byte> -> bool, payload: seq<byte>, fields: seq<Field>, offset: nat): Result<seq<Field>>
    requires offset <= |payload|
  {
    Prepend(fields, DecodeFields(utf8, payload[offset..]))
  }

  lemma ContinuedEnds(utf8: seq<byte> -> bool, payload: seq<byte>, fields: seq<Field>)
    ensures Continued(utf8, payload, [], 0) == DecodeFields(utf8, payload)
    ensures Continued(utf8, payload, fields, |payload|) == Ok(fields)
  {
    assert payload[0..] == payload && fields + [] == fields;
    PrependNothing(DecodeFields(utf8, payload));
  }

  lemma ContinuedFails(utf8: seq<byte> -> bool, payload: seq<byte>, fields: seq<Field>, offset: nat)
    requires offset < |payload|
    ensures |payload| < offset + 4 ==> Continued(utf8, payload, fields, offset) == Err(TruncatedField)
    ensures offset + 4 <= |payload| ==>
              var n := LeValue(payload[offset + 2..offset + 4]);
              if |payload| < offset + 4 + n then Continued(utf8, payload, fields, offset) == Err(TruncatedValue)
              else
                var v := DecodeValue(utf8, payload[offset + 1], payload[offset + 4..offset + 4 + n]);
                v.Err? ==> Continued(utf8, payload, fields, offset) == Err(v.error)
  {
    if offset + 4 <= |payload| {
      DecodeHead(utf8, payload, offset);
    }
  }

  lemma DecodeTurn(utf8: seq<byte> -> bool, payload: seq<byte>, offset: nat, n: nat, fields: seq<Field>)
    requires offset + 4 + n <= |payload| && n == LeValue(payload[offset + 2..offset + 4])
    requires DecodeValue(utf8, payload[offset + 1], payload[offset + 4..offset + 4 + n]).Ok?
    ensures var v := DecodeValue(utf8, payload[offset + 1], payload[offset + 4..offset + 4 + n]).value;
            var f := Field(payload[offset], v);
            Continued(utf8, payload, fields, offset) == Continued(utf8, payload, fields + [f], offset + 4 + n)
  {
    var v := DecodeValue(utf8, payload[offset + 1], payload[offset + 4..offset + 4 + n]).value;
    DecodeHead(utf8, payload, offset);
    PrependOne(fields, Field(payload[offset], v), DecodeFields(utf8, payload[offset + 4 + n..]));
  }

  method DecodeFieldList(utf8: seq<byte> -> bool, payload: seq<byte>) returns (r: Result<seq<Field>>)
    ensures r == DecodeFields(utf8, payload)
    decreases |payload|, 1
  {
    var fields: seq<Field> := [];
    var offset := 0;
    ContinuedEnds(utf8, payload, fields);
    while offset < |payload|
      invariant offset <= |payload|
      invariant Continued(utf8, payload, fields, offset) == Continued(utf8, payload, [], 0)
      decreases |payload| - offset
    {
      var f, next := DecodeNextField(utf8, payload, offset, fields);
      if f.Err? {
        return Err(f.error);
      }
      fields := fields + [f.value];
      offset := next;
    }
    ContinuedEnds(utf8, payload, fields);
    r := Ok(fields);
  }

  /** One field of the list; `fields` are those before it. */
  method DecodeNextField(utf8: seq<byte> -> bool, payload: seq<byte>, offset: nat, ghost fields: seq<Field>)
    returns (f: Result<Field>, next: nat)
    requires offset < |payload|
    ensures f.Err? ==> Continued(utf8, payload, fields, offset) == Err(f.error)
    ensures f.Ok? ==>
              offset < next <= |payload|
              && Continued(utf8, payload, fields, offset) == Continued(utf8, payload, fields + [f.value], next)
    decreases |payload|, 0
  {
    ContinuedFails(utf8, payload, fields, offset);
    next := offset;
    if |payload| - offset < 4 {
      return Err(TruncatedField), next;
    }
    var tag, typeId := payload[offset], payload[offset + 1];
    var n := LeValue(payload[offset + 2..offset + 4]);
    if |payload| - (offset + 4) < n {
      return Err(TruncatedValue), next;
    }
    var v := DecodeFieldValue(utf8, typeId, payload[offset + 4..offset + 4 + n]);
    if v.Err? {
      return Err(v.error), next;
    }
    DecodeTurn(utf8, payload, offset, n, fields);
    f := Ok(Field(tag, v.value));
    next := offset + 4 + n;
  }

  method DecodeFieldValue(utf8: seq<byte> -> bool, typeId: byte, bytes: seq<byte>) returns (r: Result<Value>)
    ensures r == DecodeValue(utf8, typeId, bytes)
    decreases |bytes|, 2
  {
    if typeId == TYPE_RECORD {
      var fields := DecodeFieldList(utf8, bytes);
      match fields {
        case Ok(list) => return Ok(Record(list));
        case Err(e) => return Err(e);
      }
    }
    r := DecodeValue(utf8, typeId, bytes);
  }

  // ---------------------------------------------------------------- both directions

  lemma SpanOf8()
    ensures Span(8) == SPAN_64 && Span(2) == SPAN_16
  {
    assert Span(2) == 0x1_0000;
    assert Span(4) == 0x1_0000_0000;
    assert Span(6) == 0x1_0000_0000_0000;
  }

  /** Decoding what the encoder wrote gives the value back, and its type. */
  lemma {:induction false} ValueRoundTrip(utf8: seq<byte> -> bool, v: Value)
    requires EncodeValue(utf8, v).Some?
    ensures DecodeValue(utf8, TypeId(v), EncodeValue(utf8, v).value) == Ok(v)
    decreases v, 0
  {
    SpanOf8();
    match v {
      case Blob(_) =>
      case Text(_) =>
      case Bool(_) =>
      case I64(n) => LeValueBytes(Unsigned64(n), 8);
      case U64(n) => LeValueBytes(n, 8);
      case Record(fields) => FieldsRoundTrip(utf8, fields);
    }
  }

  lemma {:induction false} FieldsRoundTrip(utf8: seq<byte> -> bool, fields: seq<Field>)
    requires EncodeFields(utf8, fields).Some?
    ensures DecodeFields(utf8, EncodeFields(utf8, fields).value) == Ok(fields)
    decreases fields, 0
  {
    if fields != [] {
      var f := fields[0];
      assert f.value < f;
      var bytes := EncodeValue(utf8, f.value).value;
      var tail := EncodeFields(utf8, fields[1..]).value;
      var n := |bytes|;
      var payload := EncodeFields(utf8, fields).value;
      assert payload == [f.tag, TypeId(f.value)] + LeBytes(n, 2) + bytes + tail;
      ValueRoundTrip(utf8, f.value);
      FieldsRoundTrip(utf8, fields[1..]);
      SpanOf8();
      LeValueBytes(n, 2);
      assert payload[2..4] == LeBytes(n, 2);
      assert payload[4..4 + n] == bytes && payload[4 + n..] == tail;
      assert [Field(f.tag, f.value)] + fields[1..] == fields;
    }
  }

  /** Every value the decoder accepts re-encodes to exactly the bytes it came from. */
  lemma {:induction false} AcceptedValueReencodes(utf8: seq<byte> -> bool, typeId: byte, bytes: seq<byte>)
    requires DecodeValue(utf8, typeId, bytes).Ok?
    ensures var v := DecodeValue(utf8, typeId, bytes).value;
            TypeId(v) == typeId && EncodeValue(utf8, v) == Some(bytes)
    decreases |bytes|, 1
  {
    SpanOf8();
    if typeId == TYPE_I64 || typeId == TYPE_U64 {
      LeBytesValue(bytes);
    } else if typeId == TYPE_RECORD {
      AcceptedPayloadReencodes(utf8, bytes);
    }
  }

  lemma HeadPieces(payload: seq<byte>, n: nat)
    requires |payload| >= 4 + n && n == LeValue(payload[2..4])
    ensures n < SPAN_16 && LeBytes(n, 2) == payload[2..4]
    ensures payload == [payload[0], payload[1]] + payload[2..4] + payload[4..4 + n] + payload[4 + n..]
  {
    SpanOf8();
    LeBytesValue(payload[2..4]);
  }

  /** Every payload the decoder accepts re-encodes to exactly the same bytes, however deep it nests. */
  lemma {:induction false} AcceptedPayloadReencodes(utf8: seq<byte> -> bool, payload: seq<byte>)
    requires DecodeFields(utf8, payload).Ok?
    ensures EncodeFields(utf8, DecodeFields(utf8, payload).value) == Some(payload)
    decreases |payload|, 0
  {
    if payload != [] {
      var n := LeValue(payload[2..4]);
      var bytes, tail := payload[4..4 + n], payload[4 + n..];
      HeadPieces(payload, n);
      AcceptedValueReencodes(utf8, payload[1], bytes);
      AcceptedPayloadReencodes(utf8, tail);
      var fields := DecodeFields(utf8, payload).value;
      assert fields[1..] == DecodeFields(utf8, tail).value;
      assert EncodeField(utf8, fields[0]) == Some([payload[0], payload[1]] + payload[2..4] + bytes);
    }
  }

  /** The codec is a bijection between encodable field lists and accepted payloads. */
  lemma CodecIsBijective(utf8: seq<byte> -> bool, fields: seq<Field>, payload: seq<byte>)
    ensures EncodeFields(utf8, fields) == Some(payload) <==> DecodeFields(utf8, payload) == Ok(fields)
  {
    if EncodeFields(utf8, fields) == Some(payload) {
      FieldsRoundTrip(utf8, fields);
    }
    if DecodeFields(utf8, payload) == Ok(fields) {
      AcceptedPayloadReencodes(utf8, payload);
    }
  }

  // ---------------------------------------------------------------- the bytes of the format

  /** The bytes of a value: themselves, one byte for a truth value, eight for a number, the fields for a record. */
  lemma ValueLayout(utf8: seq<byte> -> bool, v: Value)
    requires EncodeValue(utf8, v).Some?
    ensures var s := EncodeValue(utf8, v).value;
            match v
            case Blob(bytes) => s == bytes
            case Text(bytes) => s == bytes && utf8(bytes)
            case Bool(flag) => s == [if flag then 1 else 0]
            case I64(n) => |s| == 8 && -0x8000_0000_0000_0000 <= n < 0x8000_0000_0000_0000
                           && LeValue(s) == if n < 0 then n + 0x1_0000_0000_0000_0000 else n
            case U64(n) => |s| == 8 && 0 <= n < 0x1_0000_0000_0000_0000 && LeValue(s) == n
            case Record(fields) => EncodeFields(utf8, fields) == Some(s)
  {
    SpanOf8();
    match v {
      case I64(n) => LeValueBytes(Unsigned64(n), 8);
      case U64(n) => LeValueBytes(n, 8);
      case _ =>
    }
  }

  /** A value is refused exactly if it is no text, its number is out of range, or a field of it is refused. */
  lemma ValueRefused(utf8: seq<byte> -> bool, v: Value)
    ensures EncodeValue(utf8, v).None? <==>
            match v
            case Text(bytes) => !utf8(bytes)
            case I64(n) => !(-0x8000_0000_0000_0000 <= n < 0x8000_0000_0000_0000)
            case U64(n) => !(0 <= n < 0x1_0000_0000_0000_0000)
            case Record(fields) => EncodeFields(utf8, fields).None?
            case _ => false
  {
  }

  /** A field: its tag, the number of its type, its length low byte first, its value. */
  lemma FieldLayout(utf8: seq<byte> -> bool, f: Field)
    requires EncodeField(utf8, f).Some?
    ensures var s := EncodeField(utf8, f).value;
            && |s| >= 4 && s[0] == f.tag
            && s[1] == (match f.value
                        case Blob(_) => 0
                        case Text(_) => 1
                        case Bool(_) => 3
                        case I64(_) => 4
                        case U64(_) => 5
                        case Record(_) => 32)
            && |s| == 4 + s[2] as int + 0x100 * s[3] as int
            && EncodeValue(utf8, f.value) == Some(s[4..])
  {
    var n := |EncodeValue(utf8, f.value).value|;
    SpanOf8();
    LeValueBytes(n, 2);
    TwoDigits(LeBytes(n, 2));
  }

  lemma TwoDigits(s: seq<byte>)
    requires |s| == 2
    ensures LeValue(s) == s[0] as int + 0x100 * s[1] as int
  {
    assert s[1..][1..] == [];
    assert LeValue(s[1..]) == s[1] as int;
  }

  /** What a value is refused for when it is read. */
  lemma ValueErrors(utf8: seq<byte> -> bool, typeId: byte, bytes: seq<byte>)
    ensures var r := DecodeValue(utf8, typeId, bytes);
            && (r == Err(UnknownType) && typeId != 32 <==> typeId !in {0, 1, 3, 4, 5, 32})
            && (typeId == 1 ==> (r == Err(InvalidText) <==> !utf8(bytes)) && (r.Err? ==> r == Err(InvalidText)))
            && (typeId == 3 ==> (r == Err(InvalidBool) <==> bytes != [0] && bytes != [1]))
            && (typeId == 4 ==> (r == Err(InvalidI64) <==> |bytes| != 8))
            && (typeId == 5 ==> (r == Err(InvalidU64) <==> |bytes| != 8))
            && (typeId == 32 && r.Err? ==> DecodeFields(utf8, bytes) == Err(r.error))
  {
  }

  /** A payload too short for its first header, or for the length that announces, is refused for that. */
  lemma FirstTruncated(utf8: seq<byte> -> bool, payload: seq<byte>)
    requires payload != []
    ensures |payload| < 4 ==> DecodeFields(utf8, payload) == Err(TruncatedField)
    ensures |payload| >= 4 && |payload| < 4 + payload[2] as int + 0x100 * payload[3] as int ==>
              DecodeFields(utf8, payload) == Err(TruncatedValue)
  {
    if |payload| >= 4 {
      TwoDigits(payload[2..4]);
    }
  }

  // ---------------------------------------------------------------- whole messages

  datatype Message = Message(kind: byte, opcode: byte, status: byte, sequence: nat, fields: seq<Field>)

  datatype Received =
    | Received(message: Message)
    | BadFrame(frameError: ProtocolFrame.Error)
    | BadFields(fieldError: Error)

  function Receive(utf8: seq<byte> -> bool, bytes: seq<byte>): Received
  {
    match Decode(bytes)
    case Rejected(e) => BadFrame(e)
    case Accepted(f) =>
      match DecodeFields(utf8, f.payload)
      case Err(e) => BadFields(e)
      case Ok(fields) => Received(Message(f.kind, f.opcode, f.status, f.sequence, fields))
  }

  function ToFrame(m: Message, payload: seq<byte>): Frame
  {
    Frame(m.kind, m.opcode, m.status, m.sequence, payload)
  }

  /** A message decodes to itself, and only the layouts of its frame decode to it. */
  lemma MessageRoundTrip(utf8: seq<byte> -> bool, m: Message, bytes: seq<byte>)
    ensures Receive(utf8, bytes) == Received(m) <==>
              exists payload, reserved ::
                && EncodeFields(utf8, m.fields) == Some(payload)
                && Sendable(ToFrame(m, payload))
                && bytes == Wire(ToFrame(m, payload), reserved)
  {
    if Receive(utf8, bytes) == Received(m) {
      var f := Decode(bytes).frame;
      AcceptedIsWire(bytes);
      CodecIsBijective(utf8, m.fields, f.payload);
      assert f == ToFrame(m, f.payload);
    }
    forall payload, reserved |
      && EncodeFields(utf8, m.fields) == Some(payload)
      && Sendable(ToFrame(m, payload))
      && bytes == Wire(ToFrame(m, payload), reserved)
      ensures Receive(utf8, bytes) == Received(m)
    {
      DecodeWire(ToFrame(m, payload), reserved);
      CodecIsBijective(utf8, m.fields, payload);
    }
  }
}
