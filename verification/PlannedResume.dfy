/**
 * Planned sleep: the record of the app in front, its return stack and the armed apps, its fixed-size
 * encoding, and the way back after a wake-up. Bytes are the characters 0 to 255.
 */
module PlannedResume {
  import opened Lifecycle
  import opened LifecycleRuns

  const NUL := '\0'
  const MAGIC := "SQPR"
  const VERSION: char := 1 as char

  /** What `n` slots of `size` bytes take, that is, `n * size`. */
  function SizeOf(n: nat, size: nat): nat
  {
    if n == 0 then 0 else SizeOf(n - 1, size) + size
  }

  lemma {:induction false} SizeIsProduct(n: nat, size: nat)
    ensures SizeOf(n, size) == n * size
  {
    if n > 0 {
      SizeIsProduct(n - 1, size);
    }
  }

  /** Id buffers of `l.idMax` bytes, `l.stackMax` return slots and `armedMax` armed slots. */
  datatype Layout = Layout(l: Limits, armedMax: nat)
  {
    predicate Valid() {
      l.Valid() && l.stackMax <= 255 && armedMax <= 255
    }

    function ReturnCountAt(): nat {
      4 + 1 + l.idMax
    }

    function ArmedCountAt(): nat {
      ReturnCountAt() + 1 + SizeOf(l.stackMax, l.idMax)
    }

    function Length(): nat {
      ArmedCountAt() + 1 + SizeOf(armedMax, l.idMax)
    }
  }

  /** The record keeps whole buffers; slots beyond the counts are there too. */
  datatype Record = Record(
    current: string, returnCount: nat, returnStack: seq<string>, armedCount: nat, armed: seq<string>)

  predicate IsRecord(y: Layout, r: Record)
  {
    && |r.current| == y.l.idMax
    && |r.returnStack| == y.l.stackMax && (forall i :: 0 <= i < |r.returnStack| ==> |r.returnStack[i]| == y.l.idMax)
    && |r.armed| == y.armedMax && (forall i :: 0 <= i < |r.armed| ==> |r.armed[i]| == y.l.idMax)
    && r.returnCount <= 255 && r.armedCount <= 255
  }

  predicate Blank(buffer: string)
    requires buffer != ""
  {
    buffer[0] == NUL
  }

  // ---------------------------------------------------------------- encoding

  function Flatten(slots: seq<string>): string
  {
    if slots == [] then "" else Flatten(slots[..|slots| - 1]) + slots[|slots| - 1]
  }

  predicate Encodable(y: Layout, r: Record)
    requires y.Valid() && IsRecord(y, r)
  {
    r.returnCount <= y.l.stackMax && r.armedCount <= y.armedMax && !Blank(r.current)
  }

  function Encoded(r: Record): string
    requires r.returnCount <= 255 && r.armedCount <= 255
  {
    MAGIC + [VERSION] + r.current + [r.returnCount as char] + Flatten(r.returnStack)
    + [r.armedCount as char] + Flatten(r.armed)
  }

  method Encode(y: Layout, r: Record) returns (ok: bool, out: string)
    requires y.Valid() && IsRecord(y, r)
    ensures ok <==> Encodable(y, r)
    ensures ok ==> out == Encoded(r)
  {
    out := "";
    if r.returnCount > y.l.stackMax || r.armedCount > y.armedMax || r.current[0] == NUL {
      return false, out;
    }
    out := out + MAGIC;
    out := out + [VERSION];
    out := out + r.current;
    out := out + [r.returnCount as char];
    out := AppendSlots(out, r.returnStack);
    out := out + [r.armedCount as char];
    out := AppendSlots(out, r.armed);
    ok := true;
  }

  /** Copy the slots, one after the other, behind what is there. */
  method AppendSlots(head: string, slots: seq<string>) returns (out: string)
    ensures out == head + Flatten(slots)
  {
    out := head;
    for i := 0 to |slots|
      invariant out == head + Flatten(slots[..i])
    {
      assert slots[..i + 1][..i] == slots[..i];
      out := out + slots[i];
    }
    assert slots[..|slots|] == slots;
  }

  // ---------------------------------------------------------------- decoding

  /** A buffer read back: its last byte becomes the terminator. */
  function Terminated(buffer: string): (t: string)
    requires buffer != ""
    ensures |t| == |buffer|
  {
    buffer[..|buffer| - 1] + [NUL]
  }

  function SlotAt(y: Layout, bytes: string, at: nat): (slot: string)
    requires y.l.Valid() && at + y.l.idMax <= |bytes|
    ensures |slot| == y.l.idMax
  {
    Terminated(bytes[at..at + y.l.idMax])
  }

  lemma {:induction false} SlotBounds(n: nat, size: nat, i: nat)
    requires i < n
    ensures SizeOf(i + 1, size) == SizeOf(i, size) + size <= SizeOf(n, size)
  {
    if i + 1 < n {
      SlotBounds(n - 1, size, i);
    }
  }

  /** The first `n` of `max` slots from `at` on. */
  function Slots(y: Layout, bytes: string, at: nat, max: nat, n: nat): (slots: seq<string>)
    requires y.l.Valid() && n <= max && at + SizeOf(max, y.l.idMax) <= |bytes|
    ensures |slots| == n
  {
    if n == 0 then []
    else
      SlotBounds(max, y.l.idMax, n - 1);
      Slots(y, bytes, at, max, n - 1) + [SlotAt(y, bytes, at + SizeOf(n - 1, y.l.idMax))]
  }

  predicate NoneBlank(slots: seq<string>, n: nat)
  {
    forall i :: 0 <= i < n && i < |slots| ==> slots[i] != "" && !Blank(slots[i])
  }

  /** The record a byte string stands for, if it is one. */
  function Decoded(y: Layout, bytes: string): (r: Record)
    requires y.Valid() && |bytes| == y.Length() && forall i :: 0 <= i < |bytes| ==> bytes[i] as int <= 255
  {
    var a, b := y.ReturnCountAt(), y.ArmedCountAt();
    Record(SlotAt(y, bytes, 5), bytes[a] as int, Slots(y, bytes, a + 1, y.l.stackMax, y.l.stackMax),
           bytes[b] as int, Slots(y, bytes, b + 1, y.armedMax, y.armedMax))
  }

  predicate Acceptable(y: Layout, r: Record)
  {
    && r.current != "" && !Blank(r.current)
    && r.returnCount <= y.l.stackMax && NoneBlank(r.returnStack, r.returnCount)
    && r.armedCount <= y.armedMax && NoneBlank(r.armed, r.armedCount)
  }

  predicate Accepts(y: Layout, bytes: string)
    requires y.Valid() && forall i :: 0 <= i < |bytes| ==> bytes[i] as int <= 255
  {
    |bytes| == y.Length() && bytes[..4] == MAGIC && bytes[4] == VERSION && Acceptable(y, Decoded(y, bytes))
  }

  /** Slot `i` of those from `at` on, `size` bytes each, is there and does not begin with a terminator. */
  predicate Begins(bytes: string, at: nat, size: nat, i: nat)
  {
    at + i * size < |bytes| && bytes[at + i * size] != '\0'
  }

  predicate AllBegin(bytes: string, at: nat, size: nat, count: nat)
  {
    forall i: nat :: i < count ==> Begins(bytes, at, size, i)
  }

  lemma {:induction false} SlotStart(y: Layout, bytes: string, at: nat, max: nat, n: nat, i: nat)
    requires y.l.Valid() && i < n <= max && at + SizeOf(max, y.l.idMax) <= |bytes|
    ensures var slot := Slots(y, bytes, at, max, n)[i];
            slot != "" && (!Blank(slot) <==> Begins(bytes, at, y.l.idMax, i))
    decreases n
  {
    SlotBounds(max, y.l.idMax, i);
    SizeIsProduct(i, y.l.idMax);
    if i < n - 1 {
      SlotStart(y, bytes, at, max, n - 1, i);
    } else {
      SlotBounds(max, y.l.idMax, n - 1);
      assert Slots(y, bytes, at, max, n)[i] == SlotAt(y, bytes, at + SizeOf(i, y.l.idMax));
    }
  }

  lemma NoneBlankBytes(y: Layout, bytes: string, at: nat, max: nat, count: nat)
    requires y.l.Valid() && count <= max && at + SizeOf(max, y.l.idMax) <= |bytes|
    ensures NoneBlank(Slots(y, bytes, at, max, max), count) <==> AllBegin(bytes, at, y.l.idMax, count)
  {
    var slots := Slots(y, bytes, at, max, max);
    forall i: nat | i < count
      ensures slots[i] != "" && (!Blank(slots[i]) <==> Begins(bytes, at, y.l.idMax, i))
    {
      SlotStart(y, bytes, at, max, max, i);
    }
  }

  lemma AcceptableBytes(y: Layout, bytes: string)
    requires y.Valid() && |bytes| == y.Length() && forall i :: 0 <= i < |bytes| ==> bytes[i] as int <= 255
    ensures var a, b, id := y.ReturnCountAt(), y.ArmedCountAt(), y.l.idMax;
            Acceptable(y, Decoded(y, bytes)) <==>
            && bytes[5] != '\0' && bytes[a] as int <= y.l.stackMax && bytes[b] as int <= y.armedMax
            && AllBegin(bytes, a + 1, id, bytes[a] as int) && AllBegin(bytes, b + 1, id, bytes[b] as int)
  {
    var a, b := y.ReturnCountAt(), y.ArmedCountAt();
    if bytes[a] as int <= y.l.stackMax {
      NoneBlankBytes(y, bytes, a + 1, y.l.stackMax, bytes[a] as int);
    }
    if bytes[b] as int <= y.armedMax {
      NoneBlankBytes(y, bytes, b + 1, y.armedMax, bytes[b] as int);
    }
  }

  /** Which byte strings are accepted, byte by byte. */
  lemma AcceptsExactly(y: Layout, bytes: string)
    requires y.Valid() && forall i :: 0 <= i < |bytes| ==> bytes[i] as int <= 255
    ensures Accepts(y, bytes) <==>
            var id := y.l.idMax;
            var a := 5 + id;
            var b := a + 1 + y.l.stackMax * id;
            && |bytes| == b + 1 + y.armedMax * id
            && bytes[..4] == "SQPR" && bytes[4] as int == 1 && bytes[5] != '\0'
            && bytes[a] as int <= y.l.stackMax && AllBegin(bytes, a + 1, id, bytes[a] as int)
            && bytes[b] as int <= y.armedMax && AllBegin(bytes, b + 1, id, bytes[b] as int)
  {
    SizeIsProduct(y.l.stackMax, y.l.idMax);
    SizeIsProduct(y.armedMax, y.l.idMax);
    if |bytes| == y.Length() {
      AcceptableBytes(y, bytes);
    }
  }

  /** Read `max` slots; of the first `count` none may be blank. */
  method ReadSlots(y: Layout, bytes: string, at: nat, max: nat, count: nat) returns (ok: bool, slots: seq<string>)
    requires y.l.Valid() && at + SizeOf(max, y.l.idMax) <= |bytes|
    ensures ok <==> NoneBlank(Slots(y, bytes, at, max, max), count)
    ensures ok ==> slots == Slots(y, bytes, at, max, max)
  {
    slots := [];
    var offset := at;
    for i := 0 to max
      invariant slots == Slots(y, bytes, at, max, i) && offset == at + SizeOf(i, y.l.idMax)
      invariant NoneBlank(slots, count)
    {
      SlotBounds(max, y.l.idMax, i);
      var slot := SlotAt(y, bytes, offset);
      if i < count && slot[0] == NUL {
        SlotsKeep(y, bytes, at, max, i + 1, max);
        assert Slots(y, bytes, at, max, max)[i] == Slots(y, bytes, at, max, i + 1)[i] == slot;
        return false, slots;
      }
      slots := slots + [slot];
      offset := offset + y.l.idMax;
    }
    ok := true;
  }

  lemma {:induction false} SlotsKeep(y: Layout, bytes: string, at: nat, max: nat, n: nat, m: nat)
    requires y.l.Valid() && n <= m <= max && at + SizeOf(max, y.l.idMax) <= |bytes|
    ensures Slots(y, bytes, at, max, m)[..n] == Slots(y, bytes, at, max, n)
    decreases m - n
  {
    if n < m {
      SlotsKeep(y, bytes, at, max, n, m - 1);
    }
  }

  method Decode(y: Layout, bytes: string) returns (ok: bool, r: Record)
    requires y.Valid() && forall i :: 0 <= i < |bytes| ==> bytes[i] as int <= 255
    ensures ok <==> Accepts(y, bytes)
    ensures ok ==> r == Decoded(y, bytes)
  {
    r := Record("", 0, [], 0, []);
    if |bytes| != y.Length() {
      return false, r;
    }
    if bytes[..4] != MAGIC || bytes[4] != VERSION {
      return false, r;
    }
    var offset := 5;
    var current := SlotAt(y, bytes, offset);
    if current[0] == NUL {
      return false, r;
    }
    offset := offset + y.l.idMax;
    assert offset == y.ReturnCountAt();
    var returnCount := bytes[offset] as int;
    offset := offset + 1;
    if returnCount > y.l.stackMax {
      return false, r;
    }
    var returnStack, armed;
    ok, returnStack := ReadSlots(y, bytes, offset, y.l.stackMax, returnCount);
    if !ok {
      return false, r;
    }
    offset := offset + SizeOf(y.l.stackMax, y.l.idMax);
    assert offset == y.ArmedCountAt();
    var armedCount := bytes[offset] as int;
    offset := offset + 1;
    if armedCount > y.armedMax {
      return false, r;
    }
    ok, armed := ReadSlots(y, bytes, offset, y.armedMax, armedCount);
    if !ok {
      return false, r;
    }
    r := Record(current, returnCount, returnStack, armedCount, armed);
  }

  // ---------------------------------------------------------------- round trip of the record

  predicate ByteText(t: string)
  {
    forall i :: 0 <= i < |t| ==> t[i] as int <= 255
  }

  predicate ByteSlots(slots: seq<string>)
  {
    forall i :: 0 <= i < |slots| ==> ByteText(slots[i])
  }

  lemma {:induction false} FlattenBytes(slots: seq<string>, size: nat)
    requires ByteSlots(slots) && forall i :: 0 <= i < |slots| ==> |slots[i]| == size
    ensures ByteText(Flatten(slots)) && |Flatten(slots)| == SizeOf(|slots|, size)
  {
    if slots != [] {
      FlattenBytes(slots[..|slots| - 1], size);
    }
  }

  function TerminatedAll(slots: seq<string>): (t: seq<string>)
    requires forall i :: 0 <= i < |slots| ==> slots[i] != ""
    ensures |t| == |slots|
  {
    seq(|slots|, i requires 0 <= i < |slots| => Terminated(slots[i]))
  }

  /** Slots laid out in a byte string read back as themselves, terminated. */
  lemma {:induction false} SlotsOfFlatten(y: Layout, before: string, slots: seq<string>, after: string, n: nat)
    requires y.l.Valid() && n <= |slots| && ByteSlots(slots)
    requires forall i :: 0 <= i < |slots| ==> |slots[i]| == y.l.idMax
    requires |Flatten(slots)| == SizeOf(|slots|, y.l.idMax)
    ensures Slots(y, before + Flatten(slots) + after, |before|, |slots|, n) == TerminatedAll(slots)[..n]
    decreases n
  {
    if n > 0 {
      var all := before + Flatten(slots) + after;
      SlotsOfFlatten(y, before, slots, after, n - 1);
      SlotBounds(|slots|, y.l.idMax, n - 1);
      SlotInFlatten(slots, y.l.idMax, n - 1);
      var at := SizeOf(n - 1, y.l.idMax);
      assert all[|before| + at..|before| + at + y.l.idMax] == Flatten(slots)[at..at + y.l.idMax];
    }
  }

  lemma {:induction false} SlotInFlatten(slots: seq<string>, size: nat, i: nat)
    requires i < |slots| && forall k :: 0 <= k < |slots| ==> |slots[k]| == size
    requires ByteSlots(slots)
    ensures SizeOf(i, size) + size <= |Flatten(slots)|
    ensures Flatten(slots)[SizeOf(i, size)..SizeOf(i, size) + size] == slots[i]
  {
    var n := |slots| - 1;
    FlattenBytes(slots, size);
    FlattenBytes(slots[..n], size);
    SlotBounds(|slots|, size, i);
    if i < n {
      SlotInFlatten(slots[..n], size, i);
      var at := SizeOf(i, size);
      assert Flatten(slots)[at..at + size] == Flatten(slots[..n])[at..at + size];
    } else {
      assert SizeOf(n, size) == |Flatten(slots[..n])|;
      assert Flatten(slots)[SizeOf(n, size)..SizeOf(n, size) + size] == slots[n];
    }
  }

  /** Every buffer ends with its terminator and the counted slots are not blank. */
  predicate Proper(y: Layout, r: Record)
    requires y.Valid() && IsRecord(y, r)
  {
    && Terminated(r.current) == r.current
    && TerminatedAll(r.returnStack) == r.returnStack && TerminatedAll(r.armed) == r.armed
    && NoneBlank(r.returnStack, r.returnCount) && NoneBlank(r.armed, r.armedCount)
  }

  predicate ByteRecord(r: Record)
  {
    ByteText(r.current) && ByteSlots(r.returnStack) && ByteSlots(r.armed)
  }

  /** Where the pieces of a record lie. */
  lemma Pieces(head: string, current: string, c1: char, stack: string, c2: char, armed: string)
    requires |head| == 5
    ensures var bytes := head + current + [c1] + stack + [c2] + armed;
            var a := 5 + |current|; var b := a + 1 + |stack|;
            && |bytes| == b + 1 + |armed| && bytes[..5] == head
            && bytes[5..a] == current && bytes[a] == c1 && bytes[b] == c2
            && bytes == (head + current + [c1]) + stack + ([c2] + armed)
            && bytes == (head + current + [c1] + stack + [c2]) + armed + ""
  {
  }

  lemma BytesOfPieces(head: string, current: string, c1: char, stack: string, c2: char, armed: string)
    requires ByteText(head) && ByteText(current) && c1 as int <= 255
    requires ByteText(stack) && c2 as int <= 255 && ByteText(armed)
    ensures ByteText(head + current + [c1] + stack + [c2] + armed)
  {
  }

  /** Length and place of everything in an encoded record. */
  lemma EncodedPlaces(y: Layout, r: Record)
    requires y.Valid() && IsRecord(y, r) && ByteRecord(r) && Encodable(y, r)
    ensures var bytes := Encoded(r);
            && ByteText(bytes) && |bytes| == y.Length() && bytes[..4] == MAGIC && bytes[4] == VERSION
            && bytes[5..5 + y.l.idMax] == r.current
            && bytes[y.ReturnCountAt()] as int == r.returnCount && bytes[y.ArmedCountAt()] as int == r.armedCount
  {
    var head := MAGIC + [VERSION];
    var c1, c2 := r.returnCount as char, r.armedCount as char;
    var stack, armed := Flatten(r.returnStack), Flatten(r.armed);
    FlattenBytes(r.returnStack, y.l.idMax);
    FlattenBytes(r.armed, y.l.idMax);
    Pieces(head, r.current, c1, stack, c2, armed);
    BytesOfPieces(head, r.current, c1, stack, c2, armed);
    var bytes := Encoded(r);
    assert bytes == head + r.current + [c1] + stack + [c2] + armed;
    assert bytes[..4] == bytes[..5][..4] && bytes[4] == bytes[..5][4];
  }

  /** Where everything is in a record, with the sizes multiplied out. */
  lemma EncodedLayout(y: Layout, r: Record)
    requires y.Valid() && IsRecord(y, r) && ByteRecord(r) && Encodable(y, r)
    ensures var bytes, id := Encoded(r), y.l.idMax;
            && bytes[..4] == "SQPR" && bytes[4] as int == 1 && bytes[5..5 + id] == r.current
            && |bytes| == 7 + id + y.l.stackMax * id + y.armedMax * id
            && bytes[5 + id] as int == r.returnCount
            && bytes[6 + id + y.l.stackMax * id] as int == r.armedCount
  {
    EncodedPlaces(y, r);
    SizeIsProduct(y.l.stackMax, y.l.idMax);
    SizeIsProduct(y.armedMax, y.l.idMax);
  }

  lemma SlotsReadBack(y: Layout, all: string, before: string, slots: seq<string>, after: string)
    requires y.l.Valid() && ByteSlots(slots) && all == before + Flatten(slots) + after
    requires forall i :: 0 <= i < |slots| ==> |slots[i]| == y.l.idMax
    requires |before| + SizeOf(|slots|, y.l.idMax) <= |all|
    ensures Slots(y, all, |before|, |slots|, |slots|) == TerminatedAll(slots)
  {
    FlattenBytes(slots, y.l.idMax);
    SlotsOfFlatten(y, before, slots, after, |slots|);
    assert TerminatedAll(slots)[..|slots|] == TerminatedAll(slots);
  }

  /** An encoded record around its return stack, and around its armed apps. */
  lemma Around(r: Record)
    requires r.returnCount <= 255 && r.armedCount <= 255
    ensures var before := MAGIC + [VERSION] + r.current + [r.returnCount as char];
            var after := [r.armedCount as char] + Flatten(r.armed);
            Encoded(r) == before + Flatten(r.returnStack) + after
    ensures var before := MAGIC + [VERSION] + r.current + [r.returnCount as char] + Flatten(r.returnStack)
                          + [r.armedCount as char];
            Encoded(r) == before + Flatten(r.armed) + ""
  {
    var before := MAGIC + [VERSION] + r.current + [r.returnCount as char];
    assert (before + Flatten(r.returnStack)) + [r.armedCount as char] + Flatten(r.armed)
           == before + Flatten(r.returnStack) + ([r.armedCount as char] + Flatten(r.armed));
  }

  /** The slots of an encoded record, read back. */
  lemma EncodedStack(y: Layout, r: Record)
    requires y.Valid() && IsRecord(y, r) && ByteRecord(r) && Encodable(y, r) && |Encoded(r)| == y.Length()
    ensures Slots(y, Encoded(r), y.ReturnCountAt() + 1, y.l.stackMax, y.l.stackMax) == TerminatedAll(r.returnStack)
  {
    Around(r);
    var before := MAGIC + [VERSION] + r.current + [r.returnCount as char];
    assert |before| == y.ReturnCountAt() + 1;
    SlotsReadBack(y, Encoded(r), before, r.returnStack, [r.armedCount as char] + Flatten(r.armed));
  }

  lemma EncodedArmed(y: Layout, r: Record)
    requires y.Valid() && IsRecord(y, r) && ByteRecord(r) && Encodable(y, r) && |Encoded(r)| == y.Length()
    ensures Slots(y, Encoded(r), y.ArmedCountAt() + 1, y.armedMax, y.armedMax) == TerminatedAll(r.armed)
  {
    Around(r);
    FlattenBytes(r.returnStack, y.l.idMax);
    var before := MAGIC + [VERSION] + r.current + [r.returnCount as char] + Flatten(r.returnStack)
                  + [r.armedCount as char];
    assert |before| == y.ArmedCountAt() + 1;
    SlotsReadBack(y, Encoded(r), before, r.armed, "");
  }

  lemma EncodedParts(y: Layout, r: Record)
    requires y.Valid() && IsRecord(y, r) && ByteRecord(r) && Encodable(y, r)
    ensures var bytes := Encoded(r);
            && ByteText(bytes) && |bytes| == y.Length() && bytes[..4] == MAGIC && bytes[4] == VERSION
            && Decoded(y, bytes) == Record(Terminated(r.current), r.returnCount, TerminatedAll(r.returnStack),
                                           r.armedCount, TerminatedAll(r.armed))
  {
    EncodedPlaces(y, r);
    EncodedStack(y, r);
    EncodedArmed(y, r);
  }

  /** Decoding an encoded record gives the record back exactly when it is a proper one. */
  lemma RecordRoundTrip(y: Layout, r: Record)
    requires y.Valid() && IsRecord(y, r) && ByteRecord(r) && Encodable(y, r)
    ensures ByteText(Encoded(r))
    ensures Accepts(y, Encoded(r)) && Decoded(y, Encoded(r)) == r <==> Proper(y, r)
  {
    EncodedParts(y, r);
  }

  // ---------------------------------------------------------------- the record of a runtime

  function Zeros(n: nat): (z: string)
    ensures |z| == n
  {
    seq(n, _ => NUL)
  }

  /** An id in a zeroed buffer. */
  function Pad(l: Limits, id: Id): (b: string)
    requires |id| < l.idMax
    ensures |b| == l.idMax
  {
    id + Zeros(l.idMax - |id|)
  }

  /** The text of a buffer, up to its first terminator. */
  function TextOf(buffer: string): (id: Id)
    ensures |id| <= |buffer|
  {
    if buffer == "" || buffer[0] == NUL then "" else [buffer[0]] + TextOf(buffer[1..])
  }

  predicate IsText(id: Id)
  {
    ByteText(id) && NUL !in id
  }

  lemma {:induction false} TextOfPadded(id: Id, n: nat)
    requires IsText(id)
    ensures TextOf(id + Zeros(n)) == id
    decreases |id|
  {
    if id == "" {
      assert id + Zeros(n) == Zeros(n);
    } else {
      assert (id + Zeros(n))[1..] == id[1..] + Zeros(n);
      TextOfPadded(id[1..], n);
    }
  }

  datatype Timer = Timer(active: bool, app: Id)

  /** The apps with an active armed timer, each once, in the order they first occur. */
  function Armed(timers: seq<Timer>): (apps: seq<Id>)
    ensures |apps| <= |timers|
  {
    if timers == [] then []
    else
      var front, last := Armed(timers[..|timers| - 1]), timers[|timers| - 1];
      if last.active && last.app != "" && last.app !in front then front + [last.app] else front
  }

  /** `ids` in the first of `max` slots. */
  function Slotted(l: Limits, ids: seq<Id>, max: nat): (slots: seq<string>)
    requires forall i :: 0 <= i < |ids| ==> |ids[i]| < l.idMax
    ensures |slots| == max
  {
    seq(max, i requires 0 <= i < max => if i < |ids| then Pad(l, ids[i]) else Zeros(l.idMax))
  }

  function StackIds(s: State): (ids: seq<Id>)
    ensures |ids| == |s.stack|
  {
    seq(|s.stack|, i requires 0 <= i < |s.stack| => s.stack[i].id)
  }

  /** The ids of the active timers leave room for the terminator. */
  predicate TimersFit(l: Limits, timers: seq<Timer>)
  {
    forall i :: 0 <= i < |timers| && timers[i].active ==> |timers[i].app| < l.idMax
  }

  /** No id the record would hold fills its whole buffer, and none on the stack is missing. */
  predicate Recordable(l: Limits, s: State, timers: seq<Timer>)
  {
    l.Fits(s.current.id) && (forall i :: 0 <= i < |s.stack| ==> l.Fits(s.stack[i].id)) && TimersFit(l, timers)
  }

  lemma {:induction false} ArmedFit(l: Limits, timers: seq<Timer>)
    requires TimersFit(l, timers)
    ensures forall i :: 0 <= i < |Armed(timers)| ==> l.Fits(Armed(timers)[i])
  {
    if timers != [] {
      ArmedFit(l, timers[..|timers| - 1]);
    }
  }

  function RecordOf(y: Layout, s: State, timers: seq<Timer>): Record
    requires Recordable(y.l, s, timers)
  {
    ArmedFit(y.l, timers);
    Record(Pad(y.l, s.current.id), |s.stack|, Slotted(y.l, StackIds(s), y.l.stackMax),
           |Armed(timers)|, Slotted(y.l, Armed(timers), y.armedMax))
  }

  method FromRuntime(y: Layout, s: State, timers: seq<Timer>) returns (result: int, r: Record)
    requires y.Valid() && |s.stack| <= y.l.stackMax && |timers| == y.armedMax
    ensures result ==
            if s.current.id == "" then -EINVAL
            else if s.current.temp then -ENOTSUP
            else if Recordable(y.l, s, timers) then 0
            else -EINVAL
    ensures result == 0 ==> r == RecordOf(y, s, timers)
  {
    r := Record("", 0, [], 0, []);
    if s.current.id == "" {
      return -EINVAL, r;
    }
    if s.current.temp {
      return -ENOTSUP, r;
    }
    if !y.l.Fits(s.current.id) {
      return -EINVAL, r;
    }
    ghost var ids := StackIds(s);
    var returnStack := seq(y.l.stackMax, _ => Zeros(y.l.idMax));
    for i := 0 to |s.stack|
      invariant forall k :: 0 <= k < i ==> y.l.Fits(s.stack[k].id)
      invariant returnStack == Slotted(y.l, ids[..i], y.l.stackMax)
    {
      if !y.l.Fits(s.stack[i].id) {
        return -EINVAL, r;
      }
      returnStack := returnStack[i := Pad(y.l, s.stack[i].id)];
    }
    assert ids[..|s.stack|] == ids;
    var armed := seq(y.armedMax, _ => Zeros(y.l.idMax));
    var apps: seq<Id> := [];
    for i := 0 to |timers|
      invariant apps == Armed(timers[..i]) && TimersFit(y.l, timers[..i])
      invariant forall k :: 0 <= k < |apps| ==> y.l.Fits(apps[k])
      invariant armed == Slotted(y.l, apps, y.armedMax)
    {
      assert timers[..i + 1][..i] == timers[..i];
      var timer := timers[i];
      if !timer.active || timer.app == "" {
        continue;
      }
      var duplicate := false;
      for j := 0 to |apps|
        invariant timer.app !in apps[..j] && !duplicate
      {
        if apps[j] == timer.app {
          duplicate := true;
          break;
        }
      }
      if duplicate {
        continue;
      }
      if !y.l.Fits(timer.app) {
        return -EINVAL, r;
      }
      armed := armed[|apps| := Pad(y.l, timer.app)];
      apps := apps + [timer.app];
    }
    assert timers[..|timers|] == timers;
    r := Record(Pad(y.l, s.current.id), |s.stack|, returnStack, |apps|, armed);
    result := 0;
  }

  /** Where an app is first armed; the number of timers when it is not. */
  function FirstArmed(timers: seq<Timer>, app: Id): (i: nat)
    ensures i <= |timers|
  {
    if timers == [] then 0
    else
      var k := FirstArmed(timers[..|timers| - 1], app);
      if k < |timers| - 1 then k
      else if timers[|timers| - 1].active && timers[|timers| - 1].app == app then |timers| - 1
      else |timers|
  }

  /** The armed list has every armed app exactly once, in the order of first occurrence. */
  lemma {:induction false} ArmedIsExact(timers: seq<Timer>)
    ensures forall app :: app in Armed(timers) <==> app != "" && Timer(true, app) in timers
    ensures forall i, j :: 0 <= i < j < |Armed(timers)| ==>
              FirstArmed(timers, Armed(timers)[i]) < FirstArmed(timers, Armed(timers)[j])
    ensures forall app :: app in Armed(timers) <==> app != "" && FirstArmed(timers, app) < |timers|
  {
    if timers != [] {
      var n := |timers| - 1;
      var front, last := timers[..n], timers[n];
      ArmedIsExact(front);
      assert timers == front + [last];
    }
  }

  // ---------------------------------------------------------------- sleep and wake

  function TextsOf(slots: seq<string>, n: nat): (ids: seq<Id>)
    requires n <= |slots|
    ensures |ids| == n
  {
    seq(n, i requires 0 <= i < n => TextOf(slots[i]))
  }

  /** Ids are byte texts without a terminator. */
  predicate Named(s: State, timers: seq<Timer>)
  {
    && IsText(s.current.id)
    && (forall i :: 0 <= i < |s.stack| ==> IsText(s.stack[i].id))
    && (forall i :: 0 <= i < |timers| ==> IsText(timers[i].app))
  }

  lemma PadIsProper(l: Limits, id: Id)
    requires l.Fits(id) && IsText(id)
    ensures Terminated(Pad(l, id)) == Pad(l, id) && !Blank(Pad(l, id))
    ensures ByteText(Pad(l, id)) && TextOf(Pad(l, id)) == id
  {
    TextOfPadded(id, l.idMax - |id|);
  }

  lemma SlottedIsProper(l: Limits, ids: seq<Id>, max: nat)
    requires l.Valid() && |ids| <= max
    requires forall i :: 0 <= i < |ids| ==> 0 < |ids[i]| < l.idMax
    requires forall i :: 0 <= i < |ids| ==> IsText(ids[i])
    ensures var slots := Slotted(l, ids, max);
            && (forall i :: 0 <= i < max ==> |slots[i]| == l.idMax)
            && TerminatedAll(slots) == slots && ByteSlots(slots)
            && NoneBlank(slots, |ids|) && TextsOf(slots, |ids|) == ids
  {
    var slots := Slotted(l, ids, max);
    forall i | 0 <= i < max
      ensures |slots[i]| == l.idMax && Terminated(slots[i]) == slots[i] && ByteText(slots[i])
      ensures i < |ids| ==> !Blank(slots[i]) && TextOf(slots[i]) == ids[i]
    {
      if i < |ids| {
        PadIsProper(l, ids[i]);
        assert slots[i] == Pad(l, ids[i]);
      } else {
        assert slots[i] == Zeros(l.idMax);
      }
    }
  }

  lemma {:induction false} ArmedAreTexts(timers: seq<Timer>)
    requires forall i :: 0 <= i < |timers| ==> IsText(timers[i].app)
    ensures forall i :: 0 <= i < |Armed(timers)| ==> IsText(Armed(timers)[i])
  {
    if timers != [] {
      ArmedAreTexts(timers[..|timers| - 1]);
    }
  }

  /** The record written before a sleep is read back unchanged after it. */
  lemma SleepRecordSurvives(y: Layout, s: State, timers: seq<Timer>)
    requires y.Valid() && Sound(y.l, s) && s.current.id != "" && TimersFit(y.l, timers) && |timers| == y.armedMax
    requires Named(s, timers)
    ensures var r := RecordOf(y, s, timers);
            && IsRecord(y, r) && Encodable(y, r) && ByteText(Encoded(r))
            && Accepts(y, Encoded(r)) && Decoded(y, Encoded(r)) == r
            && TextOf(r.current) == s.current.id
            && TextsOf(r.returnStack, r.returnCount) == StackIds(s)
            && TextsOf(r.armed, r.armedCount) == Armed(timers)
  {
    var r := RecordOf(y, s, timers);
    PadIsProper(y.l, s.current.id);
    SlottedIsProper(y.l, StackIds(s), y.l.stackMax);
    ArmedFit(y.l, timers);
    ArmedAreTexts(timers);
    SlottedIsProper(y.l, Armed(timers), y.armedMax);
    RecordRoundTrip(y, r);
  }

  function Rebuilt(s: State, ids: seq<Id>): (routes: seq<Route>)
    ensures |routes| == |ids|
  {
    seq(|ids|, i requires 0 <= i < |ids| => Route(ids[i], s.current.id == ids[i] && s.current.temp))
  }

  lemma {:induction false} PushAllRebuilds(l: Limits, s: State, ids: seq<Id>)
    requires s.stack == [] && |ids| <= l.stackMax && forall i :: 0 <= i < |ids| ==> l.Fits(ids[i])
    ensures PushAll(l, s, ids) == (0, s.(stack := Rebuilt(s, ids)))
  {
    if ids != [] {
      var n := |ids| - 1;
      PushAllRebuilds(l, s, ids[..n]);
      assert Rebuilt(s, ids) == Rebuilt(s, ids[..n]) + [Route(ids[n], s.current.id == ids[n] && s.current.temp)];
    } else {
      assert Rebuilt(s, ids) == s.stack;
    }
  }

  /**
   * Waking up rebuilds the return stack that slept, app by app. The record carries no temporary flags:
   * the stack is the same exactly when nothing on it was temporary.
   */
  lemma WakeRebuildsRoute(y: Layout, s: State, timers: seq<Timer>, woken: State)
    requires y.Valid() && Sound(y.l, s) && s.current.id != "" && TimersFit(y.l, timers) && |timers| == y.armedMax
    requires Named(s, timers) && woken.current == BLANK
    ensures var r := RecordOf(y, s, timers);
            var back := RestorePlannedRoute(y.l, woken, TextsOf(r.returnStack, r.returnCount));
            && back.0 == 0 && back.1.phase == Idle && back.1.reason == "wake"
            && StackIds(back.1) == StackIds(s)
            && (back.1.stack == s.stack <==> forall i :: 0 <= i < |s.stack| ==> !s.stack[i].temp)
  {
    var ids := StackIds(s);
    var blank := woken.(phase := Idle, target := BLANK, previous := BLANK, exited := false, stack := []);
    SleepRecordSurvives(y, s, timers);
    PushAllRebuilds(y.l, blank, ids);
    var back := RestorePlannedRoute(y.l, woken, ids).1;
    assert StackIds(back) == ids;
    if forall i :: 0 <= i < |s.stack| ==> !s.stack[i].temp {
      assert back.stack == s.stack;
    }
    if back.stack == s.stack {
      forall i | 0 <= i < |s.stack| ensures !s.stack[i].temp {
        assert back.stack[i] == Route(ids[i], false);
      }
    }
  }
}
