/** The queue of input events of a running app: a ring over a fixed number of slots. */
module InputQueue {
  const EINVAL := 22
  const ENOSPC := 28
  const ENOENT := 2

  /** The slot `i` places after `head`, without the division the code uses. */
  function SlotAfter(head: nat, i: nat, n: nat): (slot: nat)
    requires head < n && i <= n
    ensures slot < n
  {
    if head + i < n then head + i else head + i - n
  }

  lemma SlotIsRemainder(head: nat, i: nat, n: nat)
    requires head < n && i <= n
    ensures SlotAfter(head, i, n) == (head + i) % n
  {
  }

  class Queue {
    /** The size of a slot, terminator included. */
    const slotSize: nat
    const events: array<string>
    var head: nat
    var count: nat

    ghost predicate Valid()
      reads this
    {
      head < events.Length && count <= events.Length
    }

    /** The queued events, oldest first. */
    ghost function Contents(): (s: seq<string>)
      requires Valid()
      reads this, events
      ensures |s| == count
    {
      seq(count, i requires 0 <= i < count && Valid() reads this, events => events[SlotAfter(head, i, events.Length)])
    }

    constructor (capacity: nat, slotSize: nat)
      requires capacity > 0
      ensures Valid() && Contents() == [] && fresh(events)
      ensures events.Length == capacity && this.slotSize == slotSize
    {
      this.slotSize := slotSize;
      events := new string[capacity](_ => "");
      head, count := 0, 0;
    }

    /** An event that fits no slot is refused, and so is any by a full queue, which keeps what it has. */
    method Put(event: string) returns (result: int)
      requires Valid()
      modifies this`count, events
      ensures Valid()
      ensures result == if event == "" || |event| >= slotSize then -EINVAL
                        else if |old(Contents())| == events.Length then -ENOSPC else 0
      ensures Contents() == if result == 0 then old(Contents()) + [event] else old(Contents())
    {
      if |event| == 0 || |event| >= slotSize {
        return -EINVAL;
      }
      if count >= events.Length {
        return -ENOSPC;
      }
      ghost var before := Contents();
      SlotIsRemainder(head, count, events.Length);
      var slot := (head + count) % events.Length;
      events[slot] := event;
      count := count + 1;
      assert forall i :: 0 <= i < count - 1 ==> Contents()[i] == before[i];
      assert Contents() == before + [event];
      result := 0;
    }

    /** The oldest event, if there is one and it fits the room there is. */
    method Take(room: nat) returns (result: int, event: string)
      requires Valid()
      modifies this`head, this`count, events
      ensures Valid()
      ensures result == if room == 0 then -EINVAL
                        else if old(Contents()) == [] then -ENOENT
                        else if room <= |old(Contents())[0]| then -ENOSPC else 0
      ensures result == 0 ==> event == old(Contents())[0] && Contents() == old(Contents())[1..]
      ensures result != 0 ==> Contents() == old(Contents())
    {
      event := "";
      if room == 0 {
        return -EINVAL, event;
      }
      if count == 0 {
        return -ENOENT, event;
      }
      ghost var before := Contents();
      assert before[0] == events[head];
      if room <= |events[head]| {
        return -ENOSPC, event;
      }
      event := events[head];
      events[head] := "";
      SlotIsRemainder(head, 1, events.Length);
      head := (head + 1) % events.Length;
      count := count - 1;
      assert forall i :: 0 <= i < count ==> Contents()[i] == before[i + 1];
      assert Contents() == before[1..];
      if count == 0 {
        head := 0;
        assert Contents() == [];
      }
      result := 0;
    }
  }
}
