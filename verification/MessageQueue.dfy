/** The ring buffer between the MQTT callback and the reader thread. */
module Queue {
  import opened Messages

  /** A bounded queue that forgets its oldest element when a new one does not fit. */
  function Push(q: seq<Msg>, m: Msg, capacity: nat): seq<Msg>
    requires |q| <= capacity && 0 < capacity
  {
    if |q| == capacity then q[1..] + [m] else q + [m]
  }

  /** One turn of the ring at most. */
  function Slot(head: nat, i: nat, size: nat): (k: nat)
    requires head < size && i <= size
    ensures k < size && (k == head + i || k == head + i - size)
  {
    if head + i < size then head + i else head + i - size
  }

  lemma SlotIsMod(head: nat, i: nat, size: nat)
    requires head < size && i <= size
    ensures (head + i) % size == Slot(head, i, size)
  {
    var n := head + i;
    var q := n / size;
    Twice(q, size);
    assert n == q * size + n % size;
    match q
    case 0 => assert q * size == 0;
    case 1 => assert q * size == size;
    case _ =>
  }

  lemma Twice(q: nat, size: nat)
    ensures 2 <= q ==> 2 * size <= q * size
  {
    if 2 <= q { assert q * size == 2 * size + (q - 2) * size; }
  }

  class MessageQueue {
    const buffer: array<Msg>
    var head: nat
    var tail: nat
    var count: nat

    ghost predicate Valid()
      reads this
    {
      && 0 < buffer.Length && head < buffer.Length && count <= buffer.Length
      && tail == Slot(head, count, buffer.Length)
    }

    /** Oldest first. */
    ghost function Contents(): (q: seq<Msg>)
      requires Valid()
      reads this, buffer
      ensures |q| == count
    {
      seq(count, i requires 0 <= i < count && count <= buffer.Length && head < buffer.Length reads this, buffer =>
            buffer[Slot(head, i, buffer.Length)])
    }

    constructor (capacity: nat)
      ensures Valid() && fresh(buffer) && Contents() == []
      ensures buffer.Length == if capacity == 0 then 1 else capacity
    {
      var size := if capacity == 0 then 1 else capacity;
      buffer := new Msg[size](_ => EMPTY_MSG);
      head, tail, count := 0, 0, 0;
    }

    method Write(msg: Msg) returns (ok: bool)
      requires Valid()
      modifies this, buffer
      ensures Valid() && ok
      ensures Contents() == Push(old(Contents()), msg, buffer.Length)
    {
      var size := buffer.Length;
      SlotIsMod(head, 1, size);
      SlotIsMod(tail, 1, size);
      if count == size {
        buffer[head] := msg;
        head := (head + 1) % size;
        tail := (tail + 1) % size;
      } else {
        buffer[tail] := msg;
        tail := (tail + 1) % size;
        count := count + 1;
      }
      return true;
    }

    method Read(msg0: Msg) returns (ok: bool, msg: Msg)
      requires Valid()
      modifies this
      ensures Valid()
      ensures ok <==> old(Contents()) != []
      ensures ok ==> msg == old(Contents())[0] && Contents() == old(Contents())[1..]
      ensures !ok ==> msg == msg0 && Contents() == []
    {
      if count == 0 { return false, msg0; }
      SlotIsMod(head, 1, buffer.Length);
      msg := buffer[head];
      head := (head + 1) % buffer.Length;
      count := count - 1;
      return true, msg;
    }

    method FreeSize() returns (n: nat)
      requires Valid()
      ensures n == buffer.Length - |Contents()|
    {
      n := buffer.Length - count;
    }

    method Size() returns (n: nat)
      requires Valid()
      ensures n == |Contents()|
    {
      n := count;
    }

    method Clear()
      requires Valid()
      modifies this, buffer
      ensures Valid() && Contents() == []
      ensures forall i :: 0 <= i < buffer.Length ==> buffer[i] == EMPTY_MSG
    {
      head, tail, count := 0, 0, 0;
      for i := 0 to buffer.Length
        invariant head == tail == count == 0
        invariant forall j :: 0 <= j < i ==> buffer[j] == EMPTY_MSG
      {
        buffer[i] := EMPTY_MSG;
      }
    }
  }

  /** The formula by which the code moves the tail holds in every valid state. */
  lemma TailIsHeadPlusCount(q: MessageQueue)
    requires q.Valid()
    ensures q.tail == (q.head + q.count) % q.buffer.Length
  {
    SlotIsMod(q.head, q.count, q.buffer.Length);
  }
}
