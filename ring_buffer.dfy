/** The fixed-array circular FIFO that hands finished command frames from the
    SPI interrupt to the main loop. It keeps only a write index `head` and a
    read index `tail`; both wrap by masking with `Length - 1`, and one slot is
    always left empty so that "full" and "empty" can be told apart. */
module RingBuffers {

  /** Number of slots: the template argument `length`, 32 for the command queue. */
  const Length: int := 32

  /** `length - 1`, the mask that wraps an index. */
  const Mask: bv8 := 31

  /** `(i + 1) & (length - 1)`: the slot after `i`. */
  function Advance(i: int): (r: int)
    requires 0 <= i < Length
    ensures 0 <= r < Length
    ensures r == (i + 1) % Length
  {
    (((i + 1) as bv8) & Mask) as int
  }

  class RingBuffer<T(0)> {
    const buffer: array<T>
    var head: int  // next slot to write
    var tail: int  // next slot to read

    /** Both indices stay inside the array. */
    ghost predicate Valid()
      reads this
    {
      buffer.Length == Length && 0 <= head < Length && 0 <= tail < Length
    }

    /** The live elements, oldest first: the slots from `tail` up to, not including, `head`. */
    ghost function Contents(): seq<T>
      reads this, buffer
      requires Valid()
    {
      if tail <= head then buffer[tail..head] else buffer[tail..] + buffer[..head]
    }

    constructor ()
      ensures Valid() && fresh(buffer)
      ensures head == 0 && tail == 0
      ensures Contents() == [] && IsEmpty() && Size() == 0
    {
      buffer := new T[Length];
      head, tail := 0, 0;
    }

    /** The number of slots, one more than the elements the buffer can hold. */
    function Capacity(): (r: int)
      reads this, buffer
      requires Valid()
      ensures r == Length
      ensures |Contents()| <= r - 1
    {
      Length
    }

    function Size(): (r: int)
      reads this, buffer
      requires Valid()
      ensures 0 <= r < Length
      ensures r == (head - tail) % Length
      ensures r == |Contents()|
    {
      head - tail + (if tail > head then Length else 0)
    }

    predicate IsFull()
      reads this, buffer
      requires Valid()
      ensures IsFull() <==> |Contents()| == Length - 1
    {
      Advance(head) == tail
    }

    predicate IsEmpty()
      reads this, buffer
      requires Valid()
      ensures IsEmpty() <==> Contents() == []
    {
      head == tail
    }

    method PushBack(x: T)
      requires Valid() && !IsFull()
      modifies this, buffer
      ensures Valid()
      ensures head == Advance(old(head)) && tail == old(tail)
      ensures buffer[..] == old(buffer[..])[old(head) := x]
      ensures Contents() == old(Contents()) + [x]
      ensures Size() == old(Size()) + 1
    {
      ghost var h := head;
      buffer[head] := x;
      head := Advance(head);
      assert head == 0 ==> buffer[tail..] == old(buffer[tail..h]) + [x];
      assert head != 0 && tail < head ==> buffer[tail..head] == old(buffer[tail..h]) + [x];
      assert head != 0 && tail > head ==> buffer[..head] == old(buffer[..h]) + [x];
    }

    method PopFront() returns (x: T)
      requires Valid() && !IsEmpty()
      modifies this
      ensures Valid()
      ensures tail == Advance(old(tail)) && head == old(head)
      ensures x == old(Contents())[0]
      ensures Contents() == old(Contents())[1..]
      ensures Size() == old(Size()) - 1
    {
      x := buffer[tail];
      ghost var t := tail;
      tail := Advance(tail);
      assert t < head ==> Contents() == old(Contents())[1..];
      assert t > head && tail != 0 ==> buffer[tail..] == buffer[t..][1..];
      assert t > head && tail == 0 ==> Contents() == buffer[..head];
    }

    method Clear()
      requires Valid()
      modifies this
      ensures Valid()
      ensures head == 0 && tail == 0
      ensures Contents() == [] && IsEmpty() && Size() == 0
    {
      tail, head := 0, 0;
    }
  }

  /** One call on the buffer, as a caller that respects the guards makes it. */
  datatype Op<T> = PushOp(item: T) | PopOp

  /** Every push finds the buffer not full and every pop finds it not empty,
      starting from the live elements `q`. */
  predicate Guarded<T>(q: seq<T>, ops: seq<Op<T>>)
    decreases |ops|
  {
    ops == [] ||
    match ops[0]
    case PushOp(x) => |q| < Length - 1 && Guarded(q + [x], ops[1..])
    case PopOp => q != [] && Guarded(q[1..], ops[1..])
  }

  /** The live elements after `ops` and the elements the pops returned, each
      call acting on the live elements as `PushBack` and `PopFront` promise. */
  function Replay<T>(q: seq<T>, ops: seq<Op<T>>): (r: (seq<T>, seq<T>))
    requires Guarded(q, ops)
    decreases |ops|
  {
    if ops == [] then (q, [])
    else match ops[0]
      case PushOp(x) => Replay(q + [x], ops[1..])
      case PopOp =>
        var rest := Replay(q[1..], ops[1..]);
        (rest.0, [q[0]] + rest.1)
  }

  /** The items pushed by `ops`, in call order. */
  function Pushed<T>(ops: seq<Op<T>>): seq<T>
  {
    if ops == [] then []
    else match ops[0]
      case PushOp(x) => [x] + Pushed(ops[1..])
      case PopOp => Pushed(ops[1..])
  }

  /** The number of pops in `ops`. */
  function Pops<T>(ops: seq<Op<T>>): nat
  {
    if ops == [] then 0
    else match ops[0]
      case PushOp(_) => Pops(ops[1..])
      case PopOp => 1 + Pops(ops[1..])
  }

  /** First in, first out: what the pops returned, followed by what is still
      live, is what was live before followed by everything pushed; the size
      grows by the pushes and shrinks by the pops and never reaches `Length`. */
  lemma {:induction false} ReplayIsFifo<T>(q: seq<T>, ops: seq<Op<T>>)
    requires |q| < Length && Guarded(q, ops)
    ensures Replay(q, ops).1 + Replay(q, ops).0 == q + Pushed(ops)
    ensures |Replay(q, ops).1| == Pops(ops)
    ensures |Replay(q, ops).0| == |q| + |Pushed(ops)| - Pops(ops)
    ensures |Replay(q, ops).0| < Length
    decreases |ops|
  {
    if ops == [] {
    } else {
      match ops[0]
      case PushOp(x) =>
        ReplayIsFifo(q + [x], ops[1..]);
        assert Replay(q, ops) == Replay(q + [x], ops[1..]);
        assert Pushed(ops) == [x] + Pushed(ops[1..]) && Pops(ops) == Pops(ops[1..]);
        assert q + [x] + Pushed(ops[1..]) == q + Pushed(ops);
      case PopOp =>
        ReplayIsFifo(q[1..], ops[1..]);
        var rest := Replay(q[1..], ops[1..]);
        assert Replay(q, ops) == (rest.0, [q[0]] + rest.1);
        assert Pushed(ops) == Pushed(ops[1..]) && Pops(ops) == 1 + Pops(ops[1..]);
        assert [q[0]] + rest.1 + rest.0 == [q[0]] + (q[1..] + Pushed(ops[1..]));
        assert [q[0]] + (q[1..] + Pushed(ops[1..])) == q + Pushed(ops);
    }
  }

  /** After `clear()` (no live elements) the pops return exactly the first
      pushed items, in order, and the size is pushes minus pops. */
  lemma FifoFromEmpty<T>(ops: seq<Op<T>>)
    requires Guarded([], ops)
    ensures Pops(ops) <= |Pushed(ops)|
    ensures Replay([], ops).1 == Pushed(ops)[..Pops(ops)]
    ensures |Replay([], ops).0| == |Pushed(ops)| - Pops(ops)
  {
    ReplayIsFifo([], ops);
    var r := Replay([], ops);
    assert Pushed(ops) == r.1 + r.0;
  }
}
