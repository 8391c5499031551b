/** One lane of the intersection: the state that `car_arrive` and `car_cross`
    change inside the lane's critical section. The mutex and the two
    condition variables are not modelled; each blocking wait becomes a
    precondition of the step that follows it. */
module Lanes {
  import opened Traffic
  import opened Ring

  /** A snapshot of a lane's fields, with the buffer as the sequence of its
      slots. `cursor` is the arrival thread's `current`: the position in
      `inCars` of the next car to move into the buffer. */
  datatype LaneState = LaneState(
    slots: seq<Car>, head: int, tail: int, inBuf: int, inc: int, passed: int,
    capacity: int, inCars: seq<Car>, cursor: int, outCars: seq<Car>)
  {
    /** The lane invariant: occupancy bounds, ring-index consistency, counter
        conservation and FIFO order. Reading `inCars` up to the arrival
        cursor gives the cars that have crossed, in crossing order, followed
        by the cars still in the buffer, front first. */
    ghost predicate Valid()
    {
      |slots| == LaneLength && capacity == LaneLength &&
      0 <= head < LaneLength && 0 <= tail < LaneLength &&
      0 <= inBuf <= capacity &&
      tail == (head + inBuf) % LaneLength &&
      0 <= inc && 0 <= passed &&
      cursor + inc == |inCars| &&
      cursor == passed + inBuf &&
      passed == |outCars| &&
      inCars[..cursor] == Reverse(outCars) + Window(slots, head, inBuf)
    }

    /** The cars waiting in the buffer, front first. */
    ghost function Queue(): (q: seq<Car>)
      requires Valid()
    {
      Window(slots, head, inBuf)
    }
  }

  /** Counter conservation: every car of `inCars` is counted exactly once,
      as not yet buffered, buffered or crossed. */
  lemma CountersConserved(s: LaneState)
    requires s.Valid()
    ensures s.inc + s.inBuf + s.passed == |s.inCars|
  {
  }

  /** Critical section of `car_arrive`, run once the buffer has room: one car
      moves from the input list into the buffer; no car is created or lost,
      the buffer stays within capacity, and nothing on the crossing side
      changes. */
  function Arrive(s: LaneState): (s': LaneState)
    requires s.Valid()
    requires s.inc > 0            // outer loop guard of car_arrive
    requires s.inBuf < s.capacity // the wait for space has returned
    ensures s'.inc + s'.inBuf + s'.passed == s.inc + s.inBuf + s.passed
    ensures 0 < s'.inBuf <= s'.capacity
    ensures s'.head == s.head && s'.outCars == s.outCars && s'.inCars == s.inCars
  {
    var current := s.inCars[s.cursor];
    s.(slots := s.slots[s.tail := current],
       tail := (s.tail + 1) % LaneLength,
       inBuf := s.inBuf + 1,
       inc := s.inc - 1,
       cursor := s.cursor + 1)
  }

  /** `Arrive` stores the current car at the old tail and changes no other
      slot, appends that car to the queue and keeps the invariant. */
  lemma ArriveSpec(s: LaneState)
    requires s.Valid() && s.inc > 0 && s.inBuf < s.capacity
    ensures Arrive(s).Valid()
    ensures Arrive(s).slots[s.tail] == s.inCars[s.cursor]
    ensures forall k :: 0 <= k < LaneLength && k != s.tail ==> Arrive(s).slots[k] == s.slots[k]
    ensures Arrive(s).Queue() == s.Queue() + [s.inCars[s.cursor]]
    ensures Arrive(s).inBuf == s.inBuf + 1 && Arrive(s).inc == s.inc - 1
  {
    ArriveQueue(s);
    ArriveTail(s);
    ArriveFifo(s);
  }

  /** `Arrive` keeps tail == (head + inBuf) % LANE_LENGTH. */
  lemma ArriveTail(s: LaneState)
    requires s.Valid() && s.inc > 0 && s.inBuf < s.capacity
    ensures Arrive(s).tail == (Arrive(s).head + Arrive(s).inBuf) % LaneLength
    ensures 0 <= Arrive(s).tail < LaneLength
  {
    TailAdvance(s.head, s.inBuf);
  }

  /** `Arrive` keeps the FIFO part of the invariant: the walked prefix of
      `inCars`, now one car longer, is still the crossed cars followed by the
      queue. */
  lemma ArriveFifo(s: LaneState)
    requires s.Valid() && s.inc > 0 && s.inBuf < s.capacity
    ensures |Arrive(s).slots| == LaneLength && 0 <= Arrive(s).head < LaneLength
    ensures 0 <= Arrive(s).inBuf <= LaneLength && 0 <= Arrive(s).cursor <= |Arrive(s).inCars|
    ensures Arrive(s).inCars[..Arrive(s).cursor] ==
      Reverse(Arrive(s).outCars) + Window(Arrive(s).slots, Arrive(s).head, Arrive(s).inBuf)
  {
    var current := s.inCars[s.cursor];
    var s' := Arrive(s);
    ArriveQueue(s);
    assert s'.inCars[..s'.cursor] == s.inCars[..s.cursor] + [current];
    ArriveOrder(s.inCars[..s.cursor], s.outCars, s.Queue(), current);
  }

  /** The slot `Arrive` writes is the first one after the queue, so the
      queue grows by the written car at its back. */
  lemma ArriveQueue(s: LaneState)
    requires s.Valid() && s.inc > 0 && s.inBuf < s.capacity
    ensures Window(Arrive(s).slots, s.head, s.inBuf + 1) == s.Queue() + [s.inCars[s.cursor]]
  {
    var current := s.inCars[s.cursor];
    var slots' := s.slots[(s.head + s.inBuf) % LaneLength := current];
    WindowPush(s.slots, s.head, s.inBuf, current);
    assert Window(slots', s.head, s.inBuf + 1) == s.Queue() + [current];
    assert Arrive(s).slots == slots';
  }

  /** Walking one more car of `inCars` into the back of the queue keeps the
      concatenation "crossed, in crossing order, then queued". */
  lemma ArriveOrder(walked: seq<Car>, outCars: seq<Car>, queue: seq<Car>, x: Car)
    requires walked == Reverse(outCars) + queue
    ensures walked + [x] == Reverse(outCars) + (queue + [x])
  {
  }

  /** Writing at the tail and advancing it by one slot keeps
      tail == (head + inBuf) % LANE_LENGTH with one more car. */
  lemma TailAdvance(head: int, n: int)
    requires 0 <= head < LaneLength && 0 <= n < LaneLength
    ensures ((head + n) % LaneLength + 1) % LaneLength == (head + n + 1) % LaneLength
  {
  }

  /** Critical section of `car_cross` as it concerns the lane, run once the
      buffer holds a car: the car at the head is prepended to this lane's
      own `outCars`, whatever its exit direction. No car is created or lost,
      one slot is freed, and nothing on the arrival side changes. */
  function Cross(s: LaneState): (s': LaneState)
    requires s.Valid()
    requires s.inBuf > 0          // the wait for a car has returned
    ensures s'.inc + s'.inBuf + s'.passed == s.inc + s.inBuf + s.passed
    ensures 0 <= s'.inBuf < s'.capacity && s'.passed == |s'.outCars|
    ensures s'.outCars != [] && s'.outCars[1..] == s.outCars
    ensures s'.slots == s.slots && s'.tail == s.tail && s'.inCars == s.inCars && s'.cursor == s.cursor
  {
    var car := s.slots[s.head];
    s.(outCars := [car] + s.outCars,
       head := (s.head + 1) % LaneLength,
       passed := s.passed + 1,
       inBuf := s.inBuf - 1)
  }

  /** `Cross` removes the front of the queue and records it as the latest
      crossing, and keeps the invariant. */
  lemma CrossSpec(s: LaneState)
    requires s.Valid() && s.inBuf > 0
    ensures Cross(s).Valid()
    ensures Cross(s).outCars == [s.Queue()[0]] + s.outCars
    ensures Cross(s).Queue() == s.Queue()[1..]
    ensures Cross(s).inBuf == s.inBuf - 1 && Cross(s).passed == s.passed + 1
  {
    WindowPop(s.slots, s.head, s.inBuf);
    Advance(s.head, s.inBuf);
    CrossFifo(s);
  }

  /** `Cross` keeps the FIFO part of the invariant: the walked prefix of
      `inCars` is still the crossed cars, now one more, followed by the
      queue, now one shorter. */
  lemma CrossFifo(s: LaneState)
    requires s.Valid() && s.inBuf > 0
    ensures 0 <= Cross(s).head < LaneLength && 0 <= Cross(s).inBuf <= LaneLength
    ensures Cross(s).inCars[..Cross(s).cursor] ==
      Reverse(Cross(s).outCars) + Window(Cross(s).slots, Cross(s).head, Cross(s).inBuf)
  {
    WindowPop(s.slots, s.head, s.inBuf);
    CrossOrder(s.inCars[..s.cursor], s.outCars, s.Queue());
  }

  /** Moving the front of the queue onto the crossed list keeps the
      concatenation "crossed, in crossing order, then queued". */
  lemma CrossOrder(walked: seq<Car>, outCars: seq<Car>, queue: seq<Car>)
    requires queue != [] && walked == Reverse(outCars) + queue
    ensures walked == Reverse([queue[0]] + outCars) + queue[1..]
  {
    ReversePrepend(queue[0], outCars);
    assert queue == [queue[0]] + queue[1..];
  }

  /** Once nothing is left to arrive and the buffer is empty, every loaded car
      has crossed, and they crossed in the order `car_arrive` walked
      `inCars`: `outCars`, built by prepending, is `inCars` reversed. */
  lemma {:induction false} AllCrossedInOrder(s: LaneState)
    requires s.Valid() && s.inc == 0 && s.inBuf == 0
    ensures s.passed == |s.inCars|
    ensures s.outCars == Reverse(s.inCars)
  {
    assert s.inCars == s.inCars[..s.cursor];
    ReverseInvolutive(s.outCars);
  }

  /** The crossed list of a lane holds only cars that entered from that lane,
      whatever their exit direction, as long as its input list does: a crossed
      car is not moved to the lane of its exit direction. */
  lemma OutCarsFromEntryLane(s: LaneState, d: Direction)
    requires s.Valid()
    requires forall c :: c in s.inCars ==> c.inDir == d
    ensures forall c :: c in s.outCars ==> c.inDir == d
  {
    ReverseMembers(s.outCars);
    forall c | c in s.outCars
      ensures c.inDir == d
    {
      assert c in s.inCars[..s.cursor];
    }
  }

  /** An idle lane satisfies the lane invariant with an empty queue: the
      state `init_intersection` and `parse_schedule` hand to the workers. */
  lemma IdleIsValid(l: Lane)
    requires l.Idle()
    ensures l.Valid() && l.State().Queue() == []
  {
  }

  class Lane {
    /** The LANE_LENGTH-slot circular buffer. */
    const buffer: array<Car>
    var head: int
    var tail: int
    /** Cars in the buffer. */
    var inBuf: int
    /** Cars of `inCars` not yet moved into the buffer. */
    var inc: int
    /** Cars that have crossed. */
    var passed: int
    var capacity: int
    /** The list `parse_schedule` builds, head first. */
    var inCars: seq<Car>
    /** The arrival thread's `current`, as a position in `inCars`. */
    var cursor: int
    /** The list crossed cars are prepended to, head first. */
    var outCars: seq<Car>

    ghost function State(): LaneState
      reads this, buffer
    {
      LaneState(buffer[..], head, tail, inBuf, inc, passed, capacity, inCars, cursor, outCars)
    }

    ghost predicate Valid()
      reads this, buffer
    {
      State().Valid()
    }

    /** A lane no worker has touched yet: nothing buffered or crossed, the
        arrival cursor at the head of `inCars`, and every car of `inCars`
        still counted in `inc`. Reads no buffer slot. */
    ghost predicate Idle()
      reads this
    {
      buffer.Length == LaneLength && capacity == LaneLength &&
      head == 0 && tail == 0 && inBuf == 0 && passed == 0 &&
      cursor == 0 && outCars == [] && inc == |inCars|
    }

    /** One lane as the workers first find it: the counters, indices,
        capacity and buffer `init_intersection` sets, the car lists of the
        zero-initialised global (empty), and the arrival position at the
        head of `inCars`, where `car_arrive` starts. */
    constructor ()
      ensures Idle() && fresh(buffer)
      ensures inCars == [] && inc == 0
    {
      inc := 0;
      passed := 0;
      inBuf := 0;
      capacity := LaneLength;
      head := 0;
      tail := 0;
      buffer := new Car[LaneLength];
      inCars := [];
      cursor := 0;
      outCars := [];
    }

    /** The car at the head of the buffer, the one `car_cross` takes next. */
    function Front(): (car: Car)
      reads this, buffer
      requires Valid() && inBuf > 0
      ensures car == State().Queue()[0]
    {
      WindowPop(buffer[..], head, inBuf);
      buffer[head]
    }

    method ArriveStep()
      requires Valid()
      requires inc > 0            // outer loop guard of car_arrive
      requires inBuf < capacity   // the wait for space has returned
      modifies this, buffer
      ensures Valid()
      ensures State() == Arrive(old(State()))
    {
      ArriveSpec(State());
      var current := inCars[cursor];
      buffer[tail] := current;
      tail := tail + 1;
      tail := tail % LaneLength;
      inBuf := inBuf + 1;
      inc := inc - 1;
      cursor := cursor + 1;
    }

    /** The body of the `parse_schedule` loop for one car of this lane:
        prepend it to `inCars` and count it in `inc`. The schedule is loaded
        before the arrival thread starts walking `inCars`. */
    method Schedule(car: Car)
      requires Idle()
      modifies this
      ensures Idle()
      ensures inCars == [car] + old(inCars) && inc == old(inc) + 1
    {
      inCars := [car] + inCars;
      inc := inc + 1;
    }

    method CrossStep() returns (car: Car)
      requires Valid()
      requires inBuf > 0          // the wait for a car has returned
      modifies this
      ensures Valid()
      ensures car == old(Front())
      ensures State() == Cross(old(State()))
    {
      ghost var s := State();
      CrossSpec(s);
      car := buffer[head];
      assert car == s.slots[s.head];
      outCars := [car] + outCars;
      head := head + 1;
      head := head % LaneLength;
      passed := passed + 1;
      inBuf := inBuf - 1;
    }
  }
}
