/** The intersection: the four lanes, how `init_intersection` prepares them,
    how `parse_schedule` fills their input lists, and the critical section of
    `car_cross` that ties a lane step to the quadrant locks. */
module Intersections {
  import opened Traffic
  import opened Path
  import opened Lanes
  import opened Locks

  /** The records of `records` that enter from `d`, in input order. */
  function ForLane(records: seq<Car>, d: Direction): (cars: seq<Car>)
  {
    if records == [] then []
    else (if records[0].inDir == d then [records[0]] else []) + ForLane(records[1..], d)
  }

  /** Loading the schedule loses and duplicates no car: the records split
      exactly into the four lanes' lists. */
  lemma {:induction false} ScheduleSplits(records: seq<Car>)
    ensures multiset(records) ==
      multiset(ForLane(records, North)) + multiset(ForLane(records, South)) +
      multiset(ForLane(records, East)) + multiset(ForLane(records, West))
  {
    if records != [] {
      var car, rest := records[0], records[1..];
      ScheduleSplits(rest);
      assert records == [car] + rest;
      ForLaneCons(records, North);
      ForLaneCons(records, South);
      ForLaneCons(records, East);
      ForLaneCons(records, West);
      assert multiset(records) == multiset{car} + multiset(rest);
    }
  }

  /** The lane list of a non-empty schedule: its first record, if it enters
      from `d`, followed by the lane list of the rest, as multisets. */
  lemma ForLaneCons(records: seq<Car>, d: Direction)
    requires records != []
    ensures multiset(ForLane(records, d)) ==
      (if records[0].inDir == d then multiset{records[0]} else multiset{}) + multiset(ForLane(records[1..], d))
  {
  }

  /** Splitting the records splits each lane's list the same way. */
  lemma {:induction false} ForLaneAppend(s: seq<Car>, t: seq<Car>, d: Direction)
    ensures ForLane(s + t, d) == ForLane(s, d) + ForLane(t, d)
  {
    if s != [] {
      ForLaneAppend(s[1..], t, d);
      assert (s + t)[1..] == s[1..] + t;
    } else {
      assert s + t == t;
    }
  }

  /** A lane's list holds only cars entering from that lane's direction,
      each taken from the records. */
  lemma {:induction false} ForLaneMembers(records: seq<Car>, d: Direction)
    ensures forall c :: c in ForLane(records, d) ==> c in records && c.inDir == d
  {
    if records != [] {
      ForLaneMembers(records[1..], d);
    }
  }

  /** Taking one more record extends exactly the list of the lane it enters
      from. */
  lemma ForLaneSnoc(records: seq<Car>, n: nat, d: Direction)
    requires n < |records|
    ensures ForLane(records[..n + 1], d) ==
      ForLane(records[..n], d) + (if records[n].inDir == d then [records[n]] else [])
  {
    assert records[..n + 1] == records[..n] + [records[n]];
    ForLaneAppend(records[..n], [records[n]], d);
    assert ForLane([records[n]], d) == (if records[n].inDir == d then [records[n]] else []) + ForLane([], d);
  }

  class Intersection {
    /** The lanes, indexed by `LaneIndex` of their entry direction. */
    const lanes: seq<Lane>

    /** Four distinct lanes, each with its own buffer. */
    ghost predicate Valid()
      reads this
    {
      |lanes| == LaneCount &&
      (forall i, j :: 0 <= i < j < |lanes| ==> lanes[i] != lanes[j]) &&
      (forall i, j :: 0 <= i < j < |lanes| ==> lanes[i].buffer != lanes[j].buffer)
    }

    /** The lane of cars entering from `d`. */
    function LaneOf(d: Direction): (l: Lane)
      reads this
      requires |lanes| == LaneCount
      ensures l in lanes
    {
      lanes[LaneIndex(d)]
    }

    /** Distinct entry directions own distinct lanes and distinct buffers,
        so a step of one lane leaves every other lane alone. */
    lemma LaneOfDistinct(d: Direction, e: Direction)
      requires Valid()
      ensures LaneOf(d) == LaneOf(e) <==> d == e
      ensures LaneOf(d).buffer == LaneOf(e).buffer <==> d == e
    {
      LaneIndexInjective(d, e);
      if d != e {
        var i, j := LaneIndex(d), LaneIndex(e);
        if i < j {
          assert lanes[i] != lanes[j] && lanes[i].buffer != lanes[j].buffer;
        } else {
          assert lanes[j] != lanes[i] && lanes[j].buffer != lanes[i].buffer;
        }
      }
    }

    /** `init_intersection`: four lanes, each with its own freshly allocated
        buffer, zero counters and capacity LANE_LENGTH. The car lists are
        empty because the C global is zero-initialised. */
    constructor ()
      ensures Valid() && fresh(lanes)
      ensures forall i :: 0 <= i < |lanes| ==> fresh(lanes[i].buffer)
      ensures forall i :: 0 <= i < |lanes| ==> lanes[i].Idle() && lanes[i].inCars == []
    {
      var north := new Lane();
      var south := new Lane();
      var east := new Lane();
      var west := new Lane();
      lanes := [north, south, east, west];
    }

    /** One iteration of the `parse_schedule` loop: prepend `car` to the
        input list of the lane it enters from and count it in that lane's
        `inc`. */
    method AddCar(car: Car)
      requires Valid()
      requires forall i :: 0 <= i < |lanes| ==> lanes[i].Idle()
      modifies lanes
      ensures forall i :: 0 <= i < |lanes| ==> lanes[i].Idle()
      ensures forall d: Direction ::
        LaneOf(d).inCars == (if d == car.inDir then [car] else []) + old(LaneOf(d).inCars)
    {
      var lane := LaneOf(car.inDir);
      lane.Schedule(car);
      forall d: Direction
        ensures d != car.inDir ==> LaneOf(d) != lane
      {
        LaneIndexInjective(d, car.inDir);
      }
    }

    /** The loop of `parse_schedule` without the file reading: every record
        is prepended to the input list of the lane it enters from, whose
        `inc` grows by one. Runs before any lane's arrival thread starts. */
    method ParseSchedule(records: seq<Car>)
      requires Valid()
      requires forall i :: 0 <= i < |lanes| ==> lanes[i].Idle()
      modifies lanes
      ensures forall i :: 0 <= i < |lanes| ==> lanes[i].Idle()
      ensures forall d: Direction ::
        LaneOf(d).inCars == Reverse(ForLane(records, d)) + old(LaneOf(d).inCars) &&
        LaneOf(d).inc == old(LaneOf(d).inc) + |ForLane(records, d)|
    {
      var n := 0;
      while n < |records|
        invariant 0 <= n <= |records|
        invariant forall i :: 0 <= i < |lanes| ==> lanes[i].Idle()
        invariant forall d: Direction ::
          LaneOf(d).inCars == Reverse(ForLane(records[..n], d)) + old(LaneOf(d).inCars)
      {
        var car := records[n];
        forall d: Direction
          ensures Reverse(ForLane(records[..n + 1], d)) ==
            (if d == car.inDir then [car] else []) + Reverse(ForLane(records[..n], d))
        {
          ForLaneSnoc(records, n, d);
          if d == car.inDir {
            ReverseSnoc(ForLane(records[..n], d), car);
          } else {
            assert ForLane(records[..n + 1], d) == ForLane(records[..n], d);
          }
        }
        AddCar(car);
        n := n + 1;
      }
      assert records[..n] == records;
      forall d: Direction
        ensures LaneOf(d).inc == old(LaneOf(d).inc) + |ForLane(records, d)|
      {
        assert |LaneOf(d).inCars| == |ForLane(records, d)| + |old(LaneOf(d).inCars)|;
      }
    }
  }

  /** Within a lane, cars cross in the reverse of their order in the
      schedule: once a lane loaded with the records entering from `d` has
      drained, the k-th car to cross (crossing order is `outCars` read back to
      front) is the k-th of those records counted from the end. */
  lemma CrossingReversesSchedule(s: LaneState, records: seq<Car>, d: Direction)
    requires s.Valid() && s.inc == 0 && s.inBuf == 0
    requires s.inCars == Reverse(ForLane(records, d))
    ensures s.outCars == ForLane(records, d)
    ensures forall k :: 0 <= k < |s.outCars| ==>
      Reverse(s.outCars)[k] == ForLane(records, d)[|s.outCars| - 1 - k]
  {
    AllCrossedInOrder(s);
    ReverseInvolutive(ForLane(records, d));
    forall k | 0 <= k < |s.outCars|
      ensures Reverse(s.outCars)[k] == ForLane(records, d)[|s.outCars| - 1 - k]
    {
      ReverseAt(s.outCars, k);
    }
  }

  /** A two-line schedule: car 1 from the north to the south, car 2 from the
      east to the west. */
  const ExampleSchedule: seq<Car> := [Car(1, North, South), Car(2, East, West)]

  /** The north and east lanes loaded from `ExampleSchedule` get car 1 and
      car 2, the south and west lanes get nothing, and once drained, car 1 is
      on the north lane's crossed list and car 2 on the east lane's, while
      the south and west lanes' crossed lists are empty: each car is recorded
      in the lane it entered from, not in the lane of its exit direction. */
  lemma ExampleCrossedLists()
    ensures ForLane(ExampleSchedule, North) == [Car(1, North, South)]
    ensures ForLane(ExampleSchedule, East) == [Car(2, East, West)]
    ensures forall s: LaneState ::
      s.Valid() && s.inc == 0 && s.inBuf == 0 && s.inCars == [Car(1, North, South)] ==>
        s.outCars == [Car(1, North, South)]
    ensures forall s: LaneState ::
      s.Valid() && s.inc == 0 && s.inBuf == 0 && s.inCars == [Car(2, East, West)] ==>
        s.outCars == [Car(2, East, West)]
    ensures ForLane(ExampleSchedule, South) == [] && ForLane(ExampleSchedule, West) == []
    ensures forall s: LaneState ::
      s.Valid() && s.inc == 0 && s.inBuf == 0 && s.inCars == [] ==>
        Car(1, North, South) !in s.outCars && Car(2, East, West) !in s.outCars
  {
    assert ExampleSchedule[1..][1..] == [];
    forall s: LaneState | s.Valid() && s.inc == 0 && s.inBuf == 0 && s.inCars == []
      ensures s.outCars == []
    {
      CrossingReversesSchedule(s, ExampleSchedule, South);
    }
    forall s: LaneState | s.Valid() && s.inc == 0 && s.inBuf == 0 && s.inCars == [Car(1, North, South)]
      ensures s.outCars == [Car(1, North, South)]
    {
      CrossingReversesSchedule(s, ExampleSchedule, North);
    }
    forall s: LaneState | s.Valid() && s.inc == 0 && s.inBuf == 0 && s.inCars == [Car(2, East, West)]
      ensures s.outCars == [Car(2, East, West)]
    {
      CrossingReversesSchedule(s, ExampleSchedule, East);
    }
  }

  /** Crossed lists filed by exit direction: the list at `LaneIndex(d)` holds
      only cars leaving towards `d`. */
  predicate FiledByExit(outs: seq<seq<Car>>)
  {
    |outs| == LaneCount &&
    forall d: Direction, c :: c in outs[LaneIndex(d)] ==> c.outDir == d
  }

  /** A crossing recorded as the comment of `car_cross` asks: the car is
      prepended to the crossed list of the lane of its exit direction. */
  function RecordAtExit(outs: seq<seq<Car>>, car: Car): (outs': seq<seq<Car>>)
    requires |outs| == LaneCount
    ensures |outs'| == LaneCount
    ensures outs'[LaneIndex(car.outDir)] == [car] + outs[LaneIndex(car.outDir)]
    ensures forall d: Direction :: d != car.outDir ==> outs'[LaneIndex(d)] == outs[LaneIndex(d)]
  {
    outs[LaneIndex(car.outDir) := [car] + outs[LaneIndex(car.outDir)]]
  }

  /** Recording at the exit lane keeps the lists filed by exit direction:
      the exit lane's list gains the car in front of everything it held, and
      the other lists are left as they were. */
  lemma RecordAtExitFiles(outs: seq<seq<Car>>, car: Car)
    requires FiledByExit(outs)
    ensures FiledByExit(RecordAtExit(outs, car))
    ensures RecordAtExit(outs, car)[LaneIndex(car.outDir)] == [car] + outs[LaneIndex(car.outDir)]
    ensures forall d: Direction :: d != car.outDir ==> RecordAtExit(outs, car)[LaneIndex(d)] == outs[LaneIndex(d)]
  {
    forall d: Direction
      ensures d != car.outDir ==> LaneIndex(d) != LaneIndex(car.outDir)
    {
      LaneIndexInjective(d, car.outDir);
    }
  }

  /** The critical section of `car_cross` once a car is in the buffer: take
      the car at the head, compute its path, lock its quadrants in index
      order, move the car to this lane's `outCars` (the crossing record is
      emitted here), then unlock the quadrants in reverse order. */
  method CarCross(l: Lane) returns (car: Car, acquired: seq<int>, heldWhileCrossing: set<int>, released: seq<int>)
    requires l.Valid()
    requires l.inBuf > 0          // the wait for a car has returned
    modifies l
    ensures l.Valid()
    ensures l.State() == Cross(old(l.State()))
    ensures car == old(l.Front())
    ensures acquired == Route(car.inDir, car.outDir)
    ensures StrictlyAscending(acquired)
    ensures forall q :: q in heldWhileCrossing <==> q in Route(car.inDir, car.outDir)
    ensures released == Reverse(acquired)
  {
    var front := l.Front();
    var path := ComputePathArray(front.inDir, front.outDir);
    var p := path[..];
    ComputePathTable(front.inDir, front.outDir);
    var held;
    held, acquired := AcquirePath(p);
    car := l.CrossStep();
    heldWhileCrossing := held;
    var rest;
    rest, released := ReleasePath(p, held);
    forall q
      ensures q in held <==> q in Route(car.inDir, car.outDir)
    {
      if q in held {
        assert q in acquired;
      }
    }
  }
}
