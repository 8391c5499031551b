/** The abstract queue held by a lane's circular buffer: the `n` slots from
    `start` onwards, wrapping around modulo LANE_LENGTH. */
module Ring {
  import opened Traffic

  /** Slot following `i` in a buffer of LANE_LENGTH slots. */
  function Next(i: int): (j: int)
    requires 0 <= i < LaneLength
    ensures 0 <= j < LaneLength
    ensures j == if i == LaneLength - 1 then 0 else i + 1
  {
    (i + 1) % LaneLength
  }

  /** The cars in slots start, start+1, ... (n of them, wrapping around). */
  function Window(slots: seq<Car>, start: int, n: int): (q: seq<Car>)
    requires |slots| == LaneLength
    requires 0 <= start < LaneLength && 0 <= n <= LaneLength
    ensures |q| == n
    decreases n
  {
    if n == 0 then [] else [slots[start]] + Window(slots, Next(start), n - 1)
  }

  /** The k-th car of the window sits k slots after `start`, wrapping around. */
  lemma {:induction false} WindowAt(slots: seq<Car>, start: int, n: int, k: int)
    requires |slots| == LaneLength
    requires 0 <= start < LaneLength && 0 <= k < n <= LaneLength
    ensures Window(slots, start, n)[k] == slots[(start + k) % LaneLength]
    decreases n
  {
    var rest := Window(slots, Next(start), n - 1);
    assert Window(slots, start, n) == [slots[start]] + rest;
    if k > 0 {
      WindowAt(slots, Next(start), n - 1, k - 1);
      Advance(start, k);
      assert rest[k - 1] == slots[(start + k) % LaneLength];
    }
  }

  /** Stepping `n` slots from `start` lands where stepping `n - 1` slots from
      the slot after `start` does: advancing the head by one slot and dropping
      one car keeps tail == (head + inBuf) % LANE_LENGTH. */
  lemma Advance(start: int, n: int)
    requires 0 <= start < LaneLength && 0 < n <= LaneLength
    ensures (Next(start) + (n - 1)) % LaneLength == (start + n) % LaneLength
  {
  }

  /** Writing a car into the first free slot after the window extends the
      window by that car at its end (the buffer never overlaps itself while
      it holds fewer than LANE_LENGTH cars). */
  lemma WindowPush(slots: seq<Car>, start: int, n: int, x: Car)
    requires |slots| == LaneLength
    requires 0 <= start < LaneLength && 0 <= n < LaneLength
    ensures Window(slots[(start + n) % LaneLength := x], start, n + 1) == Window(slots, start, n) + [x]
  {
    var slots' := slots[(start + n) % LaneLength := x];
    var q, q' := Window(slots, start, n), Window(slots', start, n + 1);
    forall k | 0 <= k < n + 1
      ensures q'[k] == (q + [x])[k]
    {
      WindowAt(slots', start, n + 1, k);
      if k < n {
        WindowAt(slots, start, n, k);
        SlotsDistinct(start, k, n);
      }
    }
  }

  /** Fewer than LANE_LENGTH steps from the same start never meet the same
      slot twice. */
  lemma SlotsDistinct(start: int, k: int, n: int)
    requires 0 <= start < LaneLength && 0 <= k < n < LaneLength
    ensures (start + k) % LaneLength != (start + n) % LaneLength
  {
  }

  /** Advancing the start past the first slot removes the front car. */
  lemma WindowPop(slots: seq<Car>, start: int, n: int)
    requires |slots| == LaneLength
    requires 0 <= start < LaneLength && 0 < n <= LaneLength
    ensures Window(slots, start, n)[0] == slots[start]
    ensures Window(slots, Next(start), n - 1) == Window(slots, start, n)[1..]
  {
  }
}
