/** Shared vocabulary of the intersection: directions, cars, configuration
    constants, and the sequence helpers used to talk about the car lists. */
module Traffic {

  /** Number of slots in each lane's circular buffer (LANE_LENGTH). */
  const LaneLength: nat := 10

  /** Number of quadrants of the intersection; quadrants are named 1..Quadrants. */
  const Quadrants: nat := 4

  /** Number of lanes, one per entry direction. */
  const LaneCount: nat := 4

  datatype Direction = North | South | East | West

  /** A car as loaded from one schedule line: id, entry and exit direction.
      The C struct also has one `next` pointer, shared by the input list and
      the crossed list; each list is modelled as its own sequence instead. */
  datatype Car = Car(id: int, inDir: Direction, outDir: Direction)

  /** Position of a direction's lane in the intersection's lane array.
      The numeric enum values live in traffic.h, which is not part of this
      model; any bijection onto 0..3 serves. */
  function LaneIndex(d: Direction): (i: nat)
    ensures i < LaneCount
  {
    match d
    case North => 0
    case South => 1
    case East => 2
    case West => 3
  }

  /** Distinct directions own distinct lanes. */
  lemma LaneIndexInjective(d: Direction, e: Direction)
    ensures LaneIndex(d) == LaneIndex(e) ==> d == e
  {
  }

  /** The list read back to front; a C list built by prepending holds its
      elements in the reverse of the order they were added. */
  function Reverse<T>(s: seq<T>): (r: seq<T>)
    ensures |r| == |s|
  {
    if s == [] then [] else [s[|s| - 1]] + Reverse(s[..|s| - 1])
  }

  lemma {:induction false} ReverseAt<T>(s: seq<T>, k: nat)
    requires k < |s|
    ensures Reverse(s)[k] == s[|s| - 1 - k]
  {
    if k > 0 {
      ReverseAt(s[..|s| - 1], k - 1);
    }
  }

  /** Prepending to a list appends to the end of its reversed reading. */
  lemma {:induction false} ReversePrepend<T>(x: T, s: seq<T>)
    ensures Reverse([x] + s) == Reverse(s) + [x]
  {
    var r, t := Reverse([x] + s), Reverse(s) + [x];
    forall k | 0 <= k < |r|
      ensures r[k] == t[k]
    {
      ReverseAt([x] + s, k);
      if k < |s| {
        ReverseAt(s, k);
      }
    }
  }

  /** Appending to a list prepends to its reversed reading. */
  lemma ReverseSnoc<T>(s: seq<T>, x: T)
    ensures Reverse(s + [x]) == [x] + Reverse(s)
  {
    assert (s + [x])[..|s|] == s;
  }

  /** Reading a list back to front keeps its members. */
  lemma {:induction false} ReverseMembers<T>(s: seq<T>)
    ensures forall x :: x in Reverse(s) <==> x in s
  {
    forall x | x in s
      ensures x in Reverse(s)
    {
      var k :| 0 <= k < |s| && s[k] == x;
      ReverseAt(s, |s| - 1 - k);
    }
    forall x | x in Reverse(s)
      ensures x in s
    {
      var k :| 0 <= k < |s| && Reverse(s)[k] == x;
      ReverseAt(s, k);
    }
  }

  /** Reading a list back to front twice gives the list again. */
  lemma {:induction false} ReverseInvolutive<T>(s: seq<T>)
    ensures Reverse(Reverse(s)) == s
  {
    var r := Reverse(Reverse(s));
    forall k | 0 <= k < |s|
      ensures r[k] == s[k]
    {
      ReverseAt(Reverse(s), k);
      ReverseAt(s, |s| - 1 - k);
    }
  }
}
