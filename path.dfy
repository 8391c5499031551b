/** The quadrant path table of `compute_path`: for an entry and an exit
    direction, the quadrants a crossing car occupies, as a 5-slot array holding
    the quadrant numbers in ascending order followed by zeros. */
module Path {
  import opened Traffic

  /** Slots of the array `compute_path` returns. */
  const PathSlots: nat := 5

  /** A well-formed path array: a non-empty, strictly ascending run of quadrant
      numbers in 1..Quadrants, followed only by zeros; the last slot is 0. */
  predicate IsPath(p: seq<int>)
  {
    |p| == PathSlots &&
    p[0] != 0 && p[PathSlots - 1] == 0 &&
    (forall i :: 0 <= i < |p| ==> 0 <= p[i] <= Quadrants) &&
    (forall i, j :: 0 <= i < j < |p| && p[j] != 0 ==> p[i] != 0 && p[i] < p[j])
  }

  /** The path of a car entering from `inDir` and leaving towards `outDir`,
      following the decision tree of `compute_path`. */
  function ComputePath(inDir: Direction, outDir: Direction): (path: seq<int>)
    ensures IsPath(path)
  {
    var empty := [0, 0, 0, 0, 0];
    if inDir == outDir then
      // U-turn: every quadrant
      [1, 2, 3, 4, 0]
    else if inDir == North then
      // entering from the north: starts in quadrant 2, never uses quadrant 1
      var p := empty[0 := 2];
      if outDir == South then p[1 := 3]
      else if outDir == East then p[1 := 3][2 := 4]
      else p
    else if inDir == West then
      if outDir == North then empty[0 := 1][1 := 3][2 := 4]
      else if outDir == South then empty[0 := 3]
      else empty[0 := 3][1 := 4]
    else if inDir == South then
      if outDir == North then empty[0 := 1][1 := 4]
      else if outDir == West then empty[0 := 1][1 := 2][2 := 4]
      else empty[0 := 4]
    else
      // entering from the east: starts in quadrant 1
      var p := empty[0 := 1];
      if outDir == West then p[0 := 1][1 := 2]
      else if outDir == South then p[0 := 1][1 := 2][2 := 3]
      else p
  }

  /** The quadrants of each route, as a table read independently of the
      decision tree above. */
  function Route(inDir: Direction, outDir: Direction): (qs: seq<int>)
  {
    match (inDir, outDir)
      case (North, North) => [1, 2, 3, 4]
      case (South, South) => [1, 2, 3, 4]
      case (East, East) => [1, 2, 3, 4]
      case (West, West) => [1, 2, 3, 4]
      case (North, South) => [2, 3]
      case (North, East) => [2, 3, 4]
      case (North, West) => [2]
      case (West, North) => [1, 3, 4]
      case (West, South) => [3]
      case (West, East) => [3, 4]
      case (South, North) => [1, 4]
      case (South, West) => [1, 2, 4]
      case (South, East) => [4]
      case (East, West) => [1, 2]
      case (East, South) => [1, 2, 3]
      case (East, North) => [1]
  }

  /** `qs` padded with zeros to the 5 slots of a path array. */
  function Padded(qs: seq<int>): (p: seq<int>)
    requires |qs| <= PathSlots
    ensures |p| == PathSlots
    ensures p[..|qs|] == qs
    ensures forall i :: |qs| <= i < PathSlots ==> p[i] == 0
  {
    qs + seq(PathSlots - |qs|, _ => 0)
  }

  /** Number of quadrants on a path: the length of its non-zero run. */
  function PathLength(p: seq<int>): (n: nat)
    requires IsPath(p)
    ensures 1 <= n <= Quadrants
    ensures forall i :: 0 <= i < n ==> 1 <= p[i] <= Quadrants
    ensures forall i :: n <= i < |p| ==> p[i] == 0
  {
    if p[3] != 0 then 4 else if p[2] != 0 then 3 else if p[1] != 0 then 2 else 1
  }

  /** Every one of the 16 direction pairs gets exactly the route of the table. */
  lemma ComputePathTable(inDir: Direction, outDir: Direction)
    ensures |Route(inDir, outDir)| <= PathSlots
    ensures ComputePath(inDir, outDir) == Padded(Route(inDir, outDir))
    ensures ComputePath(inDir, outDir)[..PathLength(ComputePath(inDir, outDir))] == Route(inDir, outDir)
  {
    var p, qs := ComputePath(inDir, outDir), Route(inDir, outDir);
    assert |qs| == PathLength(p) && p[..|qs|] == qs by {
      match (inDir, outDir)
      case (North, North) =>
      case (North, South) =>
      case (North, East) =>
      case (North, West) =>
      case (West, North) =>
      case (West, South) =>
      case (West, East) =>
      case (West, West) =>
      case (South, North) =>
      case (South, West) =>
      case (South, East) =>
      case (South, South) =>
      case (East, West) =>
      case (East, South) =>
      case (East, North) =>
      case (East, East) =>
    }
    assert p == Padded(qs);
  }

  /** Only a U-turn takes every quadrant; every other route leaves at least
      one quadrant free. */
  lemma UTurnTakesAll(inDir: Direction, outDir: Direction)
    ensures PathLength(ComputePath(inDir, outDir)) == Quadrants <==> inDir == outDir
  {
    ComputePathTable(inDir, outDir);
  }

  /** `compute_path` with its loops: fills a fresh 5-slot array with zeros,
      writes 1..4 for a U-turn, then sets the slots of the decision tree. */
  method ComputePathArray(inDir: Direction, outDir: Direction) returns (path: array<int>)
    ensures path.Length == PathSlots
    ensures path[..] == ComputePath(inDir, outDir)
  {
    path := new int[PathSlots];
    var i := 0;
    while i < PathSlots
      invariant 0 <= i <= PathSlots
      invariant forall k :: 0 <= k < i ==> path[k] == 0
    {
      path[i] := 0;
      i := i + 1;
    }
    if inDir == outDir {
      i := 1;
      while i < PathSlots
        invariant 1 <= i <= PathSlots
        invariant forall k :: 0 <= k < i - 1 ==> path[k] == k + 1
        invariant forall k :: i - 1 <= k < PathSlots ==> path[k] == 0
      {
        path[i - 1] := i;
        i := i + 1;
      }
    } else if inDir == North {
      path[0] := 2;
      if outDir == South {
        path[1] := 3;
      } else if outDir == East {
        path[1] := 3;
        path[2] := 4;
      }
    } else if inDir == West {
      if outDir == North {
        path[0] := 1;
        path[1] := 3;
        path[2] := 4;
      } else if outDir == South {
        path[0] := 3;
      } else if outDir == East {
        path[0] := 3;
        path[1] := 4;
      }
    } else if inDir == South {
      if outDir == North {
        path[0] := 1;
        path[1] := 4;
      } else if outDir == West {
        path[0] := 1;
        path[1] := 2;
        path[2] := 4;
      } else if outDir == East {
        path[0] := 4;
      }
    } else if inDir == East {
      path[0] := 1;
      if outDir == West {
        path[0] := 1;
        path[1] := 2;
      } else if outDir == South {
        path[0] := 1;
        path[1] := 2;
        path[2] := 3;
      }
    }
  }
}
