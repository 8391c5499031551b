# Traffic intersection — a Dafny model of `cars.c`

This project models the sequential core of a pthreads traffic simulation. Cars enter a four-way intersection from one of four directions. The intersection is divided into four quadrants, numbered 1 to 4. Each entry direction has a lane. A lane holds a list of pending cars, a 10-slot circular buffer, and a list of cars that have crossed. One arrival thread per lane moves cars from the pending list into the buffer. One crossing thread per lane takes cars from the buffer, locks the quadrants on the car's path, records the crossing, and unlocks the quadrants.

Threads are not modelled. Each blocking wait becomes a precondition of the step that follows it. What remains are four sequential pieces:

- **Path table** (`Path`): `compute_path` as a pure function `ComputePath`, and as the array-filling method `ComputePathArray`, which follows the source's loops. `Route` is an independent copy of the route table. `ComputePathTable` proves the two agree on all 16 direction pairs. `ComputePath`'s contract says every path is a non-empty, strictly ascending run of quadrants in 1..4, followed only by zeros, with slot 4 always zero.
- **Lane ring buffer** (`Ring`, `Lanes`): the `Lane` class has the fields of the C struct. The linked lists `in_cars` and `out_cars` become two separate `seq<Car>` fields, and prepending becomes `[c] + s`. In C the two lists share each car's `next` pointer; "## Left out" says what the model does not capture about that. The arrival thread's local `current` becomes the field `cursor`, an index into `inCars`. `ArriveStep` and `CrossStep` are the critical-section bodies of `car_arrive` and `car_cross`. Each is proved equal to a step function (`Arrive`, `Cross`) on a value snapshot `LaneState`. Lemmas about those functions show:
  - occupancy stays in 0..capacity;
  - `tail == (head + inBuf) % 10`;
  - the counter sum is conserved;
  - FIFO order: reading `inCars` up to the cursor gives the crossed cars in crossing order, then the buffered cars front first.
- **Quadrant lock discipline** (`Locks`): the lock loop and the unlock loop of `car_cross` are methods over a held set. They prove that locking visits quadrants in strictly ascending order and never locks a held quadrant. They prove that unlocking visits them in the reverse order, only unlocks held quadrants, and leaves nothing held.
- **Intersection** (`Intersections`): `init_intersection` (the constructor), the list-building loop of `parse_schedule` (`ParseSchedule`, with file reading removed), and the whole critical section of `car_cross` (`CarCross`). `CarCross` takes the head car, computes its path, locks, steps the lane, records the crossing, and unlocks.

Constants: `LANE_LENGTH` = 10, taken from the comments at cars.c:72 and cars.c:75. `traffic.h` is not part of this model. The numeric values of the direction enum are defined there. `LaneIndex` maps NORTH, SOUTH, EAST, WEST to 0..3. Any bijection gives the same results.

Two behaviours of the code differ from what its comments lead a reader to expect; the model follows the code:

- The comment at cars.c:130-132 says a crossed car goes onto the `out_cars` list of the lane for its exit direction. The code prepends it to the `out_cars` of the lane it is crossing from (cars.c:174-175). `Cross` and `CarCross` do the same, and `OutCarsFromEntryLane` proves that a lane's crossed list holds only cars that entered from that lane. With records `(1, NORTH, SOUTH)` and `(2, EAST, WEST)`, car 1 ends in NORTH's list and car 2 ends in EAST's list (`ExampleCrossedLists`). This is listed under "## Findings".
- `parse_schedule` prepends each record (cars.c:36-39). A lane's `in_cars` therefore holds its records in reverse file order (`ParseSchedule`). `car_arrive` walks that list from its head (cars.c:94, 112). So within a lane, cars cross in `in_cars` order (`AllCrossedInOrder`), which is the reverse of their order in the schedule file (`CrossingReversesSchedule`).

Where the code and its documentation agree, the model proves the promise: the comment at cars.c:199-200 promises a sorted list of quadrants. No path is empty (`ComputePath` ensures `p[0] != 0`). The code locks in slot order (cars.c:168-172), and `AcquirePath` proves that slot order is strictly ascending quadrant order, because every path is sorted.

## Model

| member | source | states |
|---|---|---|
| `Path.ComputePath` | cars.c:203-257 | every path array has 5 slots: a non-empty, strictly ascending run of quadrant numbers in 1..4, then only zeros; slot 4 is always 0 |
| `Path.ComputePathTable` | cars.c:210-254 | for each of the 16 (entry, exit) pairs the path equals the route table padded with zeros, and its non-zero run is exactly that route |
| `Path.UTurnTakesAll` | cars.c:210-213 | a path uses all four quadrants exactly when entry and exit direction are the same |
| `Path.PathLength` | cars.c:207-254 | the number of quadrants on a path: slots before it hold quadrants in 1..4, slots from it on hold 0 |
| `Path.ComputePathArray` | cars.c:203-257 | the array built by the zeroing loop, the U-turn loop and the decision tree has 5 slots and holds exactly `ComputePath` |
| `Ring.WindowAt` | cars.c:106-108 | the k-th queued car sits k slots after the head, modulo 10 |
| `Ring.WindowPush` | cars.c:106-109 | writing a car at `(head + inBuf) % 10` while fewer than 10 are queued appends it to the queue and disturbs no queued car |
| `Ring.WindowPop` | cars.c:164-177 | the front of the queue is the car at `head`; moving the head one slot on drops exactly that car |
| `Lanes.Arrive` | cars.c:106-112 | one car moves from the input list into the buffer: the counter sum is unchanged, the buffer holds between 1 and capacity cars, and head, `inCars` and `outCars` are untouched |
| `Lanes.Cross` | cars.c:164-179 | one car leaves the buffer and is prepended to this lane's own `outCars`: the counter sum is unchanged, one slot is freed, `passed` counts `outCars`, and the slots, tail, `inCars` and arrival position are untouched |
| `Lanes.OutCarsFromEntryLane` | cars.c:174-175 | if every car of a valid lane's `inCars` enters from `d`, so does every car of its `outCars`, whatever their exit direction |
| `Lanes.CountersConserved` | cars.c:109-110 | in a valid lane `inc + inBuf + passed` equals the number of cars in `inCars`; arrival moves one unit from `inc` to `inBuf` (cars.c:109-110) and crossing one from `inBuf` to `passed` (cars.c:178-179), so the sum never changes |
| `Lanes.ArriveSpec` | cars.c:100-112 | with room in the buffer and cars left: the current car is stored at the old tail and no other slot changes, it is appended to the queue, `inBuf` rises and `inc` falls by one, and the lane invariant is kept |
| `Lanes.CrossSpec` | cars.c:160-179 | with a car buffered: the front of the queue is prepended to this lane's `outCars`, the queue loses exactly its front, `passed` rises and `inBuf` falls by one, and the lane invariant is kept |
| `Ring.Advance` | cars.c:176-179 | stepping n slots from the head lands where stepping n - 1 slots from the next head does, so advancing the head one slot while dropping one car keeps `tail == (head + inBuf) % 10` |
| `Lanes.CrossOrder` | cars.c:174-177 | moving the front of the queue onto the crossed list keeps "crossed in crossing order, then queued" equal to the walked prefix of `inCars` |
| `Lanes.AllCrossedInOrder` | cars.c:94-112 | once `inc` and `inBuf` are both 0, every car of `inCars` has crossed, and `outCars` is `inCars` reversed, so cars crossed in the order `car_arrive` walked `inCars` |
| `Lanes.IdleIsValid` | cars.c:69-74 | a lane no worker has touched satisfies the lane invariant with an empty queue |
| `Lanes.Lane.constructor` | cars.c:69-75 | a fresh 10-slot buffer, all counters and indices 0 and capacity 10, as `init_intersection` sets them; empty car lists and the arrival position at the head of `inCars`, as the workers first find them |
| `Lanes.Lane.Front` | cars.c:164 | the car at `buffer[head]` is the front of the queue |
| `Lanes.Lane.ArriveStep` | cars.c:106-112 | the new lane state is `Arrive` of the old one, and the lane invariant holds |
| `Lanes.Lane.Schedule` | cars.c:37-40 | the car is prepended to `inCars`, `inc` grows by one, and the lane stays idle |
| `Lanes.Lane.CrossStep` | cars.c:164-179 | returns the front car; the new lane state is `Cross` of the old one, and the lane invariant holds |
| `Locks.AcquirePath` | cars.c:168-172 | locks the non-zero slots `p[0..3]` in slot order; the order is strictly ascending, no quadrant is locked twice, and the held set is exactly the quadrants on the path, all in 1..4 |
| `Locks.ReleasePath` | cars.c:184-188 | unlocks from slot 3 down to 0; each quadrant unlocked is held, the order is the reverse of the locking order (strictly descending), and nothing is held afterwards |
| `Intersections.ScheduleSplits` | cars.c:36-40 | the records split exactly, as multisets, into the four lanes' lists |
| `Intersections.ForLaneMembers` | cars.c:37 | a lane's list holds only records that enter from that lane's direction |
| `Intersections.ForLaneAppend` | cars.c:28-41 | the records of a concatenated schedule split lane by lane into the concatenated lists |
| `Intersections.Intersection.constructor` | cars.c:53-79 | four distinct lanes, each with its own freshly allocated buffer, each idle with an empty `inCars` |
| `Intersections.Intersection.LaneOf` | cars.c:37 | the lane of entry direction `d` is one of the intersection's lanes |
| `Intersections.Intersection.LaneOfDistinct` | cars.c:37 | in a valid intersection, two directions share a lane, or a buffer, exactly when they are the same direction |
| `Intersections.Intersection.AddCar` | cars.c:36-40 | one record is prepended to the `inCars` of the lane it enters from; every other lane's `inCars` is unchanged |
| `Intersections.Intersection.ParseSchedule` | cars.c:28-41 | each lane's `inCars` becomes its records in reverse input order, followed by what it held before; its `inc` grows by their number; lanes stay idle |
| `Intersections.CrossingReversesSchedule` | cars.c:36-39 | once a lane loaded with the records entering from `d` has drained, its `outCars` is those records in file order, so the k-th car to cross is the k-th of them counted from the end |
| `Intersections.ExampleCrossedLists` | cars.c:174-175 | with the schedule `(1, NORTH, SOUTH)`, `(2, EAST, WEST)`, NORTH's list holds car 1, EAST's holds car 2, and SOUTH's and WEST's are empty; once drained, car 1 is in NORTH's `outCars` and car 2 in EAST's, and neither car is in the `outCars` of SOUTH or WEST, the lanes of their exit directions |
| `Intersections.RecordAtExit` | cars.c:130-132 | the crossing recorded as the comment asks: four crossed lists remain, the list of the car's exit direction becomes the car followed by everything it held, and every other list is unchanged |
| `Intersections.RecordAtExitFiles` | cars.c:130-132 | recording at the exit lane keeps every crossed list holding only cars leaving in its direction; the exit lane's list becomes the car followed by its earlier cars, and the other three lists are unchanged |
| `Intersections.CarCross` | cars.c:164-188 | the crossing car is the front of the queue; the quadrants locked are exactly its route, in ascending order; during the crossing the held set is the route's quadrants; they are unlocked in reverse order; the lane moves by `Cross` and stays valid |

## Left out

- Threads, mutexes and condition variables (cars.c:62-68, 97-104, 114-116, 158-162, 189-190) are not modelled. Each wait loop becomes a precondition: `inBuf < capacity` for `ArriveStep` and `inBuf > 0` for `CrossStep`. Mutual exclusion between crossing threads and deadlock freedom are out of scope.
- The outer loops of `car_arrive` and `car_cross` (cars.c:95, 156) read `inc` and `in_buf` without the lock. Their meaning depends on concurrency. They are not modelled as loops. Their guard `inc != 0` appears as the precondition `inc > 0` of `ArriveStep`. Only the arrival thread changes `inc` while workers run, and without that guard `current` would be NULL.
- The quadrant mutexes themselves (cars.c:62, 170, 186) are not modelled. Each crossing's lock state is the set of quadrants that thread holds, starting empty.
- File reading in `parse_schedule` (cars.c:25-28, 43) is left out. The `(int*)` casts can produce direction values outside the four enum constants. A four-valued datatype cannot represent those.
- The `fprintf` crossing record (cars.c:181-182) is not printed. The record's fields are the entry direction, exit direction and id of the car `CarCross` returns. `heldWhileCrossing` is the set of quadrants held when it is emitted.
- `malloc` calls (cars.c:31, 75, 205) are left out. The path array is never freed in the source, and freeing is not modelled either.
- Integer widths: the counters and ids are unbounded integers. C `int` overflow after 2^31 cars is not modelled.
- A C `struct car` has a single `next` pointer, shared by `in_cars` and `out_cars`. cars.c:174 overwrites it when the car crosses, so `in_cars` can no longer be walked past a crossed car. The model keeps `inCars` as a separate sequence that crossing does not change, and uses it as the lane's history. The arrival order is unaffected: `car_arrive` reads `current->next` (cars.c:112) in the same critical section in which it buffers the car, before the car can cross.
- `init_intersection` (cars.c:69-75) sets neither `in_cars` nor `out_cars`. They are empty only because the global `isection` is zero-initialised. The model's lane constructor starts both lists empty for that reason. Its `cursor` stands for `car_arrive`'s local `current`, which is set at cars.c:94 and not by `init_intersection`.
- The model assumes that `init_intersection` runs before `parse_schedule`, as the constructor runs before `ParseSchedule`. In the other order, cars.c:69 would reset `inc` to 0 after loading, and no car would ever arrive.
- `Intersections.Intersection.ParseSchedule` requires every lane to be idle. The schedule is loaded before any worker starts. `car_arrive` reads the head of `in_cars` once, when it starts (cars.c:94).

## Findings

| source | as written | input that shows it | evidently intended | confidence | as-written member | corrected member |
|---|---|---|---|---|---|---|
| cars.c:174-175 | a crossed car is prepended to `l->out_cars`, the crossed list of the lane it entered from | schedule `(1, NORTH, SOUTH)`, `(2, EAST, WEST)`: car 1 ends in NORTH's list, although it leaves towards SOUTH | prepend it to the `out_cars` of the lane of its `out_dir`, as the comments at cars.c:130-132 and cars.c:151 ask | high; not executed | `Lanes.Cross`, with `Lanes.OutCarsFromEntryLane` and `Intersections.ExampleCrossedLists` | `Intersections.RecordAtExit`, with `Intersections.RecordAtExitFiles` |

Nothing else in cars.c reads `out_cars`, and the crossing record printed at cars.c:181-182 does not depend on which list holds the car. `CarCross` therefore keeps the as-written list, so that it models the code; `RecordAtExit` states where the car was meant to go.
