# Roguelike room generation, modelled in Dafny

RoguelikeRoomGeneration is a set of prototype dungeon generators. Each one
scatters rectangular rooms on a bounded map by rejection sampling, so that no
two rooms come closer than a gap. It then tries to join the rooms with
corridors. The repository has four variants of this algorithm and two
collection helpers, and this project models all of them:

- `Program.cs` places rooms with a gap of 2. It analyses every ordered pair
  of rooms for a shared column or row range (`AreRoomsConnectable`). It then
  builds one straight corridor, one cell thick, per connection and drops the
  corridors that cross a room (`GenerateCorridors2`). The active
  `GenerateCorridors` is a stub that returns nothing.
- `RoomGenerator1.cs` does the same with a gap of 8, rooms at least 10 wide,
  a running `Index` on each room, and corridors of zero thickness.
- `RoomGenerator2.cs` places rooms with a padding of 8, building each through
  `CreateRoomFromRect`. `GenerateCorridors` walks the rooms from west to east.
  For each room it finds the closest neighbour to the east. It emits either a
  straight horizontal corridor or two halves joined by a vertical joint, and
  it appends the joint to the caller's room list while the walk goes on.
- `ProceduralLevelGeneration/Program.cs` places bare rectangles with a gap
  of 2 and can also allocate a zeroed map grid.
- `ExtensionMethods.cs` has `Split`, a round-robin partition into `parts`
  groups, and `DistinctBy`, which keeps the first element of each key.

The modules follow the program:

- `Drawing` restates the parts of `System.Drawing.Rectangle` that are used.
  Its `IntersectsWith` is strict, and it defines C#'s truncating `/` and `%`.
- `Rooms` holds the shared enumerations, `GetRoomInfo`, and the contract of
  `Random.Next`.
- `Placement` holds the rejection loop that all four `GenerateRooms` share,
  as a specification function (`Place`) with its safety lemmas.
- `Connectivity` holds `Enumerable.Range`, `Intersect`, `AreRoomsConnectable`,
  the pair sweep, the straight corridor formula and the filter that drops
  corridors crossing a room. `Program.cs` and `RoomGenerator1.cs` share all
  of these.
- There is one module per source file: `RoguelikeRoomGeneration`,
  `FirstGen`, `SecondGen`, `ProceduralLevelGeneration` and
  `ExtensionMethods`. Each source file declares its own `Room` class.
  `RoomGenerator1.cs` adds `Index` to it, and `RoomGenerator2.cs` adds
  `Connection` and drops the connection info. The sweep and the filter
  work on rectangles and their infos, so `Program.cs` and `RoomGenerator1.cs`
  can both use them. `FirstGen` keeps only its own record, its corridor
  builder (zero thickness) and its `GenerateCorridors`.

The loops of the source are methods with loop invariants. Each method is
proved equal to a specification function (`Place`, `Rows`, `KeepClear`,
`Visit`, `FirstOfEachKey`), and the properties the program relies on are
proved about those functions as lemmas.

The random source is an oracle. Each `GenerateDimension` receives the four
values its `Random.Next(a, b)` calls returned. Each value obeys Next's
contract: `a <= v < b`, or `v == a` when `a == b`. The unbounded
`do … while` runs over a finite stream of such draws.
`Placement.PlaceMoreDraws` shows that a result shorter than asked for only
means the stream ran dry.

The model follows the code as written; in particular:

- The code never bounds the retry loop.
- The code always takes the middle element of the intersection range. The
  `Random` built from the range's length is never used.
- The code does not drop zero-length corridors. They are dropped only when
  they cross a room.
- The elbow corridors of `RoomGenerator2.cs` are built only towards eastern
  neighbours, and never towards southern ones.
- `IntersectsWith` is strict. A corridor that only touches a room's edge is
  not "blocked".

## Model

| member | source | states |
|---|---|---|
| Drawing.AverageBounds | Program.cs:126-127 | `(int)new[]{a, b}.Average()` lies between a and b; it is the floor of the mean for a non-negative sum and rounds towards zero otherwise |
| Drawing.TruncRemOfNatural | ExtensionMethods.cs:14 | C#'s remainder of a non-negative number by a non-zero divisor is the Euclidean remainder by its absolute value |
| Rooms.RoomInfoDescribes | Program.cs:118-132 | the four corners are (Left,Top), (Right,Top), (Left,Bottom), (Right,Bottom); Width, Height and Rectangle are the rectangle's; HorizontalMiddle is (truncated mean of Left and Right, Left) and VerticalMiddle is (Top, truncated mean of Top and Bottom), each mean within the rectangle's extent |
| Placement.SeparatedSymmetric | Program.cs:102-103 | the acceptance test gives the same answer with the candidate and the placed room swapped |
| Placement.SeparatedDoNotIntersect | Program.cs:102-103 | two rectangles more than a non-negative gap apart on some side do not intersect, either way round |
| Placement.PlaceExtends | Program.cs:94-113 | placement keeps the accepted rooms in front as a prefix, adds at most n rooms, and each added room is one of the drawn candidates |
| Placement.PlaceKeepsSeparation | Program.cs:94-113 | if the accepted rooms are pairwise separated, they stay so after any number of rejection rounds |
| Placement.PlaceMoreDraws | Program.cs:94-113 | once n rooms are placed, further draws change nothing; with fewer placed, further draws continue from exactly the rooms placed so far, so a short result only means the draws ran out |
| Placement.PairwiseSeparatedDisjoint | Program.cs:102-103 | rooms pairwise separated by a non-negative gap are pairwise non-intersecting |
| Placement.PlaceFromEmpty | Program.cs:88-116 | from no rooms: at most n rooms, each a candidate, pairwise separated by more than the gap and pairwise non-intersecting |
| Connectivity.RangeAt | Program.cs:136-139 | the k-th element of `Enumerable.Range(start, count)` is start + k |
| Connectivity.IntersectMembers | Program.cs:141-142 | `Intersect` yields exactly the elements of the first list found in the second, without duplicates |
| Connectivity.IntersectRange | Program.cs:141-142 | intersecting a range with the members of an interval yields the ascending run of the integers common to both |
| Connectivity.IntersectRanges | Program.cs:141-142 | `Range(lo1, n1).Intersect(Range(lo2, n2))` is the ascending run from the larger start to the smaller end, exclusive |
| Connectivity.AreRoomsConnectable | Program.cs:134-187 | null exactly when neither the X ranges nor the Y ranges meet; Vertical with the shared X run whenever the X ranges meet, even when the Y ranges meet too; otherwise Horizontal with the shared Y run; the room with the smaller Y (Vertical) or X (Horizontal) dominates, the first room winning ties; Room1, Room2 and both infos are the inputs |
| Connectivity.ConnectionOfRooms | RoomGenerator1.cs:148-199 | for rooms carrying their own info: the same contract in terms of the rectangles' edges, with {Dominant, Inferior} equal to {room1, room2} and Dominant no further down (or right) than Inferior |
| Connectivity.RowConnects | Program.cs:210-217 | every connection collected for one room is usable and is that room's connection with some other room of the list |
| Connectivity.RowsConnect | Program.cs:208-218 | every collected connection is usable and is the connection of some ordered pair of distinct rooms |
| Connectivity.RowComplete | Program.cs:210-217 | the inner loop misses no connection: room i's connection with any other room it has passed is collected |
| Connectivity.RowsComplete | Program.cs:208-218 | the nested loop misses no connection: the connection of any ordered pair of distinct rooms whose first room it has passed is collected |
| Connectivity.Connections | Program.cs:208-218 | every connection of the pair sweep has a non-empty range and an orientation |
| Connectivity.ConnectionsExact | Program.cs:208-218 | a connection is collected exactly when it is `AreRoomsConnectable` of some ordered pair of distinct rooms, both directions |
| Connectivity.ConnectRoom | Program.cs:210-217 | the inner loop collects room i's connections with every other room, in list order |
| Connectivity.ConnectAll | Program.cs:208-218 | the nested loop collects the connections of all ordered pairs of distinct rooms, room by room |
| Connectivity.CorridorAvoidsItsRooms | Program.cs:226-233 | a corridor starts on its Dominant room's far edge and ends on its Inferior room's near edge, so it intersects neither |
| Connectivity.CorridorAtMiddle | Program.cs:224 | the corridor sits at the middle element of the shared run, which lies inside both rooms' ranges |
| Connectivity.CorridorSpansGap | RoomGenerator1.cs:155-183 | for two rooms more than a gap apart, the X and Y ranges never both meet, and the corridor between them is longer than the gap |
| Connectivity.ConnectionsSpanGap | RoomGenerator1.cs:206-231 | for pairwise separated rooms carrying their own info, every corridor built from the pair sweep is longer than the gap |
| Connectivity.KeepClearExact | Program.cs:244-247 | the filter keeps a corridor exactly when it is one of the corridors and no room intersects it, and keeps the corridors' order |
| Connectivity.RemoveBlocked | Program.cs:244-247 | the `Where`/`Except` pair keeps, in order, exactly the corridors that no room intersects |
| RoguelikeRoomGeneration.GenerateDimension | Program.cs:70-86 | a drawn room is 5 to roomMaxWidth−1 wide and 5 to roomMaxHeight−1 high, starts at x ≥ 2 and y ≥ 2, and ends 3 short of the map's far edges, or exactly where Next(a, a) pins it |
| RoguelikeRoomGeneration.GenerateRooms | Program.cs:88-116 | the rooms are the rejection loop's result over the draws, at most numRooms, each of Type Room and Orientation None with RoomInfo = GetRoomInfo(rect), in bounds, pairwise separated by more than 2, and pairwise non-intersecting |
| RoguelikeRoomGeneration.GenerateCorridors | Program.cs:189-201 | the active corridor generator returns no corridors |
| RoguelikeRoomGeneration.BuildCorridors | Program.cs:220-242 | one corridor per connection, in order: Vertical (p, Dominant.Bottom, 1, Inferior.Top − Dominant.Bottom), Horizontal (Dominant.Right, p, Inferior.Left − Dominant.Right, 1), with p the middle element of the range |
| RoguelikeRoomGeneration.GenerateCorridors2 | Program.cs:203-248 | the result is the one-cell corridors of the pair sweep's connections, in order, with those crossing a room removed; every returned corridor is of Type Corridor and intersects no room |
| RoguelikeRoomGeneration.StackedRoomsCorridor | Program.cs:134-233 | two rooms in the same columns, one below the other: the connection is Vertical through those columns, the upper room dominates, and the corridor fills the rows between them at the middle column |
| RoguelikeRoomGeneration.DroppedCorridorCrossesThirdRoom | Program.cs:226-247 | a corridor that the filter drops crosses some room other than the two it joins |
| FirstGen.GenerateDimension | RoomGenerator1.cs:82-98 | a drawn room is 10 to roomMaxWidth−1 wide and 5 to roomMaxHeight−1 high, starts at x ≥ 2 and y ≥ 2, and ends 3 short of the map's far edges, or exactly where Next(a, a) pins it |
| FirstGen.GenerateRooms | RoomGenerator1.cs:100-130 | as in Program.cs with a gap of 8; in addition the k-th room (from 0) has Index k + 1 |
| FirstGen.BuildCorridors | RoomGenerator1.cs:218-240 | one zero-thickness corridor per connection, in order: Vertical (p, Dominant.Bottom, 0, Inferior.Top − Dominant.Bottom), Horizontal (Dominant.Right, p, Inferior.Left − Dominant.Right, 0) |
| FirstGen.GenerateCorridors | RoomGenerator1.cs:201-246 | the result is the zero-thickness corridors of the pair sweep's connections, in order, with those crossing a room removed; every returned corridor is of Type Corridor and intersects no room |
| FirstGen.DroppedCorridorCrossesThirdRoom | RoomGenerator1.cs:226-245 | a corridor that the filter drops crosses some room other than the two it joins |
| FirstGen.CorridorsOutlastGap | RoomGenerator1.cs:104-231 | for rooms as placed (own info, sizes ≥ 0, separated by more than 8), every corridor built is longer than 8 |
| SecondGen.CreateRoomFromRect | RoomGenerator2.cs:119-131 | the record's rectangle is (x, y, width, height), its RoomInfo is GetRoomInfo of that rectangle, its Connection is fresh, and orientation and type are as given |
| SecondGen.GenerateDimension | RoomGenerator2.cs:77-93 | a drawn room is 10 to roomMaxWidth−1 wide (exactly 10 when the maximum is 10) and 5 to roomMaxHeight−1 high, and ends 3 short of the map's far edges, or exactly where Next(a, a) pins it |
| SecondGen.MaxWidthTenFixesWidth | RoomGenerator2.cs:56-81 | with MAX_ROOM_WIDTH = 10, `Next(10, 10)` makes every room exactly 10 wide |
| SecondGen.GenerateRooms | RoomGenerator2.cs:95-117 | the rooms are the rejection loop's result over the draws with padding 8, at most numRooms, each built by CreateRoomFromRect with Orientation None and Type Room, in bounds, pairwise separated and pairwise non-intersecting |
| SecondGen.InsertByX | RoomGenerator2.cs:157 | inserting adds exactly the one element |
| SecondGen.InsertByXSorted | RoomGenerator2.cs:157 | inserting into a list ordered by X keeps it ordered |
| SecondGen.SortByX | RoomGenerator2.cs:157 | `OrderBy(x => x.Rectangle.X)` is a permutation of its input, ordered by X |
| SecondGen.FirstWhere | RoomGenerator2.cs:164-165 | `FirstOrDefault` is null exactly when no element passes the filter, and otherwise the first element that passes |
| SecondGen.ClosestHorizontalNeighborIsClosest | RoomGenerator2.cs:163-167 | a neighbour exists exactly when some room lies east and starts less than 3 below the room's bottom; it is one of the rooms, it passes that test, and no passing room lies further west |
| SecondGen.FirstWhereSortedIsWestmost | RoomGenerator2.cs:163-165 | in a list ordered by X, the first passing element has the least X of all passing elements |
| SecondGen.ConnectShape | RoomGenerator2.cs:172-203 | equal middles: one corridor (room.Right, y0, d, 0); otherwise a first half (room.Right, y0, d/2, 0), a joint (room.Right + d/2, min(y0, y1), 0, abs(y1 − y0)) at least 1 high, and a second half (joint.X, y1, d/2, 0) listed first; the last corridor ends at the neighbour's edge, one short when d is odd and positive |
| SecondGen.RoomList.Add | RoomGenerator2.cs:203 | `List.Add` appends the room and leaves the rest of the list as it was |
| SecondGen.Join | RoomGenerator2.cs:172-203 | the imperative body, including the field-by-field updates of `corrJoint`, produces exactly the corridors and joint of the specification |
| SecondGen.GenerateCorridors | RoomGenerator2.cs:149-209 | the room list and corridors afterwards are those of visiting a snapshot of the rooms in X order, each visit searching the current list, joints appended earlier included |
| SecondGen.ConnectPieces | RoomGenerator2.cs:174-203 | one visit adds at most two corridors, each a horizontal corridor zero high, and at most one joint, a horizontal corridor zero wide and at least 1 high |
| SecondGen.VisitGrows | RoomGenerator2.cs:157-206 | the walk only appends: per visited room at most one joint to the rooms and at most two corridors, the earlier entries unchanged |
| SecondGen.VisitAddsPieces | RoomGenerator2.cs:157-206 | everything the walk appends, to the rooms or the corridors, is a horizontal corridor piece; joints are zero wide and at least 1 high, corridors are zero high |
| SecondGen.GenerateCorridorsShape | RoomGenerator2.cs:149-209 | the caller's rooms stay in front of the list; at most one joint per room is added; at most two corridors per room are returned; every returned corridor is zero high and horizontal |
| ProceduralLevelGeneration.InitializeMap | ProceduralLevelGeneration/Program.cs:29-40 | a height × width grid with every cell 0 |
| ProceduralLevelGeneration.GenerateDimension | ProceduralLevelGeneration/Program.cs:42-58 | a drawn room is 1 to roomMaxWidth−1 wide and 1 to roomMaxHeight−1 high, starts at x ≥ 1 and y ≥ 1, and ends before the map's far edges, or exactly where Next(a, a) pins it |
| ProceduralLevelGeneration.GenerateRooms | ProceduralLevelGeneration/Program.cs:60-80 | the rectangles are the rejection loop's result over the draws with gap 2, at most numRooms, each in bounds, pairwise separated and pairwise non-intersecting |
| ExtensionMethods.Split | ExtensionMethods.cs:10-17 | fails (division by zero) exactly when parts is 0 and the list is not empty |
| ExtensionMethods.GroupByDeals | ExtensionMethods.cs:13-15 | grouping by the running counter modulo parts deals the list round-robin into abs(parts) groups |
| ExtensionMethods.SplitDeals | ExtensionMethods.cs:10-17 | for parts ≠ 0 there are min(n, abs(parts)) groups in key order, group k holding the elements at positions k, k + abs(parts), … |
| ExtensionMethods.PickMembers | ExtensionMethods.cs:13-15 | group k holds exactly the elements at positions ≡ k modulo the number of parts, in their original order |
| ExtensionMethods.GroupByPermutes | ExtensionMethods.cs:13-15 | grouping neither loses nor adds elements |
| ExtensionMethods.SplitPermutes | ExtensionMethods.cs:10-17 | the groups, flattened, are a permutation of the input |
| ExtensionMethods.DistinctBy | ExtensionMethods.cs:20-31 | the `seenKeys` loop returns the first element of each key, in input order |
| ExtensionMethods.FirstOfEachKeyFacts | ExtensionMethods.cs:23-30 | the output is a subsequence of the input, its keys are pairwise distinct, and every key of the input appears in it |
| ExtensionMethods.FirstOfEachKeyKeepsFirst | ExtensionMethods.cs:26-28 | each output element is the first occurrence of its key in the input |
| ExtensionMethods.DistinctKeysFixed | ExtensionMethods.cs:20-31 | a list whose keys are already distinct is returned unchanged |
| ExtensionMethods.FirstOfEachKeyIdempotent | ExtensionMethods.cs:20-31 | applying `DistinctBy` twice gives the same as applying it once |

## Left out

- Console output is not modelled: `RenderMapToConsole`, `RenderMapToConsole2`, `RenderMap`, `Log` with its `DEBUG` flag, and the "being rewritten" message of the stub. It is display and logging only.
- `Main` and the constructors are not modelled. They are wiring with hard-coded constants, and those constants become parameters here.
- `System.Random` itself is not modelled: seeding, distribution and the unused `new Random(cnx.IntersectionRange.Count)` at Program.cs:223 and RoomGenerator1.cs:221. The draws are inputs constrained by Next's contract.
- `Random.Next(a, b)` throws when `a > b`, for example when the map is too small for the largest room. The model has no value to draw there, so such draws cannot occur. When the stream of draws runs dry, the model returns the rooms placed so far, where the source would go on drawing.
- Termination of the rejection `do … while` is not modelled, for example 40 rooms on a 100 × 40 map may never finish. The loop runs over a finite stream of draws, and only safety is proved.
- 32-bit overflow of the coordinate arithmetic is not modelled. Integers are unbounded.
- `LinqExtensions.Split` and `LinqExtensions.DistinctBy` in Program.cs:342-367 duplicate `ExtensionMethods.cs` and are modelled once.
- The three copies of `GetRoomInfo` and the two copies of `AreRoomsConnectable` are identical and are modelled once each.
- ExtensionMethods.Split: modelled as one enumeration of an eager list. The captured counter `i` surviving a second enumeration, and the laziness of both helpers, are not modelled. For a negative `parts` the model follows C#'s remainder, which gives the same groups as `abs(parts)`.
- ExtensionMethods.DistinctBy: keys are compared by Dafny equality, with no `IEqualityComparer` or hashing.
- RoguelikeRoomGeneration.GenerateCorridors2 requires every room to have its `RoomInfo` set and non-negative sizes. With two or more rooms, a room without them makes the source throw a null reference or `Enumerable.Range` exception. The model does not reproduce that exception. With fewer than two rooms the sweep never reads a `RoomInfo`, and the source returns an empty list whatever the rooms hold. The requires excludes that one-room case too. Rooms from `GenerateRooms` always meet the requirement. The same applies to FirstGen.GenerateCorridors.
- `Except` compares by reference. It is modelled as an order-preserving filter, because every corridor is a distinct object.
- `x != room` in the pair sweep is modelled as position inequality. Every room of the list is a distinct object.
- SecondGen.SortByX: its contract states ordering and permutation but not stability. Stability holds by construction of the insertion sort and is what picks the first of several equally-west neighbours.
- `RoomConnection` in RoomGenerator2.cs is never set by the source and stays at its default points.
- ProceduralLevelGeneration.InitializeMap: a negative width or height, where C# throws on allocation, is excluded by the `nat` parameters.
- RoguelikeRoomGeneration.GenerateRooms: the result has exactly numRooms rooms only when the draws suffice. This is stated through Placement.PlaceMoreDraws rather than in the method's contract. The same applies to the other three `GenerateRooms`.
