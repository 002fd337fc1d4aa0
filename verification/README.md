# Verified model of the MBR vehicular relay system

The repository relays frames between vehicles. Roads are a graph whose long segments are cut into
short ones; a breadth-first search reads off the road intersections between two vehicles; the 3 x 3
geohash cells around an intersection are its relay zone; the neighbour table picks the vehicle that
stays there longest; the frame goes to that relay and from there to its destination. Around this sit
GPSR forwarding with its queue, the AODV route search, an XML reader and printer for the map, an
on/off traffic source and the MAC header.

| part | files |
|---|---|
| lists and their merge sort | Sequences, MergeSpec, NodeList |
| road graph, subdivision | RoadGraph, Segments, Geometry, RoadChains, Division |
| intersections between two vehicles | CrossVertex, SearchOrder, Diamond |
| geohash | Morton, GeoHash, GeoMove |
| relay choice | Dwelling, NeighborTable, MbrRoute |
| GPSR | PositionTable, Gpsr, RequestLedger, RequestQueue |
| AODV ring search | RingSearch, SearchRuns, Aodv |
| XML strings | XmlEntities, XmlReferences, XmlMeaning, XmlText, XmlSpaces, XmlStrings, XmlParser, XmlAttribute |
| on/off source | OnOff |
| MAC header and relay path | MacAddress, FrameFields, MacHeader, RelayPath, RelayNetwork, TwinNeighbours |
| shared | Options, Powers |

Objects that the source updates in place are classes with the same fields; what their methods do is
stated by functions on values, and the theorems are lemmas about those. `dafny verify dfyconfig.toml`
checks everything.

Where the code does something its callers may not expect, the model follows the code and says exactly
when:

- `geohash_fast_encode` and `geohash_encode` differ exactly on cell borders, and `geohash_fast_decode`
  differs from `geohash_decode` exactly at coordinate 2^32-1, where a 32-bit increment wraps.
- `StrPair::GetStr` leaves a stale character at an `&` that starts no entity once something before it
  got shorter.
- `GetCharacterRef` reads the `&` of a final `&#` without writing anything, takes digits behind the
  last `#` or `x` for a reference whatever stands before them, writes a zero when there are none, and
  wraps numbers from 2^32 on. A text is read as it is meant exactly when nothing of this happens and
  no stale character is left.
- `GetSize` and `Serialize` disagree for control wrappers and reserved control subtypes.
- An AODV request that was put off is sent even when an answer has come meanwhile, and takes the valid route
  back into search.
- The AODV search misses its number of requests exactly when a 16-bit TTL wraps harmfully.
- `ConvertUTF32ToUTF8` writes bytes that are no UTF-8 exactly for surrogates and for 0x110000 to 0x1FFFFF.
- `list_add_data_sorted` keeps a list sorted only for comparators with the sign convention of C.
- The on/off accounts fail for packets of 2^29 bytes and more, once their uncounted bits exceed those
  lost at stops.
- A relay with the MAC address of the destination loses the packet: it queues it for itself.
- A directed broadcast keeps a relay tag that a unicast packet would lose, so that its frame goes to
  the relay only, which broadcasts it.

## Model

| member | source | states |
|---|---|---|
| `NodeList.List.AddHead` | NS3/wave/model/list.c:36-41 | the node sequence behind `head` gets one fresh node in front; `count` follows |
| `NodeList.List.AddTail` | NS3/wave/model/list.c:43-58 | one fresh node at the end, all others in place; the walk to the end terminates because the list is acyclic |
| `NodeList.List.AddSorted` | NS3/wave/model/list.c:60-76 | one fresh node right before the first node that is not below it; the position is pinned by the comparisons on both sides |
| `NodeList.AddSortedKeepsOrder` | NS3/wave/model/list.c:60-76 | a sorted list stays sorted where `AddSorted` puts the node, for every total preorder whose comparator follows the sign convention: cmp(a, b) >= 0 implies cmp(b, a) <= 0 |
| `NodeList.OnlyForComparators` | NS3/wave/model/list.c:60-76 | and for no other: where the convention is broken for two values, `AddSorted` puts the second in front of the first, out of order, although the other place would have kept the list sorted |
| `NodeList.List.RemoveData` | NS3/wave/model/list.c:78-97 | exactly the first node that carries the data is unlinked, nothing else changes |
| `NodeList.List.Sort` | NS3/wave/model/list.c:110-172 | in place, with nothing but `next` rewritten: the nodes end up in the order of the bottom-up passes, acyclic, `count` kept, in max(1, ceil(log2 n)) passes and at most n*ceil(log2 n) comparisons |
| `NodeList.List.OnePass` | NS3/wave/model/list.c:121-163 | one outer round relinks the nodes into the next pass, terminates, and uses fewer comparisons than nodes |
| `NodeList.List.MergePair` | NS3/wave/model/list.c:129-161 | the inner loops turn two adjacent runs into their stable merge at the end of the output list, leaving the rest of the input alone |
| `NodeList.List.SkipRun` | NS3/wave/model/list.c:130-136 | finds the start of the second run and the exact size of the first |
| `NodeList.List.MergeRuns` | NS3/wave/model/list.c:138-160 | the merge loop: takes nodes from the two runs until both are used up, ties going to the first |
| `MergeSpec.SortCorrect` | NS3/wave/model/list.c:110-172 | for every total preorder the passes give the same nodes in nondecreasing order, nodes with equal keys in their old order |
| `MergeSpec.SortIsStable` | NS3/wave/model/list.c:110-172 | of two nodes with equal keys the first stays in front of the second |
| `MergeSpec.PassDoublesBlocks` | NS3/wave/model/list.c:121-170 | after a pass with run size k every aligned block of 2k nodes is sorted, when the blocks of k were |
| `MergeSpec.PassStable` | NS3/wave/model/list.c:128-162 | a pass never changes the order of nodes with equal keys |
| `MergeSpec.CeilLog2Unique` | NS3/wave/model/list.c:119-170 | the number of passes is the ceiling of the binary logarithm: the only p with 2^(p-1) < n <= 2^p |
| `RoadGraph.AddEdge` | NS3/wave/model/graph.cc:137-142 | the new edge is first in the list of its start; one more outdegree there, one more indegree at its end |
| `RoadGraph.RemoveEdge` | NS3/wave/model/graph.cc:152-175 | the first edge to the vertex goes, and both counters fall by one exactly when there was one |
| `RoadGraph.AddUndirected` | NS3/wave/model/graph.cc:177-180 | both directions are listed with the same road id and the degree counters stay the numbers of listed edges |
| `RoadGraph.RemoveUndirected` | NS3/wave/model/graph.cc:186-189 | keeps the graph simple, symmetric and its counters true; both directions are gone |
| `RoadGraph.AddExclusive` | NS3/wave/model/graph.cc:182-185 | keeps the graph simple, symmetric and its counters true: one edge each way, with the new road id, whatever was there before |
| `RoadGraph.Graph.AddVertex` | NS3/wave/model/graph.cc:65-67 | an isolated vertex joins at the end, the graph stays consistent |
| `RoadGraph.Graph.RemoveVertex` | NS3/wave/model/graph.cc:96-117 | the vertex and every edge to it disappear while the vertex list is walked, all other edge lists keep their edges in order, the graph stays consistent |
| `RoadGraph.Graph.IsBalanced` | NS3/wave/model/graph.cc:199-211 | answers whether all indegrees equal outdegrees, and that is always yes for a graph kept consistent |
| `RoadGraph.DegreesMeaning` | NS3/wave/model/graph.cc:137-189 | the two counters of a vertex are the number of edges it lists and the number of edges that point to it |
| `RoadGraph.LinkSimple` | NS3/wave/model/graph.cc:177-185 | adding an undirected edge where there is none keeps: no self-loop, one edge per ordered pair, symmetry with equal road ids, no edge to a foreign vertex |
| `RoadGraph.UnlinkSimple` | NS3/wave/model/graph.cc:186-189 | removing one keeps them, and the two vertices are no longer adjacent |
| `RoadGraph.DropVertex` | NS3/wave/model/graph.cc:96-117 | a consistent graph is consistent without a vertex that no edge leads to any more |
| `RoadGraph.RoadOf` | NS3/wave/model/graph.cc:539-550 | find_road_id: the road of an edge to the vertex, -1 exactly when there is none |
| `Segments.PieceLength` | NS3/wave/model/graph.cc:565-573 | a segment longer than 75 is cut into round(d/50) pieces between 37.5 and 62.5, and g of them in a row are again rounded to g |
| `Segments.CutOne` | NS3/wave/model/graph.cc:565-573 | cutting one piece off leaves a segment whose own number of pieces is one less |
| `Division.EdgeDivision` | NS3/wave/model/graph.cc:552-583 | a segment of at most 75 is left alone; a longer one is replaced by an edge of one piece and the rest, meeting in a fresh vertex at 1/a of the way, with the road id of the old edge |
| `Division.DivideEdges` | NS3/wave/model/graph.cc:592-607 | the inner loop looks at every edge that was listed when it began, while edges are put in front of and taken out of the list it walks |
| `Division.GraphDivision` | NS3/wave/model/graph.cc:585-610 | terminates although it appends vertices to the list it walks; afterwards no edge is longer than 75 and the graph is the result of a sequence of valid cuts |
| `Division.WalkStep` | NS3/wave/model/graph.cc:585-610 | one turn of the loops leaves no long edge behind and does not raise the sum of pieces still to be cut |
| `RoadChains.CutWork` | NS3/wave/model/graph.cc:552-583 | every cut lowers the sum over long edges of round(d/50)-1 by one for each direction, which is why the walk ends |
| `RoadChains.CutSimple` | NS3/wave/model/graph.cc:552-583 | a cut keeps the graph simple and symmetric |
| `RoadChains.CutsKeepPlan` | NS3/wave/model/graph.cc:585-610 | whatever end segments are cut from, and in whatever order, every original road stays a chain of equal units, each edge belonging to one chain |
| `RoadChains.Subdivided` | NS3/wave/model/graph.cc:585-610 | each original edge of length d has become a chain from one end to the other of exactly round(d/50) equal edges (one when d <= 75) with its road id, through new vertices only, each between 37.5 and 62.5 long when d > 75 |
| `Geometry.ManhattanIsProportional` | NS3/wave/model/graph.cc:552-583 | what is assumed of distances (symmetric, split in proportion by the point at 1/a) can be met: the Manhattan distance does |
| `CrossVertex.Search.FindVertex` | NS3/wave/model/graph.cc:357-374 | finds the vertex wherever it is queued; the first entry of it gets the index as its parent when it stands at the index or later, and nothing else of it or of any other entry changes |
| `CrossVertex.ReparentKeeps` | NS3/wave/model/graph.cc:357-374 | a new parent is still an earlier entry with an edge to the entry |
| `CrossVertex.AppendKeeps` | NS3/wave/model/graph.cc:485-494 | so is the parent of a new entry, and no vertex is queued twice |
| `CrossVertex.Search.PrintCrossnode` | NS3/wave/model/graph.cc:376-408 | terminates, and returns a vertex exactly when the recorded road ids change once on the way back, namely the vertex at the change |
| `CrossVertex.OneChange` | NS3/wave/model/graph.cc:376-408 | counting changes while going back finds one exactly when there is a single place where neighbouring road ids differ |
| `CrossVertex.TrailIsWalk` | NS3/wave/model/graph.cc:376-408 | the entries on the way back spell a walk in the graph from the source to the entry |
| `CrossVertex.EdgeKnown` | NS3/wave/model/graph.cc:474-482 | following an edge to a queued vertex keeps everything the search relies on, parents rewritten in mid-search included |
| `CrossVertex.EdgeNew` | NS3/wave/model/graph.cc:483-500 | so does queueing a new vertex, and the target is recognised when it is queued |
| `CrossVertex.QueueIsComplete` | NS3/wave/model/graph.cc:466-521 | a queue processed to its end without meeting the target holds every vertex that a walk from the source reaches |
| `CrossVertex.SimpleIsClosed` | NS3/wave/model/graph.cc:449-524 | what the search asks of the graph (every edge leads to another vertex of it) holds for every simple graph, so for every graph the operations above build |
| `CrossVertex.FindCrossings` | NS3/wave/model/graph.cc:449-524 | the search is a run of the steps above that ends when there is nothing left or the target is next, and the list holds, each once and in the order of reading, exactly the intersections read off in its stages: vertices other than both ends, each inside a walk between them, none when the ends are equal |
| `CrossVertex.CrossingsAreInside` | NS3/wave/model/graph.cc:449-524 | the target is queued exactly when a walk leads to it; at most as many entries as vertices; the intersections read off lie inside walks between the ends |
| `SearchOrder.AlwaysRecorded` | NS3/wave/model/graph.cc:357-494 | at every stage of every search: the parent of an entry is the last entry before it that a followed edge leads from to its vertex, its road is that of the first such edge, and the vertices stand in the order in which first edges to them were followed |
| `SearchOrder.StayAsQueued` | NS3/wave/model/graph.cc:357-494 | vertices and roads stay as they were queued while parents are rewritten |
| `Diamond.ListsBoth` | NS3/wave/model/graph.cc:449-524 | on two ways from one vertex to another, by x and by y on four roads, every search lists exactly x and y, in this order: the second because the target gets a new parent |
| `Morton.Interleave64` | NS3/wave/model/geohash.c:141-169 | deinterleaving the code gives both words back |
| `Morton.InterleaveInvertsDeinterleave` | NS3/wave/model/geohash.c:141-201 | interleaving the two halves that deinterleave64 returns gives the 64-bit word back |
| `Morton.InterleavedBits` | NS3/wave/model/geohash.c:141-169 | bit 2i of the code is set exactly when bit i of x is, and bit 2i+1 exactly when bit i of y is, through all five rounds |
| `Morton.InterleaveKeeps` | NS3/wave/model/geohash.c:141-169 | the two numbers read from the code are those of the words |
| `Morton.DeinterleaveReads` | NS3/wave/model/geohash.c:171-201 | the two halves have the values of the interleaved coordinates |
| `Morton.SameNumbersSameHash` | NS3/wave/model/geohash.c:141-201 | a hash below 4^s is determined by its two coordinates |
| `GeoHash.CellIs` | NS3/wave/model/geohash.c:50-139 | the cell that s choices of a half lead to is the c-th of 2^s equal parts of the range |
| `GeoHash.CodeHolds` | NS3/wave/model/geohash.c:50-96 | the cell bisection finds holds the point, above its lower border but for cell 0 |
| `GeoHash.Encode` | NS3/wave/model/geohash.c:50-96 | every failure case with what it leaves in the hash; on success the coordinates are those bisection finds, the hash is below 4^step, and the cell decoded from it holds the point |
| `GeoHash.Decode` | NS3/wave/model/geohash.c:103-139 | both ranges are the cells of the coordinates in the hash, for every hash and every step up to 32 |
| `GeoHash.FastEncode` | NS3/wave/model/geohash.c:203-236 | the same failure cases, for any ranges; on success with up to 30 steps and ranges that are no single points the coordinates are the floors of the scaled offsets |
| `GeoHash.FloorIsCode` | NS3/wave/model/geohash.c:50-236 | bisection and arithmetic find the same number exactly when the point is not on the border of two cells |
| `GeoHash.BorderExample` | NS3/wave/model/geohash.c:50-236 | and not, for instance, at the middle of the range after one step: 0 against 1 |
| `GeoHash.SameEncoding` | NS3/wave/model/geohash.c:50-236 | what the two encoders write is the same exactly for points inside a cell in both coordinates |
| `GeoHash.FastDecode` | NS3/wave/model/geohash.c:238-274 | the ranges it computes, with the increment of a coordinate wrapping in 32 bits |
| `GeoHash.SameCell` | NS3/wave/model/geohash.c:103-274 | the cell of bisection and the range of arithmetic agree exactly when the coordinate is not 2^32-1, or the range is empty |
| `GeoHash.SameDecoding` | NS3/wave/model/geohash.c:103-274 | so for every hash below 4^step the two decoders write the same but for coordinate 2^32-1 of a range that is not empty, which is possible at 32 steps only |
| `GeoHash.LastCellExample` | NS3/wave/model/geohash.c:238-274 | and happens for the last cell of the map at 32 steps: the ranges of the fast decoder end where the map begins |
| `GeoMove.MoveX` | NS3/wave/model/geohash.c:276-296 | one cell to the east or west: for a hash below 4^step the longitude changes by the sign of d modulo 2^step, the latitude stays; the step is kept |
| `GeoMove.MoveY` | NS3/wave/model/geohash.c:298-318 | one cell to the north or south: for a hash below 4^step the latitude changes by the sign of d modulo 2^step, the longitude stays; the step is kept |
| `GeoMove.UpCarries` | NS3/wave/model/geohash.c:276-296 | the carry trick: when the last digit is 1 it becomes 0 and the move goes on in the digits before it |
| `GeoMove.MoveXTurnsLongitude` | NS3/wave/model/geohash.c:276-296 | adds or subtracts 1 modulo 2^step in the longitude and leaves the latitude alone, for steps 1..32 and every hash below 4^step |
| `GeoMove.MoveYTurnsLatitude` | NS3/wave/model/geohash.c:298-318 | the same for the latitude |
| `GeoMove.MovesCancel` | NS3/wave/model/geohash.c:276-318 | opposite moves cancel |
| `GeoMove.MovesCommute` | NS3/wave/model/geohash.c:276-318 | moves in the two coordinates commute |
| `GeoMove.GetNeighbor` | NS3/wave/model/geohash.c:375-438 | the neighbour in each of the eight directions, -1 for a null pointer |
| `GeoMove.GetNeighbors` | NS3/wave/model/geohash.c:320-331 | all eight neighbours |
| `GeoMove.GetNeighborsInSet` | NS3/wave/model/geohash.c:333-361 | fills the zone, refusing a set with neither three rows nor three columns |
| `GeoMove.ZoneNumbers` | NS3/wave/model/geohash.c:333-361 | row i, column j holds the cell (lat+1-i, lon+j-1) modulo 2^12 |
| `GeoMove.ZoneCellsDistinct` | NS3/wave/model/geohash.c:333-361 | the nine cells are distinct |
| `GeoMove.IsGeohashInSet` | NS3/wave/model/geohash.c:363-372 | true exactly for the nine cells |
| `NeighborTable.LatestIsMaximum` | NS3/mbr-neighbor/model/neighbor.cc:82-106 | the abstract value of a neighbour is the maximum over all its past updates of update time plus expiry |
| `NeighborTable.Neighbors.Purge` | NS3/mbr-neighbor/model/neighbor.cc:108-127 | exactly the entries not yet expired remain, in order, and the table still refines the history |
| `NeighborTable.Neighbors.Update` | NS3/mbr-neighbor/model/neighbor.cc:82-106 | a listed entry gets the new position and time, keeps the later expiry, its first known address, cell and heading, and every other entry stays; a new one is appended and the table purged; IPs stay unique and the table refines the longer history |
| `NeighborTable.Neighbors.IsNeighbor` | NS3/mbr-neighbor/model/neighbor.cc:30-41 | true at t exactly when the maximum over the past updates of the address is at least t |
| `NeighborTable.Neighbors.GetExpireTime` | NS3/mbr-neighbor/model/neighbor.cc:43-54 | that maximum minus t, 0 for what is no neighbour |
| `NeighborTable.NewRefines` | NS3/mbr-neighbor/model/neighbor.cc:82-106 | a neighbour heard again after it was purged starts over without contradicting the history |
| `NeighborTable.Neighbors.GetGeohashFromIp` | NS3/mbr-neighbor/model/neighbor.cc:166-182 | cell, address and position of a live entry, 0 exactly when there is no live entry (or its cell is 0) |
| `Dwelling.GetDtime` | NS3/mbr-neighbor/model/neighbor.cc:311-350 | the time read off the first place of the cell in the set, for any set with three rows or three columns; -1 for a cell outside and for unsupported sets |
| `Dwelling.TimeInZone` | NS3/mbr-neighbor/model/neighbor.cc:311-350 | for the zone around an intersection that is the dwelling time of the cell and heading |
| `Dwelling.HeadingIs` | NS3/mbr-neighbor/model/neighbor.cc:311-350 | headings fall into quarters of the compass that start 45 degrees before north, east, south and west |
| `Dwelling.RemainingLeaves` | NS3/mbr-neighbor/model/neighbor.cc:311-350 | the number read off row and column is the least number of one-cell moves in the compass direction of the heading that leaves the zone, for every heading |
| `Dwelling.DwellingTimeMeaning` | NS3/mbr-neighbor/model/neighbor.cc:311-350 | the dwelling time is -1 exactly outside of the zone, else between 1 and 3 and the least number of moves that leaves it |
| `NeighborTable.Neighbors.GetnbFromsetBest` | NS3/mbr-neighbor/model/neighbor.cc:356-397 | 1 exactly when an unexpired entry is in the set, and then the address of the first entry of maximal time, early exit included, for any set with three rows or three columns; else 0 |
| `NeighborTable.BestInZone` | NS3/mbr-neighbor/model/neighbor.cc:356-397 | for the zone around an intersection that is the first unexpired entry of maximal dwelling time, and there is one exactly when some entry is in the zone |
| `MbrRoute.MbrRoute.constructor` | NS3/wave/model/mbr_route.cc:17-21 | the two distance limits: 7, and 0.707*26+14 truncated, which is 32; both counters start at 0 |
| `MbrRoute.CheckDistances` | NS3/wave/model/mbr_route.cc:140-165 | whether the relay pays: both distances above the lower limit, and either both above the upper one or the detour at least 26 |
| `MbrRoute.FarEnoughIff` | NS3/wave/model/mbr_route.cc:140-165 | for d1 and d2 above the lower limit d and not both above the upper one the relay pays exactly when k*k*(d1*d1 + d2*d2) >= 676*d1*d1*d2*d2, with k = d1*d2 - d*(d1 + d2) |
| `MbrRoute.BoundExamples` | NS3/wave/model/mbr_route.cc:140-165 | with the limits 7 and 32 it does not for 30 and 30, and does for 33 and 32 |
| `MbrRoute.MbrRoute.WalkIntersections` | NS3/wave/model/mbr_route.cc:111-178 | stops at the first intersection with a live entry in its zone or the destination itself; 0 exactly when the destination is not in that zone and the distances allow it; the relay is the best live entry of that zone and not the destination; the counters |
| `MbrRoute.MbrRoute.MbrForward` | NS3/wave/model/mbr_route.cc:45-185 | the whole decision: -1 without map, neighbour application or live entry of the destination; else decided on the intersections cross_vertex lists between destination and node, in that order |
| `MbrRoute.RelayedIff` | NS3/wave/model/mbr_route.cc:111-178 | a relay is used exactly when at the first intersection with a live neighbour or the destination in its zone the destination is not in it and the distances allow it |
| `MbrRoute.RelayIs` | NS3/wave/model/mbr_route.cc:111-178 | and then it is a live neighbour in that zone other than the destination, the first of those that stay there longest |
| `PositionTable.Table.AddEntry` | NS3/gpsr/model/gpsr-ptable.cc:65-80 | the address maps to the new position and time, every other entry stays |
| `PositionTable.Table.Purge` | NS3/gpsr/model/gpsr-ptable.cc:167-202 | exactly the entries remain whose lifetime is not over |
| `PositionTable.Table.BestNeighbor` | NS3/gpsr/model/gpsr-ptable.cc:222-286 | the first closest live neighbour when it is strictly closer than the node, else none |
| `PositionTable.BestNeighborFromMbr` | NS3/gpsr/model/gpsr-ptable.cc:229-257 | the same choice among the neighbours of the other table, at the positions the nodes are at, without a purge |
| `PositionTable.BestIsUnique` | NS3/gpsr/model/gpsr-ptable.cc:222-286 | there is one greedy choice, and it is a neighbour exactly when one is strictly closer |
| `PositionTable.CloserIff` | NS3/gpsr/model/gpsr-ptable.cc:222-286 | comparing squares of distances compares the distances |
| `Gpsr.Router.Forwarding` | NS3/gpsr/model/gpsr.cc:874-1021 | on along the perimeter, to the destination, to the greedy choice or into recovery, with the header each of them sends |
| `Gpsr.AlwaysCarries` | NS3/gpsr/model/gpsr.cc:875-1021 | over every run, whatever a node sends on carries the position of the source and of the destination, its own position as the last hop, the latest time heard where the header was rebuilt, and in recovery the position of the node that had it enter recovery |
| `Gpsr.PreviousHop` | NS3/gpsr/model/gpsr.cc:395-458 | so every packet that arrives carries the position of the node it comes from |
| `Gpsr.OnThePerimeter` | NS3/gpsr/model/gpsr.cc:395-458 | in recovery the next hop is the one found from the previous node to this one; where recovery is entered on the way, from the destination; and the packet is dropped exactly when there is none |
| `Gpsr.RecoveryEnds` | NS3/gpsr/model/gpsr.cc:875-1021 | recovery ends exactly at nodes closer to the destination than the node where it began |
| `Gpsr.CommitGoesWhere` | NS3/gpsr/model/gpsr.cc:875-1021 | outside of recovery the packet goes to the destination when that is a neighbour, else to the closest neighbour if one is closer than the node, else into recovery from here |
| `Gpsr.Router.SendPacketFromQueue` | NS3/gpsr/model/gpsr.cc:283-390 | waits while the position is searched; drops, in order, exactly the packets that wait for the destination when it is unknown; else takes these from the queue, in order, gives those without one a source address or has them enter recovery, each with its header, and ends early exactly at a packet of no known type in recovery, which is lost while the later ones stay; packets for other destinations stay |
| `Gpsr.HandledIsOriginated` | NS3/gpsr/model/gpsr.cc:283-390 | for a packet with a position header that is the same choice as at a source: the destination, the greedy next hop, or recovery from here |
| `Gpsr.FateOf` | NS3/gpsr/model/gpsr.cc:283-390 | what becomes of each packet that waited, in full: next hop, source address and headers, or its loss |
| `RequestQueue.FirstTaken` | NS3/gpsr/model/gpsr-rqueue.cc:63-77 | taking the first entry for a destination leaves the later ones for it in order and all others in place |
| `Gpsr.PotentialFalls` | NS3/gpsr/model/gpsr.cc:875-1021 | the distance of the recovery position (in recovery) or of the node to the destination never rises at a visit, and falls at each greedy hop and each exit from recovery |
| `Gpsr.NeverRises` | NS3/gpsr/model/gpsr.cc:875-1021 | it never rises along a whole run, tables gaining and losing entries at will |
| `Gpsr.OneCommitPerNode` | NS3/gpsr/model/gpsr.cc:875-1021 | no node forwards a packet greedily or has it enter recovery twice |
| `Gpsr.CommitmentsBounded` | NS3/gpsr/model/gpsr.cc:875-1021 | a run holds at most as many such steps as there are nodes |
| `RequestQueue.RequestQueue.Enqueue` | NS3/gpsr/model/gpsr-rqueue.cc:21-43 | refused exactly when the same uid waits for the same destination; a full queue reports and loses its oldest entry; the books stay in order |
| `RequestQueue.RequestQueue.Dequeue` | NS3/gpsr/model/gpsr-rqueue.cc:63-77 | the first entry for the destination, or none exactly when there is none; one more packet in the books as handed out |
| `RequestQueue.RequestQueue.DropPacketWithDst` | NS3/gpsr/model/gpsr-rqueue.cc:45-61 | reports, in order, and removes exactly the entries for the destination |
| `RequestQueue.RequestQueue.Purge` | NS3/gpsr/model/gpsr-rqueue.cc:94-116 | takes exactly the first n entries, reported in order: those with an expiry time before now; all others stay |
| `RequestQueue.RequestQueue.GetSize` | NS3/gpsr/model/gpsr-rqueue.cc:14-19 | the length after a purge, never above the maximum |
| `RequestQueue.RequestQueue.Find` | NS3/gpsr/model/gpsr-rqueue.cc:79-91 | whether an entry for the destination is there, expired ones included |
| `RequestLedger.Accept` | NS3/gpsr/model/gpsr-rqueue.cc:21-43 | accepting a packet keeps the books |
| `RequestLedger.DropAt` | NS3/gpsr/model/gpsr-rqueue.cc:102-125 | so does reporting and removing an entry |
| `RequestLedger.HandAt` | NS3/gpsr/model/gpsr-rqueue.cc:63-77 | so does handing out the first entry for a destination |
| `RequestQueue.EveryPacketAccountedFor` | NS3/gpsr/model/gpsr-rqueue.cc:21-125 | over every run each accepted packet is in exactly one place (queued, dequeued once, reported once), no pair of uid and destination is queued twice, the length is bounded, expiry times do not decrease along the queue, dequeues for one destination follow enqueue order |
| `RequestQueue.LateIsLate` | NS3/gpsr/model/gpsr-rqueue.cc:21-125 | over every run a packet reported as outdated was accepted more than the timeout before |
| `XmlEntities.EscapedIsClean` | NS3/wave/model/tinyxml2.cpp:2355-2400 | escaped text holds no character that closes it, and no CR or zero that was not there |
| `XmlEntities.Utf8RoundTrip` | NS3/wave/model/tinyxml2.cpp:402-448 | what is written for a number is its UTF-8 sequence by section 3 of RFC 3629 exactly when it has one; for surrogates and for 0x110000 to 0x1FFFFF it is no UTF-8 at all, and from 2^21 on nothing is written |
| `XmlEntities.Utf8Examples` | NS3/wave/model/tinyxml2.cpp:402-448 | and five characters of the examples in section 7 of RFC 3629 |
| `XmlEntities.SurrogateExample` | NS3/wave/model/tinyxml2.cpp:402-544 | the reference &#xD800; becomes three bytes that are no UTF-8 |
| `XmlEntities.PieceShrinks` | NS3/wave/model/tinyxml2.cpp:266-364 | one round of GetStr writes no more than it reads, numeric references of any value and length included: the write pointer never passes the read pointer |
| `XmlStrings.XMLPrinter.PrintString` | NS3/wave/model/tinyxml2.cpp:2355-2400 | appends the escaped string, run by run, or the string itself when entities are not processed |
| `XmlStrings.XMLPrinter.PushAttribute` | NS3/wave/model/tinyxml2.cpp:2436-2442 | appends the attribute with its escaped value |
| `XmlReferences.NarrowReference` | NS3/wave/model/tinyxml2.cpp:451-544 | a reference, &# with decimal or &#x with hexadecimal digits and a semicolon, is read up to its semicolon and written as the UTF-8 of the number that its digits denote, for every number below 2^32 with any leading zeros |
| `XmlReferences.ReferenceIsRead` | NS3/wave/model/tinyxml2.cpp:451-544 | for every reference what is written belongs to a number that differs from the one denoted by a multiple of 2^32 |
| `XmlReferences.WrappedExample` | NS3/wave/model/tinyxml2.cpp:451-544 | so `&#x100000041;` is read as an A |
| `XmlReferences.WrittenReference` | NS3/wave/model/tinyxml2.cpp:451-544 | a reference as it is written, whatever follows it: where it ends, what number it has, and that it denotes a character exactly below 0xD800, 0 apart, and from 0xE000 to 0x10FFFF |
| `XmlReferences.WhatIsRead` | NS3/wave/model/tinyxml2.cpp:451-544 | for any text that starts with &#: what is read ends at the first semicolon, and the digits behind the last # or x in front of it make up the number, whatever stands before them |
| `XmlStrings.GetCharacterRef` | NS3/wave/model/tinyxml2.cpp:451-544 | null, or what is read and written; for a reference to a number below 2^32 the UTF-8 of that number |
| `XmlStrings.MatchEntity` | NS3/wave/model/tinyxml2.cpp:336-348 | the first entity of the table that stands here, five when none does |
| `XmlParser.StrPair.ParseText` | NS3/wave/model/tinyxml2.cpp:192-214 | marks the text up to the first end tag, or fails exactly when there is none before the end; line feeds passed are counted |
| `XmlParser.StrPair.GetStr` | NS3/wave/model/tinyxml2.cpp:266-364 | converts the marked memory in place, ends it with a zero, collapses the white space of that C string when asked to, and touches nothing outside; a second call changes nothing |
| `XmlParser.StrPair.CollapseWhitespace` | NS3/wave/model/tinyxml2.cpp:237-263 | in place: what remains of a C string are its words, the longest runs without white space, in order, with one space between them |
| `XmlSpaces.CollapsedKeepsWords` | NS3/wave/model/tinyxml2.cpp:237-263 | the words stay the same, and collapsing again changes nothing |
| `XmlSpaces.SpaceIs` | NS3/wave/model/tinyxml2.h:551-553 | white space is what isspace accepts in the C locale |
| `XmlParser.StrPair.Convert` | NS3/wave/model/tinyxml2.cpp:274-355 | the loop: the memory in front of the write pointer is the text converted so far, the memory behind it is untouched |
| `XmlText.ConvertedIsMeant` | NS3/wave/model/tinyxml2.cpp:266-544 | for every text the result is what the markup means (a proper reference its character, an entity of the table its character, every other & itself, line ends one LF) exactly when, at every & that starts no entity, an & stands at the write pointer, and nowhere something is read as a reference that is none |
| `XmlMeaning.NamedIsFound` | NS3/wave/model/tinyxml2.cpp:336-348 | the entities of the table are the five that section 4.6 of XML 1.0 predefines, with their characters |
| `XmlText.PrintedMeans` | NS3/wave/model/tinyxml2.cpp:2355-2400 | what is printed for a CR-free string means that string, from any character on |
| `XmlMeaning.MisreadIff` | NS3/wave/model/tinyxml2.cpp:451-544 | in C strings that happens exactly to a final &#, and to what starts with &#, has nothing but digits between the last # (after &#x: the last x) and the first semicolon, and is no reference to a character |
| `XmlMeaning.MisreadShortens` | NS3/wave/model/tinyxml2.cpp:451-544 | whatever is misread is written shorter than it is meant, so no later piece can make up for it |
| `XmlText.LosesIff` | NS3/wave/model/tinyxml2.cpp:451-544 | an & is read without anything being written exactly when entities are processed and the C string ends in &# |
| `XmlText.LostIsNotMeant` | NS3/wave/model/tinyxml2.cpp:451-544 | such a text is never read as it is meant |
| `XmlText.LostExample` | NS3/wave/model/tinyxml2.cpp:451-544 | `x&#` becomes `x#` |
| `XmlText.MisreadExamples` | NS3/wave/model/tinyxml2.cpp:451-544 | `&#;` becomes a zero, and `&#5#65;` becomes an A |
| `XmlText.TogetherIsNotStale` | NS3/wave/model/tinyxml2.cpp:339-348 | the first of these conditions is met when every such & comes before anything that got shorter |
| `XmlText.StaleExample` | NS3/wave/model/tinyxml2.cpp:339-348 | and fails for `&lt;&z`, which becomes `<lz` |
| `XmlText.EscapeRoundTrip` | NS3/wave/model/tinyxml2.cpp:266-364 | for CR-free strings converting the escaped string gives the string back, from any character on |
| `XmlAttribute.ReadBack` | NS3/wave/model/tinyxml2.cpp:192-214 | an escaped string ends at the first closing quote (or < for text), and what is before it converts back to the C string |
| `XmlAttribute.XMLAttribute.ParseDeep` | NS3/wave/model/tinyxml2.cpp:1309-1334 | marks name and value of an attribute, or fails exactly when the text is none; the line feeds of the text looked at are counted |
| `XmlAttribute.ParseName` | NS3/wave/model/tinyxml2.cpp:217-234 | marks the longest name that starts here |
| `XmlAttribute.NameCharIs` | NS3/wave/model/tinyxml2.h:555-571 | a name starts with a letter, a colon, an underscore or any byte above 127, and goes on with these, digits, points and hyphens |
| `XmlAttribute.AttributeRoundTrip` | NS3/wave/model/tinyxml2.cpp:1309-1334 | whatever ParseDeep marks in a printed attribute converts back to its name and value |
| `OnOff.OnOffApplication.CancelEvents` | NS3/applications/model/onoff-application.cc:207-222 | the whole bits generated since the last packet are kept as residual, both events are gone, and the rate is noted as unchanged |
| `OnOff.OnOffApplication.StartSending` | NS3/applications/model/onoff-application.cc:225-231 | the interval starts and the first packet is due when it is complete with the residual bits |
| `OnOff.OnOffApplication.StopSending` | NS3/applications/model/onoff-application.cc:233-239 | the interval is closed and the next start is due |
| `OnOff.OnOffApplication.ScheduleNextTx` | NS3/applications/model/onoff-application.cc:241-259 | the next packet when the byte limit allows it, else everything is cancelled |
| `OnOff.OnOffApplication.SendPacket` | NS3/applications/model/onoff-application.cc:280-310 | one packet more, no residual bits, the next one scheduled |
| `OnOff.OnOffApplication.StopApplication` | NS3/applications/model/onoff-application.cc:192-205 | ends like a stop |
| `OnOff.SendingKeeps` | NS3/applications/model/onoff-application.cc:280-310 | a packet loses no bits |
| `OnOff.CancellingKeeps` | NS3/applications/model/onoff-application.cc:207-222 | a stop loses less than one bit, and the residual bits still fit into a packet |
| `OnOff.EveryBitAccountedFor` | NS3/applications/model/onoff-application.cc:207-310 | the residual bits never exceed a packet, so the unsigned subtraction never wraps; for packets below 2^29 bytes rate times on time minus all bits accounted for lies between 0 and the number of stops |
| `OnOff.AccountedIff` | NS3/applications/model/onoff-application.cc:207-310 | they hold exactly as long as the bits that the uint32_t does not count in the packets sent are no more than those lost at stops; so, while there are fewer than 2^32 stops, exactly for packets below 2^29 bytes or before the first one is sent |
| `OnOff.LargePacketExample` | NS3/applications/model/onoff-application.cc:241-259 | a packet of 2^29 bytes counts for no bits, is sent as soon as the source starts, and breaks the accounts |
| `Aodv.RoutingProtocol.SendRequest` | NS3/aodv/model/aodv-routing-protocol.cc:1008-1145 | put off exactly when the count has reached the limit, until 100 microseconds after the limit's timer; else the entry, the timer and the TTL of the next request of the search |
| `SearchRuns.RequestSent` | NS3/aodv/model/aodv-routing-protocol.cc:1008-1145 | what a request within the limit changes: the count, the entry of the destination with the TTL and the retries counted, its timer and the requests sent; nothing of any other destination |
| `SearchRuns.RequestTtl` | NS3/aodv/model/aodv-routing-protocol.cc:1026-1045 | its TTL: the first one, the next ring or the diameter, or for an entry that is not in search the smaller of its distance one ring on and the diameter |
| `SearchRuns.RequestWait` | NS3/aodv/model/aodv-routing-protocol.cc:1166-1175 | its timer: two traversals of the ring and the buffer, or the net traversal time doubled with each retry |
| `SearchRuns.RequestPutOff` | NS3/aodv/model/aodv-routing-protocol.cc:1009-1020 | at the limit it is put off, and nothing else changes |
| `SearchRuns.ResetMakesRoom` | NS3/aodv/model/aodv-routing-protocol.cc:1009-1020 | after a reset, which changes nothing but the count and the timer, a request that was put off is sent when it fires; the others stay put off in their order |
| `Aodv.RoutingProtocol.ScheduleRreqRetry` | NS3/aodv/model/aodv-routing-protocol.cc:1151-1177 | the timer of the destination, by hops below the diameter and doubling at it |
| `Aodv.RoutingProtocol.RouteRequestTimerExpire` | NS3/aodv/model/aodv-routing-protocol.cc:1846-1890 | the timer runs no more; the packets go out when the route is valid; entry and packets dropped when the search is over; else the next request |
| `SearchRuns.AnsweredExpiry` | NS3/aodv/model/aodv-routing-protocol.cc:1846-1856 | with a valid route the timer goes and the packets are sent on it; table, count, requests sent and put off and drops stay |
| `SearchRuns.UnansweredExpiry` | NS3/aodv/model/aodv-routing-protocol.cc:1857-1890 | without one the next request is sent or put off while the entry is in search and the retries are not used up; else the entry goes and the packets are dropped |
| `SearchRuns.AnsweredSearch` | NS3/aodv/model/aodv-routing-protocol.cc:1008-1914 | over every run, once an answer has come and as long as nothing touches the route: it stays, nothing is sent for the destination and nothing dropped, and the one timer that runs for it sends the packets |
| `SearchRuns.LateRequestExample` | NS3/aodv/model/aodv-routing-protocol.cc:1009-1058 | a request put off before the answer came is sent all the same and takes the route back into search |
| `Aodv.RoutingProtocol.RreqRateLimitTimerExpire` | NS3/aodv/model/aodv-routing-protocol.cc:1908-1914 | the count starts again, and the timer runs for another second |
| `RingSearch.Climb` | NS3/aodv/model/aodv-routing-protocol.cc:1029-1036 | up to the threshold the TTLs are TtlStart, TtlStart+TtlIncrement, ... |
| `RingSearch.FullDiameter` | NS3/aodv/model/aodv-routing-protocol.cc:1029-1042 | then the full diameter, counted once for every retry |
| `RingSearch.DefaultsExample` | NS3/aodv/model/aodv-routing-protocol.cc:176-238 | with the defaults: rings of 1, 3, 5 and 7 hops, then two requests with 35 |
| `RingSearch.NoWrapIsAsSpecified` | NS3/aodv/model/aodv-routing-protocol.cc:1026-1063 | the search sends exactly floor((TtlThreshold-TtlStart)/TtlIncrement)+1+RreqRetries requests with TTLs that never decrease, unless a 16-bit value wraps harmfully |
| `RingSearch.AsSpecifiedIff` | NS3/aodv/model/aodv-routing-protocol.cc:1026-1063 | and exactly then: a diameter above 65535, a last ring that wraps or a wrapping sum at the diameter each break it |
| `RingSearch.WideDiameterExample` | NS3/aodv/model/aodv-routing-protocol.cc:1026-1063 | a diameter of 70000 does: the search never ends |
| `RingSearch.FullWaitsTotal` | NS3/aodv/model/aodv-routing-protocol.cc:1166-1175 | the waits at the full diameter add up to (2^RreqRetries-1) times the net traversal time |
| `RingSearch.RingWaitsTotal` | NS3/aodv/model/aodv-routing-protocol.cc:1166-1175 | the waits of the climb add up to an arithmetic series in the number of rings |
| `RingSearch.DoubledIs` | NS3/aodv/model/aodv-routing-protocol.cc:1166-1175 | doubling k times multiplies by 2^k |
| `Aodv.RoutingProtocol.SearchUnanswered` | NS3/aodv/model/aodv-routing-protocol.cc:1847-1914 | a search for a fresh destination that nobody answers comes to its end, with a limit of one request per second at least: the packets are dropped after exactly the requests specified |
| `Aodv.RoutingProtocol.Perform` | NS3/aodv/model/aodv-routing-protocol.cc:1008-1914 | each event changes the state as the runs below say |
| `Aodv.RoutingProtocol.PerformAll` | NS3/aodv/model/aodv-routing-protocol.cc:1008-1914 | so what is done with any schedule of events is one of those runs |
| `SearchRuns.AskingSeen` | NS3/aodv/model/aodv-routing-protocol.cc:1008-1063 | a request for one destination leaves every other search alone |
| `SearchRuns.StepKeeps` | NS3/aodv/model/aodv-routing-protocol.cc:1008-1914 | whatever event comes, the search for a destination stands where the specified requests lead to, with exactly one timer or one put-off request under way until it is over |
| `SearchRuns.UnansweredSearch` | NS3/aodv/model/aodv-routing-protocol.cc:1008-1914 | in every run of timers, limit resets, put-off requests, other searches and other routes, the requests sent for an unanswered destination are the first of those specified, in order; its packets are dropped at most once, after the last of them |
| `SearchRuns.RequestsInRun` | NS3/aodv/model/aodv-routing-protocol.cc:1008-1914 | so without a harmful wrap they are never more than floor((TtlThreshold-TtlStart)/TtlIncrement)+1+RreqRetries, and exactly that many when the packets are dropped |
| `SearchRuns.LimitHolds` | NS3/aodv/model/aodv-routing-protocol.cc:1009-1020 | between two resets no more requests are sent than the limit allows |
| `FrameFields.FrameControl` | NS3/wifi/model/wifi-mac-header.cc:910-924 | SetFrameControl reads every in-width field back, the 5-bit subtype included |
| `FrameFields.SequenceControl` | NS3/wifi/model/wifi-mac-header.cc:808-812 | SetSequenceControl reads both fields back |
| `FrameFields.QosControl` | NS3/wifi/model/wifi-mac-header.cc:926-936 | SetQosControl reads every in-width field back |
| `FrameFields.ControlPlaces` | NS3/wifi/model/wifi-mac-header.cc:910-924 | which bits of the Frame Control word hold which field; two bits stay clear |
| `FrameFields.SequencePlaces` | NS3/wifi/model/wifi-mac-header.cc:808-812 | the same for the Sequence Control word |
| `FrameFields.QosPlaces` | NS3/wifi/model/wifi-mac-header.cc:926-936 | and for the QoS Control word |
| `FrameFields.WordBytes` | NS3/wifi/model/wifi-mac-header.cc:1190-1194 | the low byte of a word is written first |
| `MacHeader.SizeIsExact` | NS3/wifi/model/wifi-mac-header.cc:967-1008 | GetSize is the number of bytes written exactly for the frames Serialize knows; it is not for control wrappers and reserved control subtypes |
| `MacHeader.SizeIs` | NS3/wifi/model/wifi-mac-header.cc:967-1008 | GetSize for every type and subtype |
| `MacHeader.FramePlaces` | NS3/wifi/model/wifi-mac-header.cc:1190-1241 | at which bytes of a frame of each type every field is written |
| `MacHeader.ControlWrapperExample` | NS3/wifi/model/wifi-mac-header.cc:967-1241 | a control wrapper has size 16 and writes 10 bytes |
| `MacHeader.WifiMacHeader.Deserialize` | NS3/wifi/model/wifi-mac-header.cc:1243-1288 | the fields read from any complete buffer, the others as they were, and how much was read |
| `MacHeader.ReadsWhatWasWritten` | NS3/wifi/model/wifi-mac-header.cc:1190-1288 | Deserialize restores every in-width field the frame carries, the fourth address included, from exactly the GetSize bytes that Serialize writes, whatever follows and whatever the header held |
| `MacHeader.FieldsRestored` | NS3/wifi/model/wifi-mac-header.cc:1190-1288 | field by field, what a frame of each type gives back |
| `RelayPath.Send` | NS3/internet/model/ipv4-interface.cc:249-289 | with a relay, the tag names a live entry other than the destination and the packet is for the destination's own; otherwise an old tag is gone and ARP decides; directed broadcasts keep their tag |
| `RelayPath.OcbWifiMac.Enqueue` | NS3/wave/model/ocb-wifi-mac.cc:251-295 | a tagged packet is addressed to the relay with the destination as fourth address, any other straight to the destination |
| `RelayPath.OcbWifiMac.ReceiveData` | NS3/wave/model/ocb-wifi-mac.cc:303-362 | a relayed frame is queued as plain data for its fourth address, whatever tag the packet carries; other data goes up or is taken apart |
| `RelayPath.FirstArrival` | NS3/wave/model/ocb-wifi-mac.cc:251-362 | over the air every address of the frame survives, and it is a data frame to and from no distribution system, relayed exactly when the packet was tagged |
| `RelayPath.SecondArrival` | NS3/wave/model/ocb-wifi-mac.cc:329-348 | what a relay sends on is plain data, to and from no distribution system, for the original destination |
| `RelayNetwork.UnicastHop` | NS3/wave/model/ocb-wifi-mac.cc:169-362 | in a network of nodes found by their MAC addresses, a packet handed to the MAC layer goes up exactly once at the node it is for, or nowhere when a frame of it finds no hearer; only the sender and at most one relay put a frame into their queues |
| `RelayNetwork.LostExactly` | NS3/wave/model/ocb-wifi-mac.cc:169-362 | with the destination and the relay there, it goes up at the destination exactly when it is untagged or the relay has another MAC address than the destination; otherwise nothing goes up anywhere |
| `RelayNetwork.SendUnicast` | NS3/internet/model/ipv4-interface.cc:249-292 | the same from the interface on: a unicast packet stays while its address is unresolved; else it leaves untagged for the address resolved, or for the destination's own live entry tagged with another live entry as its relay, and goes up there exactly when the two have different MAC addresses |
| `RelayPath.SendDirected` | NS3/internet/model/ipv4-interface.cc:249-289 | a directed broadcast of a tagged packet leaves in a frame for the relay alone, with the broadcast address as its fourth; untagged it is broadcast |
| `RelayPath.RelayBroadcasts` | NS3/wave/model/ocb-wifi-mac.cc:251-362 | and it is the relay that broadcasts it then |
| `TwinNeighbours.HearTwins` | NS3/mbr-neighbor/model/neighbor.cc:82-106 | the table keeps two live neighbours that share a MAC address, since it tells neighbours by IP address |
| `TwinNeighbours.ListsTheMiddle` | NS3/wave/model/graph.cc:449-524 | on a map of three vertices in a row with two roads, every search from one end to the other lists exactly the vertex in the middle |
| `TwinNeighbours.DecideBetweenTwins` | NS3/wave/model/mbr_route.cc:45-185 | with these neighbours on that map the forward decision succeeds, and relay and destination have the same MAC address |
| `TwinNeighbours.TwinsLosePacket` | NS3/wave/model/ocb-wifi-mac.cc:251-362 | the packet tagged so goes up at no node of any network |

## Left out

- Closed graphs: self-loops are excluded (the adding operations require two different vertices); with them the degree counters still agree, but edges are no longer unique.
- CrossVertex.Search: the recorded edge of an entry is kept as its road id; `free_path` is left to garbage collection.
- RoadGraph.Graph.RemoveVertex: the source reads `n->next` after freeing n (NS3/wave/model/graph.cc:108-114); memory is garbage collected here.
- RoadGraph.AddEdge: edge lists and the vertex list are sequences in list order; NodeList shows that the linked lists behind them are such sequences, but the two are not composed.
- Division.DivideEdges: the list node the walk holds is kept as its distance to the end of the list, which insertions and removals in front of it do not change.
- Geometry.Proportional: segment lengths are exact reals, symmetric, and split in proportion along a segment; haversine and rounding are not modelled.
- graph.cc: sorted edge insertion, directed vertex removal, lookup by id and by position, and printing.
- GeoHash.Encode: coordinates are exact reals; binary rounding in the encoders and decoders is not modelled.
- GeoHash.FastEncode: at 31 and 32 steps `1 << step` does not fit the int it is computed in, and in a range that is a single point zero is divided by zero; the hash may be anything then.
- GeoMove.GetNeighborsInSet: a set that is refused has neither three rows nor three columns; one that has only one of them must have room for both.
- geohash_next_leftbottom and its siblings, and GetnbFromsetRandom, which would only add easy members.
- NeighborTable.Neighbors.Update: the purge timer is left out; Purge may be called at any time. GetSettingTime, ARP caches and position lookups by address are left out.
- MbrRoute.MbrRoute.MbrForward: finding the vertex under a position, the distance function and the map being loaded are parameters; cells of vertices have 12 steps.
- PositionTable.Table: distances are compared by their squares.
- Gpsr.Router.RecoveryMode: the neighbour by the right-hand rule (GetAngle, BestAngle) is a parameter, any function of the two positions.
- Gpsr.Router.SendPacketFromQueue: what is in front of a packet is its type, its position header and those put on it in the loop; the bytes behind are not modelled.
- Gpsr.Router.Forwarding: packets carry a position header; type headers of other kinds, broadcast and the loopback route are left out. RouteOutput is modelled by the choice it shares with SendPacketFromQueue.
- Gpsr.NeverRises: the network is static, tables hold true positions and the location service knows the destination.
- RequestQueue.RequestQueue: maximum length (at least 1: with 0 the source reads the front of an empty vector) and timeout are fixed; callbacks are a log of what they are called with.
- XmlParser.StrPair.GetStr: owned and interned strings, memory pools and file loading are left out. `unsigned long` has 64 bits.
- OnOff.OnOffApplication: sockets, random variables (on and off times are parameters), traces and a rate that changes while sending; time is exact. On time is counted while a packet is pending.
- SearchRuns.UnansweredSearch: events come in any order; that a timer takes as long as it was scheduled for is not part of it. No second search for the destination is started while its first request is put off.
- Aodv.RoutingProtocol: sequence numbers, sockets, RREP and RERR handling and route lifetimes. The routing table source is not part of this model: an entry in search stays until it is updated or deleted, its counters do not overflow, and an entry that is not found reads as valid with no requests.
- MacHeader.WifiMacHeader: enumerations of frame types, duration arithmetic and printing; reserved types write the first ten bytes.
- RelayPath.Send: loopback, multicast, devices without ARP and local delivery.
- RelayPath.OcbWifiMac.ReceiveData: management frames, station bookkeeping and the queues below.
- RelayNetwork.UnicastHop: losses, retransmissions and interference; a frame is taken to the node with its first address, which is not a group address, and no node hears itself.
- Assertions that end debug runs only (such as a relay entry without a hardware address) are not modelled.
- The kernel-module copies of list, geohash and neighbour code, netlink, helpers, scenario scripts, logging, obstacles, the map importer and geoSVR.
