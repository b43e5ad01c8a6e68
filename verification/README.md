# Loose source routing: a verified model

This project models a loose-source-routing layer that learns a network graph from traceroutes,
searches it from both ends for alternative routes, and turns a route into an IP option. It also
models three parts that feed or surround it: the autonomous-system range table, the Internet
checksum with the traceroute loop, and two pieces of the socket layer (the `getaddrinfo` emulation's
linked list and the non-blocking flags).

| file | what it holds |
|---|---|
| `Types.dfy` | unsigned integers of 8, 16 and 32 bits, optional values, and the pseudo-address `OUR_IP` |
| `Graph.dfy` | multigraphs as bags of directed edges, walks, balls, distance |
| `SearchSpec.dfy` | one half-step of the alternating search and the invariant every half-step keeps |
| `SearchRun.dfy` | the run of a search without its parents: where it stops, and that it stops nowhere else |
| `SearchCuts.dfy` | walks short enough for a search pass through its intersections |
| `SearchMiddles.dfy` | the vertices a search meets, defined by walks alone, and that the search meets exactly those |
| `SearchLevels.dfy` | completeness: the first meeting happens at the distance of the endpoints |
| `TwinSearch.dfy` | the search from a vertex to itself |
| `Routes.dfy` | what the two parent maps rebuild, and exactly when that ends |
| `RouteSearch.dfy` | the search itself, on mutable sets and maps |
| `RouteVector.dfy` | normalizing and accepting a traced route in place |
| `TopologyStore.dfy` | storing routes in the graph, over whole histories |
| `LsrrOption.dfy` | the option bytes and their decoder |
| `Router.dfy` | end to end: histories of traces, found routes, options |
| `TraceRoute.dfy` | the traceroute control loop against an arbitrary reply oracle |
| `Checksum.dfy` | the Internet checksum |
| `AsnTable.dfy` | per-system chains and the 1024-bucket index |
| `AddrInfoValues.dfy`, `AddrInfoList.dfy` | the address list, by value and on the heap |
| `NonBlocking.dfy` | the non-blocking flags against the descriptor's mode |

## Reading guide

Unordered containers are iterated in arbitrary order: every loop over a set or a multimap takes some
remaining element, so each result holds for every order.

**The search.** A vertex reached from both sides is an intersection and leaves both frontiers, so a
vertex's generation need not be its distance. What survives every half-step is `SearchOk`: each side
knows exactly its expanded vertices, its frontier and the intersections, which are disjoint; the
intersections are what both sides know; neighbours of expanded vertices are known; every known
vertex other than the origin has an expanded parent one generation lower. On a symmetric graph a
vertex that one side discovers and the other knows must lie on the other's frontier, so an
intersection met in half-step h lies on a route of exactly h edges. Until the first meeting nothing
is pruned and known sets are balls, so the first meeting happens at the distance of the endpoints and
consists of all midpoints of the shortest routes. Half-steps never look at parents, so the whole run
but for its parents is a function of the graph, the endpoints and the limit (`TrailAfter`), whatever
the iteration order. `gen`, `expanded`, `na`, `nb` and `metAt` are ghost
history.

The intersections also have a definition that mentions no search at all. `MiddlesAt(h)` are the
middle vertices of the walks of h edges between the endpoints that pass through no middle of a
shorter one, and `Middles(h)` collects them up to h. `Reach` is twice the first of the rounds 1 to 4
with enough middles, or 10. A finished search has met exactly `Middles(Reach)`, and its routes are
one for each, as long as the walks that define it; this holds even when a side ran dry long before.

**Where the code and its comments differ, the model follows the code.**

* `router.h:114` says routes of at most nine edges are found; the second half of the fifth round
  admits ten. Ten is what is proved: `TenEdgesIff` says on the graph alone when a route of ten edges
  is found, and `TenEdgeRoute` gives a history and a permitted target for which one is.
* `asn_info.h:92` promises -1 for an unknown address, but a scan that runs off the table returns 0
  (line 123). `AnswerIsDocumentedIff` says exactly when the answer is the documented one, and
  `ExhaustedScanExample` is a table and an address where it is not.
* When the target is a neighbour of the local host, the target itself becomes the only intersection
  reached from it, its parent map stays empty, and the second do-while of `reverseRoutes` reads
  default zeros for ever. `RebuildableIffNotAdjacent`, `AdjacentNeverReturns` and
  `LoopsStopIffRoutable` state this as equivalences, and `UnroutableIffFirstHop` says which targets
  these are in terms of the traces seen; in `NeighbourNeverFound` one trace of one host is enough.
  `FindRoutesIP` therefore asks for a target that is not a neighbour, and for nothing else. A target
  equal to the local host is allowed and gives the there-and-back walks over the neighbours.
* A limit of zero intersections stops the search after its first round, so it reaches two edges
  only; `Radius` makes the completeness statement exact for every limit.
* The checksum's accumulator is 32 bits wide while its length may exceed 65537 words. A stored
  checksum verifies regardless; being the one's complement checksum and byte-order independence
  hold exactly under `RightIffNoOverflow` and `SwapsIffLossesSwap`, with `OverflowExample` and
  `SwapFailsExample` on the other side.
* The traceroute loop counts unanswered probes, not zeros. It takes the source address of a packet
  as it comes (`trace.h:239`, `trace.h:242`), so nothing in it rules out address 0, which a host may
  send from only while it learns its own address (section 3.2.1.3 of RFC 1122). `ZerosIff` says
  exactly which zeros such replies leave that silence cannot, and `ZeroAddressExamples` shows two
  traces with them.
* `close` clears both flags without looking whether its own mode change worked (`socket_ops.ipp:317`).
  `RunKeepsModeIff` says over which runs flags and mode stay in step, and `StuckCloseExample` is one
  call after which they are not.

**Modelling choices.** Loops over `equal_range(v)` run over all edges and skip those that start
elsewhere. The graph's vertices pass through `int` variables in `storeRoute` and an `int` set in
`validateAndNormalizeRoute`; both conversions are one-to-one and are left implicit. Pointers between
table records are indices, -1 standing for the null pointer. Words are read and written as on a
little-endian host. The bit values in the socket state word are defined in `socket_ops.hpp`, which is
not part of this model: the word is a set of flags, and `non_blocking` is taken to be the union of
the user's and the library's flag. A zero-length block allocated for a family without addresses is
modelled as no block.

## Model

| member | source | states |
|---|---|---|
| RouteSearch.SearchSide.FindNextGeneration | boost/asio/lsr/router.h:66-79 | whatever the iteration order, exactly the unknown vertices one edge away from the frontier are added to the discovered ones, each with some frontier vertex joined to it by an edge as parent, and no older parent changes |
| RouteSearch.Search.UpdateIntersections | boost/asio/lsr/router.h:81-96 | the discovered vertices become known; those the other side knows become intersections and leave both frontiers, the rest are the new frontier |
| RouteSearch.Search.FindIntersections | boost/asio/lsr/router.h:98-134 | on any symmetric graph and for any limit: the search invariant, completeness up to ten edges (two for limit 0), the length law, that it stops at the first half-step of its run that does not happen (a side discovers nothing, the last round ended with enough intersections, or five rounds are over), that the intersections of different endpoints are the middles of the walks within reach, and that with fewer than the limit every walk of at most ten edges passes through one |
| SearchRun.StopIsUnique | boost/asio/lsr/router.h:115-133 | a graph, two endpoints and a limit leave one point where the search can stop |
| RouteSearch.OrderDoesNotMatter | boost/asio/lsr/router.h:98-134 | two finished searches of the same graph, endpoints and limit, whatever their iteration orders, have the same intersections, met in the same half-steps, the same known vertices and frontiers; only parents may differ |
| SearchSpec.PairSeparated | boost/asio/lsr/router.h:87-94 | no vertex expanded by one side, nor on its frontier, is known to the other |
| SearchSpec.MetIsOnFrontier | boost/asio/lsr/router.h:87-94 | on a symmetric graph, a vertex discovered by one side and known to the other is on the other's frontier |
| SearchSpec.HalfStepKeepsPair | boost/asio/lsr/router.h:66-96 | a half-step keeps both sides partitioned into expanded, frontier and intersections, keeps the intersections equal to the common vertices, and changes no known generation |
| SearchSpec.OurTurnKeepsSearch | boost/asio/lsr/router.h:115-121 | a's turn keeps the search invariant, and what half-step h meets lies on routes of exactly h edges |
| SearchSpec.TheirTurnKeepsSearch | boost/asio/lsr/router.h:123-128 | the same for b's turn |
| SearchLevels.TurnProgress | boost/asio/lsr/router.h:115-128 | the first half-step that meets anything meets exactly the midpoints at the endpoints' distance; later ones only add longer routes |
| SearchLevels.OurTurn | boost/asio/lsr/router.h:116-121 | a's half-step keeps the search invariant and the progress towards the distance together |
| SearchLevels.TheirTurn | boost/asio/lsr/router.h:123-128 | the same for b's half-step |
| SearchLevels.DryMeansUnreachable | boost/asio/lsr/router.h:117-127 | a side that discovers nothing before any meeting proves that no walk of any length joins the endpoints |
| SearchLevels.FinishedIsComplete | boost/asio/lsr/router.h:113-133 | a finished search has intersections iff the endpoints are within its radius, and then all midpoints at their distance, which are the only ones on routes of that length |
| SearchCuts.ShortWalksAreCut | boost/asio/lsr/router.h:115-128 | at any point of the search, every walk between the endpoints of at most as many edges as half-steps were made passes through an intersection |
| SearchCuts.DrySideCutsAllWalks | boost/asio/lsr/router.h:117-127 | if a side has nothing left to discover, walks of every length do |
| SearchCuts.NoShorterWalk | boost/asio/lsr/router.h:115-128 | at any point of the search, a walk that passes through no intersection other than v has at least as many edges as v's two generations add up to |
| SearchMiddles.OurMeets | boost/asio/lsr/router.h:116-121 | what a's half-step meets are exactly the middles of the walks of that many edges which no earlier intersection cuts |
| SearchMiddles.TheirMeets | boost/asio/lsr/router.h:123-128 | the same for b's half-step |
| SearchMiddles.TrailByMiddles | boost/asio/lsr/router.h:115-128 | after any number of half-steps the intersections are the middles of walks of at most that many edges, each met in the half-step of its number |
| SearchMiddles.DryMiddles | boost/asio/lsr/router.h:117-127 | once a side has nothing left to discover no longer walk adds a middle |
| SearchMiddles.FinishedByMiddles | boost/asio/lsr/router.h:113-133 | wherever the search stopped, its intersections are the middles of the walks within reach, a number of edges fixed by the graph, the endpoints and the limit |
| TwinSearch.TwinOurTurn | boost/asio/lsr/router.h:116-121 | in a search from a vertex to itself, a's turn discovers exactly its other neighbours and meets none |
| TwinSearch.TwinTheirTurn | boost/asio/lsr/router.h:123-128 | b's turn then discovers the same neighbours, meets them all and leaves both frontiers empty |
| Graph.BallIffWalk | boost/asio/lsr/router.h:113-114 | being within n edges means that a walk of at most n edges exists |
| Graph.DistanceIsShortestWalk | boost/asio/lsr/router.h:113-114 | distance is the number of edges of a shortest walk |
| Graph.BallsMeet | boost/asio/lsr/router.h:113-130 | on a symmetric graph two balls meet iff the centres are no further apart than the radii add up to |
| RouteSearch.SearchSide.At | boost/asio/lsr/router.h:146 | reading a missing parent gives and inserts 0, which changes no later reading |
| RouteSearch.SearchSide.ClimbToFront | boost/asio/lsr/router.h:144-148 | the do-while pushes the vertices up to the origin at the front, and inserts nothing if no lookup misses |
| RouteSearch.SearchSide.ClimbToBack | boost/asio/lsr/router.h:150-154 | the same at the back |
| RouteSearch.Search.ReverseRoutes | boost/asio/lsr/router.h:136-158 | provided the loops stop, one route per intersection is appended in some order, and the parent maps do not change when no lookup misses |
| Routes.ClimbDescends | boost/asio/lsr/router.h:144-154 | climbing a parent map goes along edges through expanded vertices, one generation lower each step, down to the origin, without a missed lookup |
| Routes.RouteIsSimplePath | boost/asio/lsr/router.h:136-158 | a rebuilt route is a simple path between the endpoints along edges, through exactly one intersection, of exactly as many edges as its two generations add up to |
| Routes.RoutesDiffer | boost/asio/lsr/router.h:139-157 | routes through different intersections differ |
| Routes.EndpointMetMeansAdjacent | boost/asio/lsr/router.h:139-157 | an endpoint is an intersection only if the endpoints are adjacent, and then it is b |
| Routes.AdjacentNeverReturns | boost/asio/lsr/router.h:150-154 | between adjacent endpoints b is met with an empty parent map, and its loop stops iff b is vertex 0 |
| Routes.RebuildableIffNotAdjacent | boost/asio/lsr/router.h:136-158 | rebuilding stops without a missed lookup iff the different endpoints are not adjacent |
| Routes.TwinRoutes | boost/asio/lsr/router.h:136-158 | for equal endpoints every route is there and back over one neighbour |
| Router.Router.FindRoutesIP | boost/asio/lsr/router.h:160-168 | after any history of traces and for any target but a neighbour, in plain numbers: distinct simple paths from vertex 0 of two to ten edges, with distinct middles; one at least as short as any walk of at most ten edges; with fewer than ten routes, every walk of at most ten edges crosses one of them; no route of more than 2k edges if those of at most 2k had ten middles. Also: exactly one for each middle of the walks within reach, of as many edges as those walks; one through every midpoint at the distance; no walk is shorter than one of them without passing through the middle of another; for ourselves the there-and-back walks |
| Router.BothWaysFound | boost/asio/lsr/router.h:113-168 | after the traces [1, 2] and [3, 4, 2], whatever keeps the promise of `FindRoutesIP` for target 2 is the two routes [0, 1, 2] and [0, 3, 4, 2] |
| Router.LoopsStopIffRoutable | boost/asio/lsr/router.h:160-168 | after a search from us, the rebuilding loops stop iff the target is not one of our neighbours |
| Router.UnroutableIffFirstHop | boost/asio/lsr/router.h:160-168 | the targets for which they do not stop are exactly the first answering hosts of the accepted traces seen so far |
| Router.NeighbourNeverFound | boost/asio/lsr/router.h:136-168 | one trace of a single host is enough to make that host such a target |
| Router.ShortestRouteFound | boost/asio/lsr/router.h:113-168 | up to distance ten a shortest route is among those found, and none is shorter |
| Router.RoutesAsMet | boost/asio/lsr/router.h:136-158 | the routes are as many as the intersections, each in the middle of one; there are as many routes of h edges as vertices met in half-step h |
| Router.RunGivesWalks | boost/asio/lsr/router.h:113-158 | for different endpoints, the routes of h edges are one for each middle of a walk of h edges within reach, and have it in their middle |
| Router.RoutesAreShortest | boost/asio/lsr/router.h:136-158 | a walk that passes through no intersection other than a rebuilt route's is at least as long as the route |
| Router.RoutesCutShortWalks | boost/asio/lsr/router.h:136-158 | every walk within the half-steps made, or of any length once a side is dry, shares a vertex other than the endpoints with a rebuilt route |
| Router.TenEdgesIff | boost/asio/lsr/router.h:113-133 | a ten-edge route is among those found iff walks of at most eight edges have fewer middles than asked for and some walk of ten edges keeps clear of all middles of shorter walks; equivalently the run gets to the tenth half-step and that meets a vertex; if the target is ten edges away it is |
| Router.TenEdgeRoute | boost/asio/lsr/router.h:113-133 | after one trace of ten hosts in line the last of them may be searched for, and any routes that keep the promise of `FindRoutesIP` for it include one of ten edges, against the comment's nine |
| Router.Router.TakeTrace | boost/asio/lsr/router.h:412-415 | a trace in which an address answers again after a different one leaves the graph as it was; any other adds exactly the edges between consecutive answers, both ways, the first from vertex 0; the graph stays the one the history teaches |
| Router.FoundRouteFitsOption | boost/asio/lsr/configurer.h:80-92 | a found route's option takes at most 40 bytes, exactly 40 for ten edges, and decodes to the route's interior in order |
| RouteVector.Vector.ValidateAndNormalizeRoute | boost/asio/lsr/router.h:259-288 | in place, exactly the non-zero entries remain with runs merged (across zeros too); an accepted trace is not empty and leaves no two equal entries, a declined one is empty or leaves two equal entries |
| RouteVector.AcceptedIffNoRepeats | boost/asio/lsr/router.h:276-287 | the duplicate scan on the compacted route decides exactly the recurrence in the original trace |
| RouteVector.CompactedFrom | boost/asio/lsr/router.h:263-274 | what remains stands at increasing positions of the trace, is no zero and no repetition of the entry before it, and every answer belongs to the run of the last remaining position not behind it |
| RouteVector.NormalizedTwice | boost/asio/lsr/router.h:259-288 | normalizing again changes nothing, and an accepted non-empty result is accepted again |
| TopologyStore.Topology.AddEdge | boost/asio/lsr/topology.h:20-34 | if the edge is there nothing changes, otherwise it is inserted once in each direction |
| TopologyStore.Topology.StoreRoute | boost/asio/lsr/router.h:290-311 | the edges from us along the route are inserted one after another; to a symmetric graph this adds exactly the hops of the route, both ways |
| TopologyStore.EdgeKeepsSimpleIff | boost/asio/lsr/topology.h:20-34 | inserting an edge keeps a simple symmetric graph simple iff its ends differ |
| TopologyStore.LearnedGraph | boost/asio/lsr/router.h:290-311 | the graph after any history is the set of edges of the accepted traces, each directed edge once |
| TopologyStore.HistoryKeepsGraph | boost/asio/lsr/router.h:394-419 | after any history the graph is symmetric, without loops or repeated edges, and every vertex is connected to us |
| TopologyStore.NeighboursAreFirstHops | boost/asio/lsr/router.h:290-311 | after any history our neighbours are exactly the first answering hosts of the accepted traces |
| TopologyStore.OrderAndRepetitionDoNotMatter | boost/asio/lsr/router.h:290-311 | histories with the same traces, in any order and any number of times, give the same graph |
| LsrrOption.Encode | boost/asio/lsr/configurer.h:80-92 | byte by byte: 1, 131, the length less one (modulo 256), 4, and the four octets of every interior hop, least significant first as on a little-endian host |
| LsrrOption.DecodesIff | boost/asio/lsr/configurer.h:82-92 | decoding gives back exactly the interior hops iff the length byte has not wrapped, otherwise nothing |
| TraceRoute.TraceRoute | boost/asio/lsr/trace.h:213-256 | every kept entry is the source address of its reply, or 0 for silence; the trace ends with the target's answer, a report that a host is unreachable, the fourth silence in a row (all four dropped), an unreadable packet (dropped with the silence before it) or the depth, and at no earlier probe |
| TraceRoute.EndedOnce | boost/asio/lsr/trace.h:213-256 | the replies leave one last probe and one length of the trace |
| TraceRoute.EndedExamples | boost/asio/lsr/trace.h:213-256 | one sequence of replies for each way to end, with its last probe and the number of entries kept; 40 when everyone answers |
| TraceRoute.SilenceIsTrailingRun | boost/asio/lsr/trace.h:223-252 | shrinking by the counter removes zeros only, and the whole trailing run of them iff no probe was answered or the last answered one left a non-zero address |
| TraceRoute.FinishedTrace | boost/asio/lsr/trace.h:220-256 | for any replies: at most one entry per probe, each from a readable reply or a silence, never four silences in a row, a silence last only when the depth ran out, and a trace that ends in silence is four entries shorter than its probes |
| TraceRoute.ZerosIff | boost/asio/lsr/trace.h:220-256 | for any replies: four zeros stand in a row exactly where four kept probes left no address and not all went unanswered, and a trace that ended before its depth ends in a zero iff its last kept reply came from address 0 |
| TraceRoute.FinishedTraceInZeros | boost/asio/lsr/trace.h:220-256 | provided no kept reply came from address 0: never four zeros in a row, a final zero only when the depth ran out (a consequence of `ZerosIff`) |
| TraceRoute.ZeroAddressExamples | boost/asio/lsr/trace.h:238-246 | with replies from address 0, a trace with four zeros in a row and a trace that ends early on a zero |
| Checksum.IpChecksum | boost/asio/lsr/trace.h:75-90 | the complement of the fully folded word sum taken modulo 2^32, for any buffer and length |
| Checksum.TwoFoldsSuffice | boost/asio/lsr/trace.h:87-88 | for any 32-bit sum the two folds equal folding until no carry remains |
| Checksum.FoldMeaning | boost/asio/lsr/trace.h:75-90 | folding the unbounded word sum gives the one's complement sum, congruent to the plain sum modulo 65535, and zero only for zeros |
| Checksum.Rfc1071Example | boost/asio/lsr/trace.h:75-90 | the numerical example of section 3 of RFC 1071, byte-swapped as on a little-endian host |
| Checksum.NoOverflow | boost/asio/lsr/trace.h:76-85 | up to 65537 words the 32-bit accumulator cannot overflow |
| Checksum.RightIffNoOverflow | boost/asio/lsr/trace.h:76-89 | for any 32-bit length the checksum is the one's complement checksum iff the accumulator did not overflow |
| Checksum.OverflowExample | boost/asio/lsr/trace.h:76-89 | 65538 words of ones have checksum 1 where the one's complement checksum is 0 |
| Checksum.OddTailIsZeroPadding | boost/asio/lsr/trace.h:83-85 | an odd last byte counts like a buffer padded with a zero byte |
| Checksum.StoredChecksumVerifies | boost/asio/lsr/trace.h:75-90 | writing the checksum into a zeroed aligned field makes the buffer's checksum 0, for every length and even if the accumulator overflows |
| Checksum.SumIgnoresOrder | boost/asio/lsr/trace.h:79-82 | reordering the words keeps the sum |
| Checksum.SwappedBufferSwapsChecksum | boost/asio/lsr/trace.h:75-90 | for an even length of at most 65537 words, exchanging the bytes of every word exchanges the bytes of the checksum |
| Checksum.SwapsIffLossesSwap | boost/asio/lsr/trace.h:75-90 | for every even length the parameter can hold, it does so iff the carries lost by the two accumulators are exchanged too and neither accumulator alone is left at zero |
| Checksum.SwapFailsExample | boost/asio/lsr/trace.h:75-90 | 65538 words of ones are their own exchange, but their checksum is not |
| AsnTable.Table.AddRow | boost/asio/lsr/asn_info.h:53-65 | a new row is linked behind the last record of its system and every other chain is untouched |
| AsnTable.Table.ReadIpAsnBase | boost/asio/lsr/asn_info.h:42-73 | after any rows the records hold them, and following `next` from a system's head lists exactly its rows' positions and stops |
| AsnTable.PositionsExact | boost/asio/lsr/asn_info.h:56-65 | the chains list the positions in increasing order, none missing and none foreign, so together they partition the table |
| AsnTable.ChainExample | boost/asio/lsr/asn_info.h:56-65 | for rows of systems 7, 8 and 7 the chain of 7 goes from record 0 to record 2 and stops |
| AsnTable.Table.BuildIndex | boost/asio/lsr/asn_info.h:75-85 | bucket j of 1024 holds where a scan for address j * 2^22 stops |
| AsnTable.Table.GetAsnInfo | boost/asio/lsr/asn_info.h:93-124 | for any table, sorted or not, the first record that does not end below the address decides: its index if it starts at or below it, otherwise -1; 0 if there is none |
| AsnTable.Table.Init | boost/asio/lsr/asn_info.h:87-90 | after any rows that fit the array, the records are the rows in order, chained by system and indexed |
| AsnTable.Table.AnswerFromRows | boost/asio/lsr/asn_info.h:87-124 | once rows with sorted disjoint ranges are loaded, an address no higher than the last range is answered with exactly the row that contains it, or -1; any higher one with 0 |
| AsnTable.BucketStartIsSafe | boost/asio/lsr/asn_info.h:94-97 | a scan from the bucket stops where a scan from the beginning does |
| AsnTable.AnswerIsDocumentedIff | boost/asio/lsr/asn_info.h:92-124 | on sorted disjoint ranges the answer is the only range containing the address, or -1 if none does, iff some range ends at or above it |
| AsnTable.ExhaustedScanExample | boost/asio/lsr/asn_info.h:117-123 | a table and an unknown address above it for which the answer is 0 |
| AddrInfoList.Builder.GaiAistruct | detail/impl/socket_ops.ipp:2265-2314 | a new entry with its own zeroed address block is linked at the end, marked for cloning when no socket type was named |
| AddrInfoList.GaiClone | detail/impl/socket_ops.ipp:2316-2337 | a copy with a copied address block is spliced in behind the entry, which does not change |
| AddrInfoList.PortEntry | detail/impl/socket_ops.ipp:2343-2384 | one entry of the pass; a clone's port write leaves the entry it was cloned from as it was |
| AddrInfoList.GaiPort | detail/impl/socket_ops.ipp:2339-2387 | the pass ends, visits every original entry once, keeps all nodes and blocks distinct, and its list and count are those of the pass by value |
| AddrInfoList.GaiServ | detail/impl/socket_ops.ipp:2389-2466 | the passes for the services found, stream before datagram, and the error code |
| AddrInfoList.BuildAndServe | detail/impl/socket_ops.ipp:2644-2698 | for any resolved addresses, with or without a service, the finished list entry by entry: per host in order a stream and then a datagram entry, or one entry of the socket type served, each with the host's family and address, the hints' protocol and the service's port; with no node or block shared; without a service it succeeds iff there is an address, with one iff the service was found and some address is an Internet one; the error codes |
| AddrInfoList.LoopbackExample | detail/impl/socket_ops.ipp:2389-2466 | such a list for the loopback address, any socket type and port 80 has a stream and then a datagram entry, each with that address and port |
| AddrInfoValues.ServedList | detail/impl/socket_ops.ipp:2389-2466 | a freshly built list ends up with each original replaced, in place and in order, by one entry per service; each Internet entry is counted once per service |
| AddrInfoValues.CountIsEntries | detail/impl/socket_ops.ipp:2386-2465 | once a service is found, the count is the number of Internet entries in the result, and the number of all its entries iff every original is an Internet one |
| NonBlocking.Socket.SetUserNonBlocking | detail/impl/socket_ops.ipp:347-389 | success sets the mode and the user's flag, or clears both flags; failure changes nothing |
| NonBlocking.Socket.SetInternalNonBlocking | detail/impl/socket_ops.ipp:391-437 | as above for the library's flag; clearing it while the user's is set is refused and changes nothing |
| NonBlocking.Socket.Ioctl | detail/impl/socket_ops.ipp:1613-1658 | a successful FIONBIO sets the mode and the flags, everything else changes neither |
| NonBlocking.Socket.CloseSocket | detail/impl/socket_ops.ipp:282-345 | a close that succeeds leaves the descriptor closed; one that would block clears both flags and the mode, if that works, and closes again |
| NonBlocking.StepKeepsModeIff | detail/impl/socket_ops.ipp:317-331 | from a state where they are in step, a call keeps mode and flags in step iff it is not a close that would block whose unchecked mode change fails on a non-blocking descriptor that stays open |
| NonBlocking.RunKeepsModeIff | detail/impl/socket_ops.ipp:282-437 | over any sequence of calls mode and flags are in step after every prefix iff no call is that close in the state it finds |
| NonBlocking.RunKeepsMode | detail/impl/socket_ops.ipp:282-437 | provided no close that would block fails to change the mode, after any sequence of calls an open descriptor is non-blocking iff the user's or the library's flag is set |
| NonBlocking.StuckCloseExample | detail/impl/socket_ops.ipp:317-331 | a close that would block twice and fails to change the mode leaves an open non-blocking descriptor without either flag |

## Left out

- `sendRequest`, sockets, sleeping and packet parsing in `trace.h`: replies are an arbitrary function of the time-to-live.
- `selectBestRoutes`, `updateRoutes` and `run` in `router.h`: the ranking scan at `router.h:347-353` never advances its iterator.
- The `SEARCH_IN_AS` variants: disabled in the source, and the same search on a filtered graph.
- `configure_route` and the cache refresh in `configurer.h`: only the option bytes are modelled.
- File reading and parsing in `readIpAsnBase`: the rows are given; more than 200000 rows are excluded, where the source writes past its array.
- Allocation failure, canonical names, name lookups and `freeaddrinfo` in `socket_ops.ipp`; the numeric or named form of a service and its ports are given.
- The linger option set by `close`, and the other platforms' branches, in `socket_ops.ipp`.
- Threads, locks, clocks and random probe addresses.
- RouteSearch.Search.ReverseRoutes: takes it as a precondition that the loops stop, since otherwise the source never returns; exactly when they do is proved separately.
