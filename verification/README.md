# Verified model of the ip7uin data path

Dafny 4.11 models of the packet guards, routing tables, parsers and resource
keepers of the ip7uin overlay node, with proofs of what they guarantee over every
input and every run. `dafny verify dfyconfig.toml` checks the whole project.

How the model is laid out:

- **Replay protection.** `MachineWord` gives 64-bit words bit by bit.
  `ReplayWindow` says what a 1024-bit window over sixteen words means and states
  the receiver rule of section 3.4.3 of RFC 4303 over histories. `AntiReplayL0` is
  the filter that shifts its array in place, `AntiReplaySession` the one that keeps
  a window per DID and session and shifts into a fresh array, `AntiReplayRuns` what
  any interleaving of packets does to it. `KeyText` shows that the map keys made
  from texts cannot be confused; `MemoryArbiter` meters the sessions.
- **Routing.** `KeyMetric` is the XOR metric with its two leading-zero loops;
  `KademliaTable` and `KademliaQuery` are the bucket table and its nearest-contact
  query; `RingStructure` and `KleinbergRouter` are the ring router with its three
  evictions and its next-hop choice, `RouterLimit` the routers that pass their
  limit and `RouterNames` the keys behind their DIDs.
- **Parsers.** `TlsHello` and `StunMessage`: loops over bytes proved equal to
  a reading of the format, then round trips over every well-formed message.
- **State machines.** `LinkHealing`, `LinkHealingRuns`, `QosBuckets`,
  `ZtnaFirewall`, `BufferPool`, `Pipeline`, `Handshake` and `SessionManager`.

Code that updates fields or arrays is a class whose methods are proved against a
function on values or against ghost history; theorems over runs are lemmas about
those functions. Floating-point quantities are reals. Each call takes one reading
of a clock as a parameter; where an answer depends on the order of readings, the
clock is required not to go back. DID decoding, randomness and the cryptographic
primitives are parameters or free constructors.

What the code turned out to do at its edges, each with its theorem below:

- The ring router may hold more than `MaxTotalPeers`, because a ring with one peer
  is never emptied. As long as latencies are not negative: a newcomer takes the table
  past its limit exactly when the table is at it, the newcomer's ring has room and
  no ring holds two peers. So a router keeps its limit if that is above
  the number of rings any DID leads to, or enough for all of those full, as in the
  three stock profiles; and any other one, if some ring has two names, is driven past
  it by plain additions. A table for one peer can hold two. It never holds more than
  the larger of `MaxTotalPeers` and `NumRings + 1`.
- With more than 128 rings, ring 0 is for the local key alone, and rings past the
  256th are for none.
- The router compares DIDs as texts, while a key has several (src/pkg/l1/routing.go:97-98,
  src/pkg/l0/identity.go:64-87). Its peers have different keys, none its own, in every
  run where each key has one name; a second name of its own key, or of a peer's, makes
  another peer.
- A packet discarded as a replay changes no window. It still moves the newest
  timestamp or session of its DID, exactly if it is newer than that, and so can shut
  out a later packet of a lower session.
- A sealed payload opens under any sequence number and timestamp: the replay filter
  tells numbers apart, not payloads.
- `Reserve` adds 64-bit numbers that can wrap. A request is granted exactly when its
  class has room if and only if the sum fits 64 bits; a request whose sum wraps is
  always granted, and leaves class and total lower than they were. The totals stay
  consistent even then.
- The ClientHello round trip holds exactly for server names of up to 65469 bytes,
  and the record header tells the true length exactly up to 65388.
- The ClientHello parser bounds a server name by the end of the whole extension
  block (src/pkg/l1/tls_obfuscation.go:329). A name that claims more than its own
  extension swallows the headers behind it; every other extension is read on its own.
- The STUN parser accepts an IPv6 response with no transaction ID given and then
  decodes another address; it is right exactly when the response's ID is passed.
- The STUN parser bounds an attribute by the end of the datagram and not of the
  message (src/pkg/l1/nat_stun.go:133), so bytes behind a message can supply its
  answer: exactly if the walk ends without one inside an attribute that could still
  turn out to be a mapped address.
- Timestamps have no unit: seconds, milliseconds and nanoseconds are told apart by
  size. All three are read alike for instants after 10^8 seconds, in March 1973.
- Dead letters and dropped packets come apart in one case: an empty pipeline given
  a packet that is dropped already.
- The responder of a handshake stores its session before it knows whether the
  initiator agrees. The initiator agrees exactly when it used the responder's key
  and both used the same two names; otherwise the responder is left with a session
  nobody shares.
- A challenge is commented as issued when tokens are critically low
  (src/pkg/l1/qos.go:148), and the threshold for that is kept but never read. Every
  refusal issues one, also above the threshold: exactly when the threshold is at
  most the refilled tokens and these are fewer than the packet's length. A full
  bucket and 65537 bytes are such a case.
- A negative packet length, which an `int` admits, gives tokens back. The traffic
  envelope holds of all histories whose lengths have a lower bound exactly if that
  bound is not negative: every negative length, alone in its history, lets more than
  a burst through in one instant. What lengths gave back is an upper bound of the
  excess; a refill cuts what goes past the brim.
- Flap damping is commented as exponential (src/pkg/l1/link_healing.go:136). The
  penalty counts the trips that came within ten seconds of the trip before, since
  the link last cleared and whether or not a failover followed; the k-th holds the
  link down for 2k seconds, up to thirty.

## Model

| member | source | states |
|---|---|---|
| `MachineWord.BitOfShl` | src/pkg/l0/anti_replay.go:44-50 | a 64-bit left shift moves every bit up by the amount, drops what passes bit 63 and brings zeros in |
| `MachineWord.BitOfShr` | src/pkg/l0/anti_replay.go:44-50 | a right shift moves every bit down, with nothing left of bits past the width |
| `MachineWord.MarkBit` | src/pkg/l1/anti_replay_session.go:169-175 | or-ing in a one-bit mask stays in 64 bits, sets that bit and changes no other |
| `MachineWord.TestBit` | src/pkg/l1/anti_replay_session.go:177-184 | and-ing with a one-bit mask is non-zero exactly when the bit is set |
| `MachineWord.CounterIsExact` | src/pkg/l0/anti_replay.go:55-91 | a wrapping 64-bit counter stands at its number of steps modulo 2^64 |
| `ReplayWindow.ShiftedWordsAreShift` | src/pkg/l1/anti_replay_session.go:186-212 | joining shifted neighbouring words is the 1024-bit shift: new position j is old position j-n, or clear below n, for every n, aligned or not |
| `ReplayWindow.MarkedWordIsMark` | src/pkg/l1/anti_replay_session.go:169-175 | setting one bit of one word marks one of the 1024 positions and leaves the others |
| `ReplayWindow.AdvanceRepresents` | src/pkg/l0/anti_replay.go:55-73 | shifting or clearing and marking position 0 turns a window that records the accepted set into one that records it with the new highest number |
| `ReplayWindow.LateRepresents` | src/pkg/l0/anti_replay.go:75-91 | a late number's position is marked exactly if it was accepted before, and marking it records its acceptance |
| `ReplayWindow.AdmitsExactlyFresh` | src/pkg/l0/anti_replay.go:55-91 | after any history a number is admitted if and only if it was never received and is fewer than 1024 behind the highest received |
| `ReplayWindow.HighestExactly` | src/pkg/l0/anti_replay.go:55-73 | the highest number the window hangs from is the greatest received, or 0 if there is none above it |
| `ReplayWindow.NeverAdmittedTwice` | src/pkg/l0/anti_replay.go:55-91 | no number is admitted at two places of any history |
| `ReplayWindow.ReorderedWindowAdmitted` | src/pkg/l0/anti_replay.go:55-91 | reordering within a window loses nothing: a number received once is admitted wherever it falls |
| `AntiReplayL0.AntiReplayFilter.ShiftLeft` | src/pkg/l0/anti_replay.go:27-52 | the in-place move of whole words followed by the carry of odd bits is the 1024-bit shift of the old array |
| `AntiReplayL0.InPlaceWord` | src/pkg/l0/anti_replay.go:27-52 | moving words first and carrying bits second gives, in every word, what the one-step shift gives |
| `AntiReplayL0.AntiReplayFilter.ValidateAndUpdate` | src/pkg/l0/anti_replay.go:55-91 | over every run the array is exactly the accepted set, the answer is true exactly for numbers never offered and not 1024 behind the highest, and accepted and rejected count each call once |
| `AntiReplaySession.TimelyIsTheTrueDifference` | src/pkg/l1/anti_replay_session.go:66-81 | the wrapping subtraction never lets a timestamp outside -10 to +60 seconds through |
| `AntiReplaySession.SessionReplayTracker.ShiftWindow` | src/pkg/l1/anti_replay_session.go:186-212 | the fresh array, or the cleared old one, is the 1024-bit shift of the old window |
| `AntiReplaySession.SessionReplayTracker.IsBitSet` | src/pkg/l1/anti_replay_session.go:177-184 | reports exactly whether that position of the window is marked |
| `AntiReplaySession.SessionReplayTracker.Observe` | src/pkg/l1/anti_replay_session.go:124-166 | one number at a tracker gets the verdict of a fresh L0 filter fed the tracker's own history, and the window still records that history |
| `AntiReplaySession.FirstNumberRepresents` | src/pkg/l1/anti_replay_session.go:97-122 | a tracker opened on its first number stands where a fresh L0 filter stands after that number |
| `AntiReplaySession.AntiReplayFilter.Accept` | src/pkg/l1/anti_replay_session.go:63-167 | trackers and maps together move exactly as the value-level filter decides, each outcome is counted once, and a filter alone in its class keeps the class at 256 bytes for each open session |
| `AntiReplaySession.AntiReplayFilter.TrackersWithinQuota` | src/pkg/l1/anti_replay_session.go:97-112 | 256 times the number of sessions never exceeds a fifth of the memory limit while the filter is the only user of its class |
| `AntiReplayRuns.WindowHoldsOffered` | src/pkg/l1/anti_replay_session.go:63-167 | after any run the window under a pair's key text holds that pair's numbers and no other pair's |
| `AntiReplayRuns.SessionsDecideLikeFreshFilters` | src/pkg/l1/anti_replay_session.go:124-166 | among packets past the earlier checks each session is judged as by a fresh L0 filter given that session's numbers alone |
| `AntiReplayRuns.NoTripleAcceptedTwice` | src/pkg/l1/anti_replay_session.go:63-167 | in any interleaving no DID, session and number is accepted twice |
| `AntiReplayRuns.OtherSessionsUntouched` | src/pkg/l1/anti_replay_session.go:63-167 | a packet of one pair leaves every other pair's window as it was |
| `AntiReplayRuns.LowerSessionsMustBeNewer` | src/pkg/l1/anti_replay_session.go:91-95 | after a session has been used, a lower session of the DID gets through only with a timestamp no older |
| `AntiReplayRuns.DiscardedLeavesNothingExactly` | src/pkg/l1/anti_replay_session.go:91-166 | a discarded packet never changes what a window remembers, and leaves its DID's newest timestamp and session alone exactly unless it reached its window and is newer than one of them |
| `AntiReplayRuns.LaterCrossSessionExactly` | src/pkg/l1/anti_replay_session.go:91-95 | after a packet reached its window, accepted or not, a packet of its DID is cut off exactly if it is below and older than the newest noted so far, that packet included |
| `AntiReplayRuns.ReplayShutsOut` | src/pkg/l1/anti_replay_session.go:91-166 | an immediate replay with a newer timestamp cuts off a packet of a lower session that would have got past the check before |
| `AntiReplayRuns.AcceptAll` | src/pkg/l1/anti_replay_session.go:63-167 | the filter object fed any packets follows the run of the value-level filter verdict by verdict, and accepts no triple twice |
| `AntiReplayRuns.TimestampDropExactly` | src/pkg/l1/anti_replay_session.go:66-81 | a packet stamped at second t, in seconds, milliseconds or nanoseconds, is dropped for its timestamp if and only if t is over 60 seconds past or over 10 ahead |
| `AntiReplayRuns.UnitsDecideAlike` | src/pkg/l1/anti_replay_session.go:66-95 | the unit of a timestamp changes neither the verdict nor what the filter remembers |
| `AntiReplayRuns.VerdictExactly` | src/pkg/l1/anti_replay_session.go:63-167 | every verdict of every run, told by the packets before it: late or early; below and older than packets of the DID that got through; first of its session and paid for or not; 1024 behind; a repetition; else accepted |
| `AntiReplayRuns.StatsCountOutcomes` | src/pkg/l1/anti_replay_session.go:63-167 | each statistic is the number of packets of the run with its outcome, modulo 2^64 |
| `KeyText.SessionKeyInjective` | src/pkg/l1/anti_replay_session.go:83 | two pairs with the same "did:session" text are the same pair, colons in the DID or not |
| `KeyText.DecisionKeyInjective` | src/pkg/l1/firewall.go:194 | two queries with the same "did:port:direction" text are the same query |
| `KeyText.DecimalReads` | src/pkg/l1/anti_replay_session.go:83 | the decimal text of a number, read back digit by digit, is that number |
| `KeyText.KeysAsWritten` | src/pkg/l1/firewall.go:194 | sample keys, character by character |
| `MemoryArbiter.GlobalMemoryArbiter.constructor` | src/pkg/l1/memory_arbiter.go:56-72 | a new arbiter is balanced, with the five shares of the limit |
| `MemoryArbiter.GlobalMemoryArbiter.Reserve` | src/pkg/l1/memory_arbiter.go:76-101 | any request keeps every class within its limit and the total equal to the sum of the classes |
| `MemoryArbiter.GlobalMemoryArbiter.Release` | src/pkg/l1/memory_arbiter.go:104-123 | any release keeps the same balance and never frees more than the class holds |
| `MemoryArbiter.ReserveKeepsBalance` | src/pkg/l1/memory_arbiter.go:76-101 | every request keeps every class within its limit and the total equal to the sum; the check of the class alone decides, so the refusal by the global limit never fires |
| `MemoryArbiter.GrantChargesExactlyUnlessWrapped` | src/pkg/l1/memory_arbiter.go:86-100 | a request is granted exactly when its class has room, if and only if held plus asked fits 64 bits; every request that wraps is granted; room taken is charged byte for byte, a wrapped sum lowers class and total |
| `MemoryArbiter.WrappedRequestIsGranted` | src/pkg/l1/memory_arbiter.go:86-100 | with one byte held, asking for 2^64-1 bytes is granted and empties the class |
| `MemoryArbiter.ReleaseUndoesReserve` | src/pkg/l1/memory_arbiter.go:76-123 | releasing what a reservation took restores the ledger exactly |
| `MemoryArbiter.EveryRunBalanced` | src/pkg/l1/memory_arbiter.go:76-123 | after any mix of requests and releases the total is the sum of the classes and within the limit |
| `MemoryArbiter.SharesInFigures` | src/pkg/l1/memory_arbiter.go:56-72 | a new arbiter has nothing held and limits of 20, 30, 20, 20 and 10 percent in whole bytes, of 64 MiB if no total is given |
| `MemoryArbiter.UnknownClassIsOther` | src/pkg/l1/memory_arbiter.go:80-84 | a class nobody has heard of is served exactly as the class for everything else |
| `MemoryArbiter.RequestTouchesItsClassOnly` | src/pkg/l1/memory_arbiter.go:76-101 | a request changes its own class only; refused, it holds nothing and is counted once for the class and once in all |
| `MemoryArbiter.ReleaseFreesExactly` | src/pkg/l1/memory_arbiter.go:104-123 | a release frees the bytes it names, or all the class holds if that is less, off the class and off the total |
| `KeyMetric.PrefixLenIsCommon` | src/pkg/l2/dht_kademlia.go:50-58 | the prefix length is the one number of leading bits on which two keys agree and after which they differ |
| `KeyMetric.XORDistance` | src/pkg/l2/dht_kademlia.go:41-47 | the loop computes the byte-wise exclusive or |
| `KeyMetric.CommonPrefixLen` | src/pkg/l2/dht_kademlia.go:50-58 | counting zeros byte by byte finds the longest common bit prefix |
| `KeyMetric.LeadingZerosByWord` | src/pkg/l1/routing_rings.go:83-95 | counting zeros in big-endian 64-bit words finds the same prefix length |
| `KeyMetric.XORKeyDistanceN` | src/pkg/l1/routing_rings.go:75-111 | the ring is that of the prefix length, and the last one for keys that are not 32 bytes |
| `KeyMetric.RingLaws` | src/pkg/l1/routing_rings.go:75-111 | rings are in range, symmetric, 0 for equal keys, and an ultrametric |
| `KeyMetric.RingMonotoneInDistance` | src/pkg/l1/routing_rings.go:97-110 | a key no farther in XOR distance is in a ring no farther |
| `KeyMetric.RingExactly` | src/pkg/l1/routing_rings.go:97-110 | rings are equally wide, as wide as all fit into 256 bits, one bit if there are more; a key is in the ring its differing bits fall into and the last takes the rest; sixteen is the default |
| `KeyMetric.FlippedPrefix` | src/pkg/l1/routing_rings.go:83-95 | turning bit n of a key over makes a key whose common prefix with it is exactly n bits long |
| `KeyMetric.RingInhabited` | src/pkg/l1/routing_rings.go:97-110 | a ring holds any key at all if and only if it is one of the first 257, whatever the number of rings |
| `KeyMetric.OtherKeyInRing` | src/pkg/l1/routing_rings.go:97-110 | a ring holds a key other than one's own if and only if it is one of the first 257, and not ring 0 of more than 128 |
| `KeyMetric.LongerPrefixIsCloser` | src/pkg/l2/dht_kademlia.go:41-63 | a longer common prefix means a strictly smaller XOR distance |
| `KeyMetric.CompareIsTotalOrder` | src/pkg/l2/dht_kademlia.go:61-63 | byte comparison is a total order whose zero is equality |
| `KeyMetric.DistanceInjective` | src/pkg/l2/dht_kademlia.go:41-47 | different keys have different distances from any target |
| `KeyMetric.FullPrefixMeansEqual` | src/pkg/l2/dht_kademlia.go:91-94 | a common prefix of 256 bits means equal keys, so the index clamp never applies to another node |
| `KademliaTable.SlotHoldsFirstEight` | src/pkg/l2/dht_kademlia.go:86-131 | after any sightings a bucket holds the first eight distinct IDs, each as last seen and in order of last sighting; behind it wait, each as last seen, exactly the last four IDs to join the queue, first come first: a sighting joins if its ID is neither admitted nor waiting, and does not move one that waits |
| `KademliaTable.SlotSizes` | src/pkg/l2/dht_kademlia.go:110-130 | a bucket fills up to eight and the queue behind it up to four |
| `KademliaTable.SightingsExactly` | src/pkg/l2/dht_kademlia.go:86-97 | bucket k is told of a sighting if and only if it is of another node whose ID shares exactly k bits with the local one |
| `KademliaTable.RoutingTable.Update` | src/pkg/l2/dht_kademlia.go:86-131 | over every run bucket k and its replacements are what the sightings with common prefix k, and only those, make of them |
| `KademliaQuery.FindClosest` | src/pkg/l2/dht_kademlia.go:134-169 | returns min(count, total) contacts in strictly increasing distance, none beaten by one left out; fails exactly for a negative count |
| `KademliaQuery.NearestIsUnique` | src/pkg/l2/dht_kademlia.go:156-168 | the set of contacts decides the answer: only one list has that property, so sort order of equals cannot matter |
| `KademliaQuery.TableBucketsDisjoint` | src/pkg/l2/dht_kademlia.go:86-131 | in every reachable table no ID is in two buckets or twice in one |
| `KademliaQuery.SortIsSorted` | src/pkg/l2/dht_kademlia.go:156-158 | sorting distinct distances gives them strictly increasing and keeps exactly the same entries |
| `RingStructure.RemoveKeepsPaired` | src/pkg/l1/routing.go:201-205 | cutting a peer from ring and index leaves them two views of one set, one smaller |
| `RingStructure.AppendKeepsPaired` | src/pkg/l1/routing.go:221-222 | adding a peer to ring and index leaves them two views of one set, one larger |
| `RingStructure.ReplaceKeepsPaired` | src/pkg/l1/routing.go:157-175 | swapping a newcomer for a ring peer leaves them two views of one set of the same size |
| `RingStructure.RingsCapTotal` | src/pkg/l1/routing.go:121 | a cap on every ring caps the total, strictly if one ring has room |
| `KleinbergRouter.NormalizedIsUsable` | src/pkg/l1/routing.go:55-67 | any configuration becomes one with positive sizes and a weight in [0, 1], and a usable one is kept |
| `KleinbergRouter.StockProfilesCoverTheirRings` | src/pkg/l1/routing_rings.go:39-72 | the three profiles are kept as given and allow exactly their rings' total |
| `KleinbergRouter.ChooseLocalVictim` | src/pkg/l1/routing.go:122-155 | the victim is the first dead peer, else the first unstable one, else the first of the slowest if the newcomer is faster, else nobody |
| `KleinbergRouter.LocalVictimOrder` | src/pkg/l1/routing.go:122-155 | in figures: a victim is quarantined or unreachable if any is, else unstable if any is, else slower than the newcomer and than all, else nobody |
| `KleinbergRouter.ChooseGlobalVictim` | src/pkg/l1/routing.go:181-199 | the victim is the first of the lowest scores among peers not alone in their ring, or nobody if there is none below the sentinel |
| `KleinbergRouter.TenMillisecondsAreAPoint` | src/pkg/l1/routing.go:191 | for the global eviction ten milliseconds weigh as much as a point of merit |
| `KleinbergRouter.KleinbergRouter.AddOrUpdatePeer` | src/pkg/l1/routing.go:96-225 | in every reachable state rings and index are in bijection, each DID in the ring of its key and the local one absent; a newcomer drives out only the peer its rule names and takes that place or the end of its ring, a known peer changes locator only, bad DIDs change nothing; with non-negative latencies the table passes its limit exactly when it is at it, the newcomer's ring has room and no ring holds two peers, and never under a safe configuration |
| `KleinbergRouter.KleinbergRouter.NoVictimExactlyWhenSparse` | src/pkg/l1/routing.go:181-201 | with non-negative latencies the global eviction finds nobody if and only if no ring holds two peers |
| `KleinbergRouter.KleinbergRouter.SafeNeverTips` | src/pkg/l1/routing.go:180-223 | with a limit above the number of rings that have names, or enough for all of those full, no state is at its limit with room in a newcomer's ring and no ring of two |
| `KleinbergRouter.KleinbergRouter.SizesMakeSafe` | src/pkg/l1/routing_rings.go:39-72 | sizes that are safe for all rings, as the stock ones, are safe whatever the names |
| `KleinbergRouter.KleinbergRouter.OnlyNamedRings` | src/pkg/l1/routing.go:118-223 | in every reachable state only rings some DID leads to hold peers |
| `KleinbergRouter.KleinbergRouter.GlobalEvictionUnreachable` | src/pkg/l1/routing.go:180-206 | where the limit covers the rings, a ring with room means a table with room, so the branch is dead |
| `KleinbergRouter.KleinbergRouter.LimitHolds` | src/pkg/l1/routing.go:121 | where the limit covers all rings full, no reachable state is past it, whatever the latencies |
| `RouterLimit.FillBeyondLimit` | src/pkg/l1/routing.go:180-223 | an empty router given a DID for as many different rings as its limit allows, and one more for a ring with room, goes past its limit by additions alone |
| `RouterLimit.UnsafeIsFillable` | src/pkg/l1/routing.go:180-223 | the converse of safety: where some ring has two names, every router whose limit is not safe has such DIDs |
| `RouterLimit.NamedRingsWithAllKeys` | src/pkg/l1/routing_rings.go:97-110 | if every other key has a name, the rings with names are the first 257 at most, without ring 0 if there are more than 128 and the local key has no second name |
| `RouterLimit.TwoPeersInATableOfOne` | src/pkg/l1/routing.go:180-223 | a run of two additions that leaves two peers in a table whose limit is one |
| `RouterNames.OneNameKeepsKeysDistinct` | src/pkg/l1/routing.go:96-116 | where each key has one name, no reachable state has two peers of one key or the local key as a peer |
| `RouterNames.OwnAliasBecomesPeer` | src/pkg/l1/routing.go:97-104 | a second name of the local key is taken for a peer |
| `RouterNames.AliasesBecomePeers` | src/pkg/l1/routing.go:101-116 | two names of one key become two peers, if a ring holds more than one |
| `KleinbergRouter.KleinbergRouter.RemovePeer` | src/pkg/l1/routing.go:281-299 | takes exactly that DID out of both views, keeps the other peers and their order, and leaves scores graded and latencies measured as they were |
| `KleinbergRouter.KleinbergRouter.UpdatePeerHealth` | src/pkg/l1/routing.go:229-243 | the peer's health changes, its place and locator do not, and scores stay from 0 to 100 |
| `KleinbergRouter.KleinbergRouter.FindNextHop` | src/pkg/l1/routing.go:247-265 | a healthy direct peer, else the cheapest live peer, whom no other live peer outweighs in rings, milliseconds and points, else the best-scored dead one; nobody exactly when there are no peers |
| `KleinbergRouter.CalculateHealthScore` | src/pkg/l1/routing_metrics.go:9-35 | the score is from 0 to 100, a loss of 40% means unreachable, and healthy implies its three thresholds |
| `KleinbergRouter.HealthExactly` | src/pkg/l1/routing_metrics.go:9-35 | merit is 100 less 30 points of missing pacing, 0.6 a millisecond of jitter up to 50, and 0.4 a percent lost; the state is exactly the worst that merit, loss and jitter call for by their scales |
| `KleinbergRouter.HealthBounded` | src/pkg/l1/routing_metrics.go:9-24 | for any inputs the penalties stop at 30 and 40 and merit at 0 and 100 |
| `KleinbergRouter.CostBelowSentinel` | src/pkg/l1/routing_metrics.go:38-49 | every graded peer costs at most 1, so the search's starting value never hides one |
| `KleinbergRouter.CheaperOutweighs` | src/pkg/l1/routing_metrics.go:38-49 | the cheaper of two peers is the one whose rings by 1-alpha and felt milliseconds by alpha, less its points, weigh less: all rings are worth 250 ms and 100 points a fifth of it |
| `KleinbergRouter.NearerOrFaster` | src/pkg/l1/routing_metrics.go:38-49 | of two peers of equal score within 250 ms, the one k rings nearer and d ms slower is preferred if and only if alpha*d*numRings < (1-alpha)*k*250 |
| `KleinbergRouter.DistanceAlone` | src/pkg/l1/routing_metrics.go:42-48 | above 250 ms, or with alpha 0, latency decides nothing |
| `KleinbergRouter.LatencyAlone` | src/pkg/l1/routing_metrics.go:42-48 | with alpha 1 distance decides nothing |
| `KleinbergRouter.FindBestPeerCandidate` | src/pkg/l1/routing_metrics.go:52-83 | in whatever order the map is visited the result is a live peer of least cost, or with none live a peer of highest score |
| `KleinbergRouter.WithoutOne` | src/pkg/l1/routing.go:289-297 | rebuilding a ring without a DID cuts out its one place and keeps the order |
| `TlsHello.ValidateClientHello` | src/pkg/l1/tls_obfuscation.go:261-339 | on arbitrary bytes the loop ends, stays inside its input and reads what the recursive reading of the format reads |
| `TlsHello.HelloExactly` | src/pkg/l1/tls_obfuscation.go:261-297 | a record is taken for a hello if and only if it says so in both type bytes and splits into a header of 43, a session ID and a cipher list behind their lengths, and two more bytes |
| `TlsHello.SplitRead` | src/pkg/l1/tls_obfuscation.go:261-304 | of a record that splits up so, the extensions as far as they are there are read, and nothing if compression list and length do not fit |
| `TlsHello.EffectExactly` | src/pkg/l1/tls_obfuscation.go:315-333 | a server name is read whatever its list length and kind say, TLS 1.3 if any entry within extension and list is 0304, and any other extension adds nothing |
| `TlsHello.WalkEndsAtCut` | src/pkg/l1/tls_obfuscation.go:306-338 | before a cut-off extension all whole ones are read, and none after |
| `TlsHello.BuildClientHello` | src/pkg/l1/tls_obfuscation.go:60-160 | the bytes appended step by step are the record of the four stock extensions |
| `TlsHello.StockBytes` | src/pkg/l1/tls_obfuscation.go:60-160 | the whole record byte by byte: versions, lengths, ciphers 1301 and 1303, server name, TLS 1.3, group x25519 and one key share |
| `TlsHello.EffectIsLocal` | src/pkg/l1/tls_obfuscation.go:315-333 | what an extension adds is independent of the bytes behind it if and only if it is not a server name that claims more than its own extension |
| `TlsHello.NameSwallowsNextExtension` | src/pkg/l1/tls_obfuscation.go:326-332 | in any ClientHello with one such name its reading runs on over the header of the next extension |
| `TlsHello.WalkReadsEncoded` | src/pkg/l1/tls_obfuscation.go:303-335 | walking an encoded extension list applies each extension once, in order and alone |
| `TlsHello.ValidatesEveryWellFormedHello` | src/pkg/l1/tls_obfuscation.go:261-339 | any well-formed ClientHello, with any extensions in any order, is read as the fold of its extensions |
| `TlsHello.RoundTripExactlyUpToLongestName` | src/pkg/l1/tls_obfuscation.go:60-160 | the validator gives back the server name and TLS 1.3 if and only if the name has at most 65469 bytes, and never fails |
| `TlsHello.RecordLengthHonest` | src/pkg/l1/tls_obfuscation.go:138-159 | the record header tells the true length if and only if the name has at most 65388 bytes |
| `StunMessage.ParseSTUNBindingResponse` | src/pkg/l1/nat_stun.go:94-179 | on arbitrary bytes the walk ends, stays inside its input and answers as the recursive reading of the format does |
| `StunMessage.RefusedExactly` | src/pkg/l1/nat_stun.go:94-121 | a response is refused if and only if it is short, of another type, without the cookie's four bytes, or of another transaction than a given one |
| `StunMessage.XorMappedBytewise` | src/pkg/l1/nat_stun.go:146-153 | an IPv4 XOR address is its bytes less 21 12 A4 42 and its port less 21 12 |
| `StunMessage.XorMapped6Bytewise` | src/pkg/l1/nat_stun.go:154-164 | an IPv6 one besides less the transaction ID in its last twelve bytes |
| `StunMessage.PlainMappedAsItStands` | src/pkg/l1/nat_stun.go:167-174 | a plain mapped address is read as it stands |
| `StunMessage.PaddedToFour` | src/pkg/l1/nat_stun.go:138-140 | the walk steps over values padded to the next multiple of four |
| `StunMessage.ScanFindsFirst` | src/pkg/l1/nat_stun.go:118-176 | scanning padded attributes finds the first one that gives an address, whatever stands before and behind |
| `StunMessage.ResponseAnsweredByFirstMapped` | src/pkg/l1/nat_stun.go:94-179 | a well-formed response is answered by its first mapped attribute, and refused exactly for a wrong transaction ID |
| `StunMessage.Ipv4ResponseRoundTrip` | src/pkg/l1/nat_stun.go:94-179 | behind any other attributes, an IPv4 address and port come back if and only if no transaction ID or the right one was asked for |
| `StunMessage.Ipv6ResponseRoundTrip` | src/pkg/l1/nat_stun.go:94-179 | behind any other attributes, an IPv6 address comes back if and only if the response's own transaction ID is passed in; with none it is accepted and wrong |
| `StunMessage.ScanUnderTail` | src/pkg/l1/nat_stun.go:123-176 | bytes behind a message have no part in the walk but to complete the attribute the message ends inside of |
| `StunMessage.CutAnswers` | src/pkg/l1/nat_stun.go:142-175 | some completion of a cut attribute gives an address if and only if no byte of it rules that out |
| `StunMessage.TrailingBytesIgnored` | src/pkg/l1/nat_stun.go:94-179 | the answer is independent of all bytes behind the message unless the walk ends without one inside an attribute that may still be a mapped address, and exactly then it is not |
| `StunMessage.EightBytesBehindAnswer` | src/pkg/l1/nat_stun.go:133-136 | a message of 24 bytes that holds no address and is answered with one when eight bytes follow it |
| `LinkHealing.LinkHealingEngine.RecordProbeResult` | src/pkg/l1/link_healing.go:92-156 | every link's record is what its own probes, each under the thresholds of its moment, make of it, no other link changes, and a failover is reported exactly when a degraded link trips and another healthy peer exists, the fastest of them |
| `LinkHealing.SelectAlternative` | src/pkg/l1/link_healing.go:159-190 | a healthy peer other than the degraded one, of least round trip, or none exactly if there is none |
| `LinkHealing.RttInFigures` | src/pkg/l1/link_healing.go:159-190 | measured peers compare by latency, an unmeasured one counts as one millisecond away |
| `LinkHealing.Tunables.Configure` | src/pkg/l1/link_healing.go:42-55 | each threshold takes its new value if that is positive and is kept otherwise, so thresholds stay positive |
| `LinkHealingRuns.CountersAreTrailingRuns` | src/pkg/l1/link_healing.go:105-131 | over every history the counters are the lengths of the trailing run of losses and of good probes |
| `LinkHealingRuns.DegradesOnlyOnCause` | src/pkg/l1/link_healing.go:105-131 | a link degrades only on a slow answer or on enough losses in a row |
| `LinkHealingRuns.CauseDegrades` | src/pkg/l1/link_healing.go:105-131 | and such a cause always leaves it degraded |
| `LinkHealingRuns.DegradedExactly` | src/pkg/l1/link_healing.go:105-131 | after any probe a link is degraded if and only if the probe was slower than 1500 ms or the threshold, or ended enough losses, or found it so and did not end enough good answers past the hold-down |
| `LinkHealingRuns.TripExactly` | src/pkg/l1/link_healing.go:135 | a link trips if and only if a lost or over-threshold probe leaves it degraded |
| `LinkHealingRuns.ClearsOnlyAfterHoldDown` | src/pkg/l1/link_healing.go:122-131 | a link clears only on a good probe that ends enough good ones in a row, after the hold-down |
| `LinkHealingRuns.HoldDownBounded` | src/pkg/l1/link_healing.go:133-146 | the hold-down never ends more than 30 seconds after the last failover, which is never after the last bad probe |
| `LinkHealingRuns.DegradedAfterGoodRun` | src/pkg/l1/link_healing.go:92-156 | after a run of good probes a link is degraded if and only if it was before and none of them came late enough in the run, past the hold-down |
| `LinkHealingRuns.PatienceRestores` | src/pkg/l1/link_healing.go:92-156 | enough good probes in a row, the last 30 seconds after the last bad one, always restore the link |
| `LinkHealingRuns.DampingExact` | src/pkg/l1/link_healing.go:127-145 | over every history the penalty is the number of trips within ten seconds of the one before since the last clearing, failover or not; the k-th holds the link down for min(2k, 30) seconds and nothing else moves the hold-down |
| `LinkHealingRuns.HoldDownNeverMovesBack` | src/pkg/l1/link_healing.go:135-145 | under a clock that does not go back no probe moves the end of the hold-down to an earlier time |
| `LinkHealingRuns.BurstDampsLinearly` | src/pkg/l1/link_healing.go:135-145 | n failing probes in close succession on a tripped link add n penalties: the hold-down grows by two seconds each up to thirty |
| `QosBuckets.TrafficEnvelope` | src/pkg/l1/qos.go:56-76 | for any capacity and rate and any stretch of events, bytes let through are at most tokens held, a burst per credit, the rate times the time, and what negative lengths gave back, and the bucket is never overdrawn |
| `QosBuckets.OverfullExactly` | src/pkg/l1/qos.go:65-73 | a bucket holds more than its capacity after an event if and only if that was a packet of a negative length that lifts it past |
| `QosBuckets.WithinBurst` | src/pkg/l1/qos.go:56-76 | without negative lengths nothing is given back and tokens stay within the burst |
| `QosBuckets.NegativeLengthRefills` | src/pkg/l1/qos.go:71-73 | every negative length, alone in its history, lets more than a burst through in one instant without a credit |
| `QosBuckets.EnvelopeExactlyWithoutNegatives` | src/pkg/l1/qos.go:56-76 | the traffic envelope holds of all histories with lengths from a bound up if and only if the bound is not negative |
| `QosBuckets.LetThroughExactly` | src/pkg/l1/qos.go:56-76 | a packet is let through if and only if it is no more than a burst and, since every packet after the last credit, bytes let through and it stay within a burst plus the rate: the bucket refuses nothing it owes |
| `QosBuckets.PacedPacketPasses` | src/pkg/l1/qos.go:56-76 | a packet of up to a burst that keeps the rate's distance from the one before is let through, whatever went before |
| `QosBuckets.StockTermsPace` | src/pkg/l1/qos.go:110-118 | in figures: up to 65536 bytes at 1179648 a second pass, and 65537 never do |
| `QosBuckets.AdmittedFromOpening` | src/pkg/l1/qos.go:46-76 | from its opening a bucket lets through at most burst * (1 + credits) + rate * elapsed, plus what negative lengths gave back, which is nothing without them |
| `QosBuckets.TokenBucket.Consume` | src/pkg/l1/qos.go:56-76 | the bucket stands where its history of packets and credits puts it, and lets a packet through exactly if that is affordable within burst and rate over its history |
| `QosBuckets.QoSManager.EvaluatePacket` | src/pkg/l1/qos.go:135-171 | control traffic changes nothing; any other packet is charged to its own DID alone and passes exactly if its DID's history leaves it affordable, a newcomer's up to a burst; a refusal issues that DID one challenge of 16 bits for 30 seconds, above the threshold exactly when threshold <= tokens < length |
| `QosBuckets.QoSManager.FullBucketIsChallenged` | src/pkg/l1/qos.go:148-170 | a newcomer with a full bucket, far above the threshold, is challenged for 65537 bytes |
| `QosBuckets.QoSManager.VerifyAndCreditPoW` | src/pkg/l1/qos.go:174-215 | succeeds exactly for an open, unexpired, solved challenge, which is then gone and has credited only the DID it was issued to; solved plus open never exceed issued |
| `QosBuckets.LeadingBytesZero` | src/pkg/l1/qos.go:196-202 | the loop finds exactly the sums that begin with a zero byte for every eight bits of difficulty |
| `QosBuckets.StockDifficulty` | src/pkg/l1/qos.go:196-202 | the stock difficulty asks for two zero bytes |
| `QosBuckets.OpenAfterDrop` | src/pkg/l1/qos.go:203-204 | dropping a challenge leaves its DID with exactly one fewer open and no other DID with more |
| `QosBuckets.QoSManager.DidEnvelope` | src/pkg/l1/qos.go:135-215 | for every DID over any run: the admitted bytes are inside the envelope, credits plus open challenges never exceed its refusals, and without negative lengths nothing was given back and tokens are within the burst |
| `ZtnaFirewall.RuleChangesOnlyByExpiry` | src/pkg/l1/firewall.go:212-250 | on fixed policies an answer changes with time only because that DID's policy expired in between, and then to a drop |
| `ZtnaFirewall.RuleExactly` | src/pkg/l1/firewall.go:212-250 | each decision and reason in terms of the policies alone: unknown and default deny, unknown and permissive, expired, wrong direction, wrong port, or match |
| `ZtnaFirewall.AdmittedMeansSomePort` | src/pkg/l1/firewall.go:164-175 | the session gate admits a DID if and only if the packet rule accepts it inbound on some port |
| `ZtnaFirewall.ZTNAFirewall.AuthorizeDIDsBatch` | src/pkg/l1/firewall.go:106-117 | the policies end as after authorizing them one by one, and every cached answer stays faithful |
| `ZtnaFirewall.LastPolicyStands` | src/pkg/l1/firewall.go:106-117 | of several policies for a DID in a batch the last one stands, and no other DID changes |
| `ZtnaFirewall.StampedKeepsPolicy` | src/pkg/l1/firewall.go:87-95 | authorizing stamps a policy that has no stamp and changes nothing else of it |
| `ZtnaFirewall.ZTNAFirewall.RevokeDIDsBatch` | src/pkg/l1/firewall.go:120-127 | exactly the listed DIDs lose their policies, and every cached answer stays faithful |
| `ZtnaFirewall.ZTNAFirewall.CleanupExpiredCache` | src/pkg/l1/firewall.go:177-190 | when due, exactly the expired answers go; the rest is untouched |
| `ZtnaFirewall.ZTNAFirewall.Eval` | src/pkg/l1/firewall.go:192-261 | every answer is the rule's on the current policies at some instant of the last 30 seconds, differs from the rule's now only if that DID's policy expired since; it accepts exactly if at that instant a live policy allowed direction and port or neither policy nor default deny stood, and under default deny an accepted DID still has a policy; a live cached answer is repeated and not counted again |
| `BufferPool.Pool.Acquire` | src/pkg/l1/buffer_pool.go:136-158 | hands out a large enough buffer nobody holds, with one reference, and disturbs no buffer in use |
| `BufferPool.KindIsSmallest` | src/pkg/l1/buffer_pool.go:136-153 | a request is served from the smallest of the pools of 64, 1500 and 65536 bytes that fits, beyond them from none |
| `BufferPool.Pool.Release` | src/pkg/l1/buffer_pool.go:71-75 | one reference fewer; the buffer joins its free list exactly at the last one, and no other buffer moves; a release of a buffer nobody holds reaches no free list and no buffer in use |
| `BufferPool.ReleasedIsOneLess` | src/pkg/l1/buffer_pool.go:71-75 | a release takes one reference to that buffer off the books and touches no other |
| `BufferPool.Pool.FreeListsDisjoint` | src/pkg/l1/buffer_pool.go:161-175 | in every reachable state a free buffer is in one list and not in use, and its count is zero unless some release was one too many |
| `BufferPool.PacketBuffer.SetLen` | src/pkg/l1/buffer_pool.go:38-44 | the length never passes the buffer's end |
| `Pipeline.DropsAreHandedOver` | src/pkg/core/pipeline.go:98-134 | a run sends a dead letter exactly when the packet leaves dropped, if and only if it is not an empty pipeline given a dropped packet |
| `Pipeline.RunEndsAt` | src/pkg/core/pipeline.go:98-134 | told by what the stages return: a run stops where the context is cancelled, or at the first stage that errs, drops or handles, or at the end; cancellation, error and drop leave the packet dropped with that error and a dead letter, anything else leaves it as the stages made it |
| `Pipeline.LaterStagesIrrelevant` | src/pkg/core/pipeline.go:98-134 | stages after the one that ended a run have no part in it |
| `Pipeline.LinearPipeline.AddStage` | src/pkg/core/pipeline.go:68-80 | publishes the list with one more stage; the list a running packet holds is unchanged |
| `Pipeline.LinearPipeline.SetDeadLetterHandler` | src/pkg/core/pipeline.go:83-93 | publishes the handler with the same stages, and ignores nil |
| `Pipeline.HandleDeadLetter` | src/pkg/core/pipeline.go:139-144 | gives back exactly the packet's one reference and forgets the buffer |
| `Pipeline.LinearPipeline.Execute` | src/pkg/core/pipeline.go:98-134 | the packet ends as its stages, one by one, must end it, and leaves either undropped and still owning its buffer or dropped with the buffer gone and its reference released once, under either handler of the repository; telemetry hears of exactly the drops |
| `Handshake.ArrowSplits` | src/pkg/l1/pqc_handshake.go:121-165 | "a->b" texts of two DIDs split in one way only |
| `Handshake.KeysMirroredExactly` | src/pkg/l1/pqc_handshake.go:121-165 | initiator and responder hold swapped keys and one session if and only if secret, salt and both names agree |
| `Handshake.FinalizeMeansMirrored` | src/pkg/l1/pqc_handshake.go:33-119 | the initiator accepts an answer if and only if the two sides' keys mirror, which is if and only if it used the responder's key and both used the same names |
| `Handshake.SecondsFreshExactly` | src/pkg/l1/pqc_handshake.go:74-82 | a stamp in seconds is fresh if and only if it is at most 10 s ahead and 60 s past, to the nanosecond |
| `Handshake.NanosecondsFreshExactly` | src/pkg/l1/pqc_handshake.go:74-82 | so is one in nanoseconds |
| `Handshake.DirectionsDiffer` | src/pkg/l1/pqc_handshake.go:121-165 | the two directions of a session and its ID never share a key |
| `Handshake.OneAnswerForAnInstant` | src/pkg/l1/pqc_handshake.go:104-119 | for given keys one answer is accepted for each instant, and no other |
| `SessionManager.PQCSessionManager.CreateHandshakeInitPacket` | src/pkg/l1/session_manager.go:87-120 | one pending handshake under the canonical target, replacing an older one, and nothing without local keys or with a target key that is none |
| `SessionManager.WholeSecondsFreshExactly` | src/pkg/l1/session_manager.go:144-153 | a stamp in seconds passes if and only if it is at most 10 whole seconds ahead and 60 past |
| `SessionManager.CutNanosecondsFreshExactly` | src/pkg/l1/session_manager.go:144-153 | so does one in nanoseconds, cut to its second |
| `SessionManager.InitiationFreshExactly` | src/pkg/l1/session_manager.go:115-153 | an initiation passes both clocks if and only if it is heard from 10 s before to 60 s after the second it was sent in; 59 s of delay always pass |
| `SessionManager.PQCSessionManager.HandleHandshakeInitPacket` | src/pkg/l1/session_manager.go:123-210 | answers, and stores a session, if and only if the packet is well formed, addressed here, signed by its source, fresh, admitted by the firewall and made of a point X25519 accepts |
| `SessionManager.PQCSessionManager.HandleHandshakeRespPacket` | src/pkg/l1/session_manager.go:213-260 | installs a session only by using up a pending handshake started here, at most one for each; an addressed response uses the pending one up even when it fails |
| `SessionManager.PQCSessionManager.EncryptDataPacket` | src/pkg/l1/session_manager.go:263-282 | seals under the transmit key of the session with that DID, and only if there is one |
| `SessionManager.PQCSessionManager.DecryptDataPacket` | src/pkg/l1/session_manager.go:285-297 | opens under the receive key of the session with the packet's source, and only if there is one |
| `SessionManager.PQCSessionManager.OpensUnderAnyNumber` | src/pkg/l1/session_manager.go:285-297 | a copy of a data packet under another sequence number or timestamp opens to the same payload |
| `SessionManager.CanonicalFixed` | src/pkg/l0/identity.go:51-61 | the full and the compact name of a node have the same canonical form, which is the full one |
| `SessionManager.CanonicalForms` | src/pkg/l0/identity.go:51-61 | every text has a canonical form with the prefix, which is its own; a text that is no compact key only gets the prefix |
| `SessionManager.UndisturbedHandshake` | src/pkg/l1/session_manager.go:87-260 | one undisturbed handshake: the responder ends with a session if and only if it hears in its window and its firewall admits; the initiator if and only if besides the answer comes in 60 s, it used the responder's key and both used the same names; then both store one session with mirrored keys |
| `SessionManager.SendPayload` | src/pkg/l1/session_manager.go:263-297 | over mirrored sessions any payload sealed at one end opens at the other unchanged |

## Left out

- Interleaving: methods run one at a time. Mutexes, atomics and goroutines are not modelled, so races such as a policy change between the firewall's policy read and its cache insert are outside the model.
- Sockets, tunnels, gateways, HTTP, UI, installers and tickers: input and output only.
- Cryptography: KEM, hashes, tags, seals and signatures are free constructors, and truncation of digests to 16 bytes is not modelled. Two properties are used: decapsulation gives back the encapsulated secret, and opening undoes sealing.
- Floating point: latencies, scores, weights, tokens and shares are reals or exact fractions; rounding and NaN are outside the model.
- Unbounded counters: the statistics of QoS, firewall, link healing, router and buffer pool, the handshake sequence number and the buffer reference count are natural numbers; the replay and arbiter counters do wrap at 64 bits.
- Clocks: `time.Duration` overflow is not modelled, and one call reads the clock once.
- Names: reading a DID or a compact key as a public key is a parameter, and DIDs in handshake texts are taken to have no '>' in them, as hexadecimal and base64url texts have none.
- `src/pkg/l0/wire.go`: its encoding library is not part of this model.
- `KademliaQuery.SortIsSorted`: `sort.Slice` is an insertion sort, which the uniqueness of the answer makes immaterial.
- `BufferPool.Pool.Retain`: requires a live reference; the books count references and cannot tell a stale handle from a live one to the same buffer. `sync.Pool` is any set from which buffers may vanish.
- `BufferPool.PacketBuffer.Data`: requires a length that is not negative; `Acquire` of a negative size hands out a buffer whose data cannot be read.
- `Pipeline.LinearPipeline.Execute`: stages leave the packet's buffer alone, as all of the repository do, and a dead-letter handler that is not the repository's is taken to keep the buffer. The size in a telemetry event is not modelled.
- `ZtnaFirewall.ZTNAFirewall.AuthorizeDID`: policies are values, so a caller who keeps a policy object and edits it behind the cache is not modelled.
- `AntiReplaySession.AntiReplayFilter.TrackersWithinQuota`: holds while no other component reserves or releases in the replay class.
- `SessionManager.UndisturbedHandshake`: overlapping handshakes between the same two nodes overwrite each other's sessions and agree on nothing; only each step's contract covers them.
- `RouterLimit.UnsafeIsFillable`: supposes a ring with two names; without one a limit equal to the number of names is kept for want of peers.
- `RouterNames.AliasesBecomePeers`: starts from an empty router with more than one place in a ring; with one place the second name competes for it.
- `QosBuckets.TokenBucket.Reward`: fills a bucket to its own capacity, as the manager's limit is for every bucket it makes.
- `LinkHealing.Tunables.Configure`: the cooldown, which is set and never read, and the environment variables of the start-up are not modelled.
- Class quotas of the arbiter and policies of the firewall are records replaced in maps, not objects shared by pointer.
- Roaming updates, ring rebalancing, peer copies, metrics text, ServerHello, application-data framing, building STUN requests, hole punching, onion routing, trust tiers, operating modes, DNS cache, the node FSM and the XDP filters: easy members or other components.
