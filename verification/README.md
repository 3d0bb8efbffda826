# Verified model of the distributed location resolver

The library answers one question for a distributed program: on which rank does an
entity live right now? Every entity has a fixed home rank. Ranks register entities,
hand them over to each other and ask for locations; the home answers, queues those
who ask too early, and refreshes everyone it has answered. This project models that
protocol, the cache and lookup it runs on, and the arbitrary-precision arithmetic in
the formatting library shipped with it, and proves what each of them keeps in every
run, for every input.

## How it is organised

**Storage.** `Records` holds the location record and its local/remote classification.
`Recency` is the abstract LRU cache, a recency-ordered sequence. `LocationCache` is
the cache as stored, a heap class over doubly linked nodes and a map from keys to
nodes, proved to implement `Recency`. `LruTheory` reasons about whole traces of cache
calls. `LookupTable` and `Lookup` put the permanent directory on top of the cache.

**Protocol.** `RankModel` says what each call and each message handler does to one
rank as a value; `Coordinator` is the same rank as an object whose fields are updated
in place and whose loops send messages and run callbacks, every method proved to take
exactly the step of `RankModel`. `Network` and `Protocol` join `n` ranks by packets in
flight: a run is any list of API calls and deliveries, a delivery may take any packet,
and the order in which a set of askers is visited is arbitrary. Callbacks are tokens;
running one is recorded in a log. On top of that:

- `RankInvariant`: what every rank satisfies in every state, under any delivery order.
- `Waiters`, `Callbacks`, `Drain`: nobody who waits is forgotten, every callback is
  invoked at most as often as issued, and delivering what is in flight always ends.
- `Subscriptions`, `Provenance`, `HomeDirectory`: whom the home has told what, where
  locations come from, and what the home knows as a function of the run alone.
- `Migration`: where the calls of a run have put an entity, and the three rules a run
  may keep: FIFO channels, patient registration, reports by the host.
- `Convergence`: with FIFO channels and patient registration the home and the ranks it
  keeps informed agree. `CacheHistory`: what any rank has cached, as a function of the
  run, and from that exactly when its record is right. `ExistenceAnswers`: the same for
  ranks the home does not keep informed, by what the home had on file when it answered.
- `Answers`: what every query hears at once and every waiter in the end, as a function of
  the run. `RecordTrace`: the records of a rank as a trace of lookup operations, and its
  cache as the LRU cache of that trace.
- `Existence`: exactly when the home is right about whether an entity exists.
- `Limits`: concrete runs that break each of these rules in turn, and each promise.

**Arithmetic.** `Limbs` gives limb sequences their value; `HighLimbs`, `Comparison`,
`Carries`, `Convolution` and `Borrows` hold the arithmetic behind the loops of the
class in `BigInteger`; `Decimal` and `Dragon` cover generating a given number of digits
from a numerator and a denominator, and `FloatDigits` how these are set up for a binary
floating-point number, up to what the digits then say about that number.

`dafny verify dfyconfig.toml` checks everything.

## What the runs assume

- The home of an entity is a function of its id, and ranks are `0 .. n-1`.
- Packets are neither lost nor duplicated. FIFO per ordered pair of ranks is assumed
  only in `Convergence`, as the hypothesis `FifoRun`; message-passing backends with a
  non-overtaking rule (section 3.5 of the MPI 4.0 standard) provide it.
- The cache capacity is at least one: with capacity zero the eviction code reads the
  last element of an empty list (`src/loc/cache/cache.h:67-70`).
- Callbacks do not call back into the coordinator.
- Emigration names a rank as its target.
- Few results restrict how the API is used. `Convergence` needs `PatientRun`: nobody
  registers the entity while an update about it is in flight. `Existence` needs that and
  `HostedRun`: emigration and removal of the entity are reported by its current host.
  The layer results of `HomeDirectory` and `ExistenceAnswers` need only that the home
  never reports the emigration of the entity without having it on file. Each of these
  rules concerns the calls about the one entity the result is about.

## Where the code and its documentation differ

The model follows the code.

- `docs/md/architecture.md:29-30` and `src/loc/coordinator.h:34-36` say that caches are
  refreshed when an entity moves. Only ranks that the home has answered through
  `resolveResponse` are: a cache filled by an existence answer stays stale
  (`Limits.StaleAfterExistenceQuery`); `HomeDirectory.RefreshReaches` says exactly who
  is reached. Without FIFO channels even a refreshed cache can stay stale
  (`Limits.StaleWithoutFifo`), and two updates from different ranks can leave the home
  itself wrong (`Limits.HomeWrongWithoutWaiting`). In every run a record away from home
  is right if and only if the node last heard there is (`CacheHistory.RightExactly`);
  on a rank that is not refreshed, if and only if the home's entry was, at the time of
  its last answer to that rank (`ExistenceAnswers.UninformedExactly`).
- The home is called authoritative (`src/loc/coordinator.impl.h:97`), but removing an
  entity away from its home does not tell the home, which goes on saying that it exists
  (`Limits.HomeRemembersRemoved`). Its verdict is wrong if and only if the entity was
  removed away from home and not registered since (`Existence.VerdictExactly`).
- `compare` orders two equal numbers stored with different limb counts by those counts
  (`lib/fmt/include/fmt/format.h:2827`). `Bigint.Compare` is proved to be exactly that
  order, and `Bigint.DivmodAssign` to divide if and only if the dividend is not such a
  shortened copy of the divisor; `BigInteger.DivisionMissed` is a failing case. A missed
  division makes `format_dragon` write the character after '9' in place of two digits.
  `FloatDigits.FormatFixed` gives the exact condition in terms of the floating-point
  number: it is a power of ten, and its significand is shifted by more whole limbs than
  `10^exp10` is. `format_dragon` accepts such a number, for instance
  `5^31 * 2^31` (`FloatDigits.MisprintsTenTo31`), but none with a significand of up to
  64 bits, normalized one of 113 bits or negative exponent exists (`FloatDigits.FormatsNeverMisprinted`),
  so none of the formats the library passes to it is affected.
- `subtract_aligned` states as its preconditions only alignment and order, but a
  dividend two or more limbs longer can trip its own assertion that no borrow is left.
  `Bigint.SubtractAligned` is proved to subtract if and only if `Borrows.Subtractable`
  holds of the operands; `Borrows.BorrowLost` is a failing case. `divmod_assign` gets
  through without that assertion failing if and only if the dividend has at most one
  limb more than the divisor.
- The comment at `lib/fmt/include/fmt/format.h:2688` gives the weight of a limb as a
  power of 32; the code uses powers of 2^32.

## Model

| member | source | states |
|---|---|---|
| Records.MakeRec | src/loc/coordinator.impl.h:191-198 | a record is filed under its own id, is never Invalid, and is Local exactly when it points at the rank that holds it |
| LocationCache.Cache.Exists | src/loc/cache/cache.h:43-45 | a key is found in the hash map iff its entry is in the list |
| LocationCache.Cache.Get | src/loc/cache/cache.h:49-54 | a hit answers the stored value and moves exactly that entry to the front; list links and key-to-node map stay exact |
| LocationCache.Cache.Remove | src/loc/cache/cache.h:56-62 | exactly the entry of the key goes, from list and map together; a miss changes nothing |
| LocationCache.Cache.Insert | src/loc/cache/cache.h:64-82 | a new key enters in front and, if the cache was full, the last entry leaves first; a known key is overwritten and promoted |
| LocationCache.Cache.Unlink | src/loc/cache/cache.h:52-59 | cutting a node out of the middle or an end leaves the other nodes well linked and in order |
| LocationCache.Cache.LinkFront | src/loc/cache/cache.h:72-80 | linking a node in front leaves a well-linked list of distinct nodes |
| LocationCache.Cache.PopBack | src/loc/cache/cache.h:67-71 | eviction removes the last list entry and its map entry and makes room |
| Recency.InsertedFacts | src/loc/cache/cache.h:64-82 | insertion keeps keys distinct and the size within capacity, the key is readable, every other key keeps its value or is gone |
| Recency.TouchedFacts | src/loc/cache/cache.h:49-54 | promotion loses nothing and changes no answer |
| LruTheory.Inclusion | src/loc/cache/cache.h:43-82 | on any trace the list of the smaller cache is a subsequence of the list of the larger one, which never has less free room |
| LruTheory.LargerCacheKeepsHits | src/loc/cache/cache.h:64-82 | raising the capacity never loses a hit and never changes its answer |
| LruTheory.RefinesHistory | src/loc/cache/cache.h:49-82 | after any trace the list is sorted by strictly decreasing time of last use, and values are those last inserted |
| LruTheory.HitReturnsLatest | src/loc/cache/cache.h:49-82 | every hit returns the value last inserted for its key |
| LruTheory.EvictsOldest | src/loc/cache/cache.h:64-71 | an insertion loses another key iff the cache is full, the inserted key is new, and that key was used longest ago |
| LruTheory.WorkingSetStays | src/loc/cache/cache.h:22-27 | an inserted key stays a hit as long as it is not removed and fewer than capacity other keys are used since |
| Lookup.Directory.Insert | src/loc/directory/directory.h:58-69 | adds or overwrites one entry and nothing else |
| Lookup.Directory.Remove | src/loc/directory/directory.h:51-56 | deletes one entry if present and nothing else |
| Lookup.LocLookup.Exists | src/loc/lookup/lookup.h:34-36 | known iff on file or cached |
| Lookup.LocLookup.Get | src/loc/lookup/lookup.h:40-46 | the directory answers first; only a cache hit is promoted |
| Lookup.LocLookup.Insert | src/loc/lookup/lookup.h:53-61 | files at the home, caches elsewhere |
| Lookup.LocLookup.Update | src/loc/lookup/lookup.h:63-70 | overwrites a filed entry in place, otherwise inserts into the cache |
| Lookup.LocLookup.Remove | src/loc/lookup/lookup.h:48-51 | the key leaves both layers |
| Lookup.LocLookup.ClearCache | src/loc/lookup/lookup.h:72-74 | empties the cache and leaves the directory alone |
| LookupTable.UpdateThenRead | src/loc/lookup/lookup.h:40-70 | from any state, after update(k, v) a read of k answers v, the directory gains or loses no key, other cached keys keep their value or are evicted |
| LookupTable.DirectoryFollowsTrace | src/loc/lookup/lookup.h:48-74 | after any trace the directory is what home inserts, updates and removals recorded, whatever the cache evicted or cleared |
| LookupTable.ReadsPreferDirectory | src/loc/lookup/lookup.h:40-46 | a filed entry answers every read |
| Coordinator.Coordinator.AnnounceLocation | src/loc/coordinator.impl.h:214-244 | files the location, sends it once to each former asker in any order and then to the early requesters in arrival order, remembers those, empties the queue, and runs the local waiters in order |
| Coordinator.Coordinator.RegisterEntity | src/loc/coordinator.impl.h:28-38 | the entity becomes local; at home it is announced, elsewhere the home is sent this rank |
| Coordinator.Coordinator.EntityEmigrated | src/loc/coordinator.impl.h:47-53 | the entity is no longer local and its record names the new node; nothing is sent |
| Coordinator.Coordinator.UnregisterEntity | src/loc/coordinator.impl.h:55-59 | the entity is no longer local, filed or cached; nothing is sent |
| Coordinator.Coordinator.GetLocation | src/loc/coordinator.impl.h:61-82 | a known entity is answered at once; otherwise the callback queues last and only the first one away from home asks |
| Coordinator.Coordinator.EntityExists | src/loc/coordinator.impl.h:84-106 | known: yes with a node; unknown at home: no; unknown elsewhere: queued, the first one asks |
| Coordinator.Coordinator.ClearCache | src/loc/coordinator.impl.h:113-116 | only cached records go |
| Coordinator.Coordinator.UpdateHome | src/loc/coordinator.impl.h:123-126 | the home announces the node it is told |
| Coordinator.Coordinator.LocationRequest | src/loc/coordinator.impl.h:128-146 | a known entity is answered and the requester remembered; otherwise it queues last |
| Coordinator.Coordinator.ResolveResponse | src/loc/coordinator.impl.h:148-154 | the record is overwritten and all waiters run, in order, with that node |
| Coordinator.Coordinator.ExistsRequest | src/loc/coordinator.impl.h:156-173 | exactly one verdict goes back, and the requester is not remembered |
| Coordinator.Coordinator.ExistsResponse | src/loc/coordinator.impl.h:175-189 | a positive answer is recorded; all waiters run, in order, with that verdict |
| Coordinator.Coordinator.FlushPending | src/loc/coordinator.impl.h:200-212 | exactly the waiters of this entity run, in registration order, and leave the buffer |
| RankInvariant.SystemInvAlways | src/loc/coordinator.impl.h:28-244 | in every state of every run: entries on file live at the home only and exclude queued requesters and waiters, an entity registered at its home is on file, the home never queues or remembers itself, records are classified against their holder, and every packet travels between home and non-home as it should |
| Waiters.NoLostWaiterAlways | src/loc/coordinator.impl.h:73-154 | under any delivery order a rank away from home with a waiting location callback has its request in flight, a place in the home's queue, or an answer in flight |
| Waiters.QuiescentWaiters | src/loc/coordinator.impl.h:61-154 | with nothing in flight a rank, the home included, waits only for entities the home does not have on file, and then stands in its queue |
| Waiters.ExistenceExactAlways | src/loc/coordinator.impl.h:84-189 | the existence requests and responses in flight for a rank and entity number exactly one if it has waiters and zero if not |
| Waiters.QuiescentExistence | src/loc/coordinator.impl.h:84-189 | no existence waiter survives quiescence |
| Waiters.PendingChange | src/loc/coordinator.impl.h:61-82 | a location buffer changes only by appending one callback, the first of which asks the home, or by running all of it in order with the node just announced or sent |
| Callbacks.Conservation | src/loc/coordinator.impl.h:61-212 | in every run, with multiplicity, callbacks issued equal callbacks waiting plus callbacks invoked |
| Callbacks.NeverTwice | src/loc/coordinator.impl.h:61-212 | a callback issued once is invoked exactly once as soon as it no longer waits, and not before |
| Callbacks.BufferedRunTogether | src/loc/coordinator.impl.h:200-212 | buffered location callbacks run together, in registration order, with the node just announced or sent |
| Callbacks.ExistenceRunTogether | src/loc/coordinator.impl.h:182-188 | buffered existence callbacks run together, in registration order, with the verdict and node just delivered |
| Drain.DeliveryDecreases | src/loc/coordinator.impl.h:123-244 | every delivery decreases (updates, requests, responses in flight) lexicographically, although one update can send many responses |
| Drain.DrainTerminates | src/loc/coordinator.impl.h:123-244 | no infinite sequence of deliveries exists, from any state |
| Drain.CanDrain | src/loc/coordinator.impl.h:123-244 | from every state of every run deliveries alone reach a state with nothing in flight |
| Drain.DrainedAnswersAll | src/loc/coordinator.impl.h:61-212 | once drained, every existence callback and every location callback of an entity on file has been invoked as often as issued |
| Subscriptions.AnnounceReaches | src/loc/coordinator.impl.h:214-244 | an announcement sends to exactly the askers it leaves behind |
| Subscriptions.AnnouncedOnce | src/loc/coordinator.impl.h:220-240 | it sends each former asker exactly one refresh and each queued request exactly one answer |
| Subscriptions.QueueChange | src/loc/coordinator.impl.h:142-145 | the queue at the home changes only by an unanswerable request joining at its end, or by being answered completely, in order of arrival, with the node announced |
| Subscriptions.AskersAreAnsweredAlways | src/loc/coordinator.impl.h:128-244 | in every run the remembered askers are exactly the ranks ever sent a resolveResponse for the entity |
| Subscriptions.SettledTellsTruth | src/loc/coordinator.impl.h:214-244 | from each announcement until the next emigration or removal at the home, the last location ever sent to each remembered asker is the one on file |
| Provenance.TracedAlways | src/loc/coordinator.impl.h:28-198 | every node stored, sent or handed to a callback registered the entity or was named as its emigration target; only negative existence answers carry no_node |
| Provenance.NamedAreRanks | src/loc/coordinator.impl.h:28-53 | whatever was put forward is a rank, never no_node |
| Provenance.LocationsAreReal | src/loc/coordinator.impl.h:61-106 | every location a callback receives is a rank that was put forward for that entity |
| HomeDirectory.DirectoryFollowsRun | src/loc/coordinator.impl.h:28-59 | in every run, whatever is delivered when, the home has on file exactly what announcements and its own calls put there |
| HomeDirectory.LayersSeparateUnlessMisreported | src/loc/coordinator.impl.h:47-53 | a step puts an entity into the cache of its home iff the home reports its emigration without having it on file |
| HomeDirectory.LayersAlwaysSeparate | src/loc/lookup/lookup.h:34-70 | an entity without such a report is never both on file and cached on one rank, and never cached at its home |
| HomeDirectory.HostsAreHonest | src/loc/coordinator.h:90-96 | if only ranks where an entity is registered report its emigration, as documented, there is no such report of it |
| HomeDirectory.HomeVerdict | src/loc/coordinator.impl.h:156-173 | about an entity without such a report the home answers yes iff it is on file, with the node on file; the local fallback never decides |
| Migration.LocalFollowsRun | src/loc/coordinator.impl.h:28-59 | in every run a rank counts an entity as its own iff the last registration, emigration or removal of it reported on that rank is a registration |
| Migration.HostHasRegistered | src/loc/coordinator.impl.h:28-59 | in every run the rank that the calls name as current host has the entity registered locally |
| Existence.RememberedExactly | src/loc/coordinator.impl.h:28-59 | in patient, hosted runs the home has the entity on file or an update about it is in flight, iff it was registered and not removed at home since |
| Existence.VerdictExactly | src/loc/coordinator.impl.h:96-99 | once no update about the entity is in flight, and if the calls about it alone were patient and hosted, the home says it exists iff it is so remembered, and this is wrong iff it was removed away from home and not registered since |
| HomeDirectory.RefreshReaches | src/loc/coordinator.impl.h:214-244 | an announcement reaches a rank iff the home has answered it before or it stands in the queue |
| Convergence.AnnounceAgrees | src/loc/coordinator.impl.h:214-244 | right after an announcement the home and all news on its way to informed ranks name the announced node |
| Convergence.BeliefOnDelivery | src/loc/coordinator.impl.h:148-181 | over FIFO channels a delivery never makes a rank believe something older than what is on its way |
| Convergence.Converges | src/loc/coordinator.impl.h:28-181 | in FIFO runs with patient registration: whenever the entity lives on a node and no update about it is in flight, the home says that node, and for every informed rank the newest news in flight, or else its cached record, says it too; who reports emigrations does not matter |
| Convergence.QuiescentCachesAgree | src/loc/coordinator.impl.h:128-244 | in such runs, with nothing in flight, neither the home nor any informed rank has a stale record |
| CacheHistory.CacheFollowsRun | src/loc/coordinator.impl.h:47-59 | in every run, under any delivery order and any use of the API, a record away from home names the node last heard: in a delivered response or in an emigration the rank reported itself, since its own last removal |
| CacheHistory.RightExactly | src/loc/coordinator.impl.h:148-181 | such a record is right iff the node last heard is |
| CacheHistory.QuiescentRecordsExactly | src/loc/coordinator.impl.h:128-244 | in FIFO, patient runs with nothing in flight the record of any rank, informed or not, names the host iff it is the home or last heard so, and informed ranks always did |
| CacheHistory.OvertakenExactly | src/loc/coordinator.impl.h:214-244 | without FIFO, while the home has not changed its entry silently, the record of an asker agrees with the directory iff the location it heard last equals the one it was sent last |
| ExistenceAnswers.AnswersAlways | src/loc/coordinator.impl.h:156-173 | every existence answer in flight to a rank says what the home had on file when it last handled a query of that rank, whatever else is in flight |
| ExistenceAnswers.UninformedExactly | src/loc/coordinator.impl.h:175-181 | under any delivery order the record of a rank outside loc_asks_ is right iff the entry of the home when it gave the last positive answer that reached the rank, or the target of a later emigration the rank reported itself, was already right |
| Answers.GetLocationAnswers | src/loc/coordinator.impl.h:61-82 | over any run: an entity registered on the rank is answered with the rank itself, whatever its records say; otherwise a record is answered with the node on file at the home or last heard elsewhere; otherwise nothing runs |
| Answers.HostAnswersItself | src/loc/coordinator.impl.h:65-68 | the current host answers location and existence queries with itself |
| Answers.EmigrationAnswers | src/loc/coordinator.impl.h:47-53 | right after reporting an emigration a rank answers with the new node |
| Answers.RemovalForgets | src/loc/coordinator.impl.h:55-59 | right after a removal a rank has no answer |
| Answers.ClearingForgets | src/loc/coordinator.impl.h:113-116 | after clearing its cache a rank has a record of exactly what it has on file |
| Answers.EntityExistsAnswers | src/loc/coordinator.impl.h:84-106 | over any run: yes with the rank itself, the node on file or the node last heard; no at a home that knows nothing; elsewhere nothing runs |
| Answers.OwnVerdictExactly | src/loc/coordinator.impl.h:96-99 | the home's own verdict is right except for entities removed away from home, under the same rules as the verdict it sends |
| Answers.ExistenceWaitersHear | src/loc/coordinator.impl.h:175-189 | existence waiters hear what the home had on file when it answered their rank, all of them, in order |
| Answers.SentWasOnFile | src/loc/coordinator.impl.h:128-146 | every location sent in a resolveResponse was on file at the home when it was sent |
| Answers.LocationWaitersHear | src/loc/coordinator.impl.h:148-154 | location waiters away from home hear such a node, all of them, in order |
| Answers.HomeWaitersHear | src/loc/coordinator.impl.h:242-243 | location waiters at home hear the node announced, which goes on file |
| RecordTrace.CacheIsLru | src/loc/lookup/lookup.h:34-74 | after any trace, clearing included, the cache layer is the LRU cache of exactly the operations the directory did not absorb |
| RecordTrace.RecordsFollowTrace | src/loc/coordinator.impl.h:28-198 | in every run the records of a rank are what the lookup operations of its calls and handlers leave; entities registered on the rank are not looked up |
| RecordTrace.RankCacheIsLru | src/loc/coordinator.impl.h:28-198 | so the cache of every rank in every run is the LRU cache of what it heard and looked up since it was last cleared |
| Limits.StaleWithoutFifo | src/loc/communicator.h:20-40 | a patient, hosted run without FIFO that ends with nothing in flight and a stale cache on an informed rank |
| Limits.HomeWrongWithoutWaiting | src/loc/coordinator.impl.h:123-126 | a FIFO, hosted run with two crossing updates that ends with nothing in flight and the home wrong |
| Limits.StaleAfterExistenceQuery | src/loc/coordinator.impl.h:175-181 | a run that keeps all rules and ends with nothing in flight and a stale cache filled by an existence answer |
| Limits.HomeRemembersRemoved | src/loc/coordinator.impl.h:55-59 | a run that keeps all rules (register on rank 1, deliver, unregister on rank 1) after which the home still has the entity on file |
| Limits.UnhostedRemoval | src/loc/coordinator.impl.h:55-59 | a FIFO, patient run in which the home removes an entity it does not host, and has it on file afterwards |
| Limits.ImpatientRemoval | src/loc/coordinator.impl.h:55-59 | a FIFO, hosted run without patience in which the entity is removed at home, and is on file afterwards |
| BigInteger.Bigint.Compare | lib/fmt/include/fmt/format.h:2816-2829 | for any operands, zero included: orders by value and, between equal values, by stored limbs, unless a zero is stored longer than the other operand; the zero is then called larger |
| Comparison.StoredShorterExactly | lib/fmt/include/fmt/format.h:2816-2829 | equal numbers stored with different limb counts are exactly those that differ by trailing zero limbs folded into the exponent |
| BigInteger.Bigint.AddCompare | lib/fmt/include/fmt/format.h:2831-2849 | exactly the sign of lhs1 + lhs2 - rhs, zeros included, through all early exits, unless a zero is stored longer than what it is compared with; then lengths decide |
| BigInteger.Bigint.Multiply | lib/fmt/include/fmt/format.h:2727-2736 | the value is multiplied exactly; the carry never exceeds a limb |
| BigInteger.Bigint.MultiplyWide | lib/fmt/include/fmt/format.h:2738-2757 | exact multiplication by a 64-bit or 128-bit value; no leading zero limb appears |
| BigInteger.WideFits | lib/fmt/include/fmt/format.h:2746-2752 | the carry of the wide loop always fits the width |
| BigInteger.WideTight | lib/fmt/include/fmt/format.h:2746-2752 | in both widths there are operands that bring the carry to the largest value that fits |
| BigInteger.Bigint.ShiftLeft | lib/fmt/include/fmt/format.h:2795-2808 | the value is multiplied by 2^shift, whole limbs of the shift go into the exponent, and no leading zero limb appears |
| Carries.ShiftLimb | lib/fmt/include/fmt/format.h:2801-2805 | shifting a limb and adding the carry never overflows, and the new carry is the bits that fell off |
| BigInteger.Bigint.Square | lib/fmt/include/fmt/format.h:2869-2895 | the value is squared exactly and leading zeros are gone |
| BigInteger.Bigint.SquareBits | lib/fmt/include/fmt/format.h:2869-2892 | the two triangular loops sum every cross product once, within the 128-bit accumulator |
| Convolution.CrossProductsSum | lib/fmt/include/fmt/format.h:2875-2892 | cross products summed by position are the product |
| BigInteger.Bigint.Assign | lib/fmt/include/fmt/format.h:2759-2769 | the value becomes n > 0, without leading zero limbs |
| BigInteger.Bigint.AssignPow10 | lib/fmt/include/fmt/format.h:2851-2867 | the value becomes 10^exp for every representable exp >= 0, stored with exponent exp / 32 |
| BigInteger.Bigint.AssignPow5 | lib/fmt/include/fmt/format.h:2855-2865 | reading the exponent's bits from the top yields 5^exp |
| BigInteger.Bigint.RemoveLeadingZeros | lib/fmt/include/fmt/format.h:2708-2712 | the value stays; what remains has a nonzero top limb or is a single zero limb |
| BigInteger.Bigint.Align | lib/fmt/include/fmt/format.h:2897-2908 | the value stays, the exponents become equal, the limbs move up over zeros |
| BigInteger.Bigint.SubtractBigits | lib/fmt/include/fmt/format.h:2702-2706 | one limb of subtraction modulo the limb base, with the exact new borrow |
| BigInteger.Bigint.SubtractAligned | lib/fmt/include/fmt/format.h:2714-2725 | the difference iff no borrow is left, which holds iff Borrows.Subtractable does; otherwise the result is too large by one unit two places above the subtrahend |
| Borrows.BorrowLost | lib/fmt/include/fmt/format.h:2722-2723 | aligned, ordered operands for which a borrow is left |
| BigInteger.Bigint.DivmodAssign | lib/fmt/include/fmt/format.h:2910-2923 | for any dividend: no assertion fails iff it has at most one limb more than the divisor, and then old = q * divisor + new and 0 <= new < divisor iff it is not a shortened copy of the divisor, which is reported as smaller |
| BigInteger.DivisionMissed | lib/fmt/include/fmt/format.h:2912-2914 | equal operands that are reported as different |
| Borrows.StaysLong | lib/fmt/include/fmt/format.h:2917-2921 | repeated subtraction never brings a dividend with two or more limbs above the divisor down to one without losing a borrow |
| Dragon.NextDigit | lib/fmt/include/fmt/format.h:3041-3045 | up to ten denominators the quotient is a decimal digit, or ten exactly for ten denominators; the rest is below the denominator, or equal to it exactly when the division is missed |
| Dragon.StageStep | lib/fmt/include/fmt/format.h:3040-3044 | before each digit the numerator is ten denominators exactly right after a missed division, and zero from the next digit on |
| Dragon.LeadingDigits | lib/fmt/include/fmt/format.h:3039-3044 | after any number of digits, digits and rest account for the exact quotient; the digits are plain iff no division before the last of them was missed |
| Dragon.PropagateCarry | lib/fmt/include/fmt/format.h:3051-3055 | carrying a ten upwards spells the same number in plain digits, unless it runs out at the top |
| Dragon.RoundUpNine | lib/fmt/include/fmt/format.h:3047-3063 | after a final nine is rounded up the digits denote the same number, with a top overflow written out or moved into the exponent |
| Dragon.FixedDigits | lib/fmt/include/fmt/format.h:3028-3068 | for any numerator below ten times the denominator and any positive number of digits, what is written denotes the exact quotient rounded half to even at that place, and it is plain digits unless, and only unless, the numerator is coarser than the denominator and the quotient is 10^-j for some j < num_digits - 1 |
| Dragon.LowestLimbDecides | lib/fmt/include/fmt/format.h:2899-2907 | that never happens with a denominator whose lowest limb is nonzero |
| Dragon.NoDigits | lib/fmt/include/fmt/format.h:3029-3038 | for any numerator below ten times the denominator, without digits the single digit is the number rounded at a place above it |
| Decimal.RoundedNearest | lib/fmt/include/fmt/format.h:3046-3047 | the rounding meant is to a nearest integer, and to the even one of two |
| Decimal.CarryTen | lib/fmt/include/fmt/format.h:3053-3056 | moving ten from one place to the next spells the same number |
| FloatDigits.SetUp | lib/fmt/include/fmt/format.h:2945-2986 | in all three branches numerator / denominator is the number divided by 10^exp10, upper is half a unit in its last place, and the exponents are those that decide about missed divisions |
| FloatDigits.Fixup | lib/fmt/include/fmt/format.h:2985-2996 | exp10 is decremented, and the numerator multiplied by ten, iff the number plus half a unit stays below 10^exp10 or reaches it with an odd significand |
| FloatDigits.TooLargeExactly | lib/fmt/include/fmt/format.h:2985-2990 | that is iff 10^exp10, rounded half to even to a multiple of the last place, is above the number |
| FloatDigits.CorrectedIsRight | lib/fmt/include/fmt/format.h:2988-2996 | for an estimate that is right or one too large, the number is then below 10^(exp10 + 1) and, with half a unit added, not below 10^exp10 |
| FloatDigits.SameRatio | lib/fmt/include/fmt/format.h:2999-3000 | rounding a quotient does not depend on how numerator and denominator are scaled |
| FloatDigits.FormatFixed | lib/fmt/include/fmt/format.h:2936-3068 | for any significand of up to 128 bits, an estimate of the decimal exponent that is right or one too large, and a number of digits that is not negative: what is written denotes f * 2^e itself, rounded half to even at the last place asked for, which in corrected fixed notation is num_digits places after the decimal point; it is plain digits iff the number is not a misprinted power of ten; the precision is rejected iff the digits would not fit an int |
| FloatDigits.SetUpMisprints | lib/fmt/include/fmt/format.h:2950-2984 | operands that are set up lead to a missed division iff the number is such a power of ten |
| FloatDigits.MisprintedSignificands | lib/fmt/include/fmt/format.h:2950-2961 | a misprinted number has a significand of at least 5^30, and above 10^31 of at least 5^62 |
| FloatDigits.FormatsNeverMisprinted | lib/fmt/include/fmt/format.h:1602-1626 | significands of up to 64 bits, normalized ones of 113 bits, and numbers with a negative exponent are never misprinted |
| FloatDigits.MisprintsTenTo31 | lib/fmt/include/fmt/format.h:2950-2961 | 5^31 * 2^31 is misprinted |

## Left out

- The communicator itself (`src/loc/communicator.h`, the MPI backend, handles, collective registration, polling) is not part of this model; the packets in flight stand for it. The synchronous in-process backend of the tests, whose sends re-enter the handlers, is excluded with re-entrant callbacks.
- Re-entrant callbacks: a callback that calls the coordinator while a buffer is being flushed is not modelled.
- Entity ids are integers, callbacks are tokens; hashing, templates, move semantics and lifetimes are not modelled.
- `serialize` members depend on a serializer that is not part of this model.
- `isCached`, `thisNode`, `getSize`, `getDirectory`, `getMap` and the alias `entityImmigrated` are thin and would only add easy members.
- BigInteger.Bigint.SubtractAligned: the source aborts on the failed assertion; the model returns it as a result and goes on, so that both outcomes can be described.
- BigInteger.Bigint.DivmodAssign: the model stops where an assertion of `subtract_aligned` fails and promises nothing about the state then; with assertions compiled out the program would go on with a wrong number. The dividend has no leading zero limbs or is the zero that subtraction leaves, as the operations keep it.
- BigInteger.Bigint.MultiplyWide: does not bound the number of limbs appended; buffer growth always succeeds.
- BigInteger.Bigint.ShiftLeft: the exponent and the quotient of a division are mathematical integers; overflow of the 32-bit `int` fields is not modelled.
- The limbs of a `Bigint` are a sequence field that methods reassign, not a growable buffer: buffer capacity and allocation are not modelled. The two loops of `square` are one loop over positions that branches between them.
- FloatDigits.FormatFixed: the shortest-output branch of `format_dragon`, with `lower`, and a failing `try_resize` are not modelled; how a float is taken apart into significand and exponent is not either, only the sizes of the significands.
- The rest of the formatting library: parsing, locale, chrono, colour, files, printing, tables of powers.
