# A verified model of the idle-compute platform's algorithms

The platform spreads work over idle machines. This project models the parts of it that carry real
algorithms and protocols, and proves what they are for:

| file | models |
|---|---|
| `Graphs.dfy`, `DependencyInjection.dfy` | the dependency injection container: recursive resolution as a cycle detector |
| `Heaps.dfy`, `PriorityQueues.dfy` | the array heap, the plain priority queue and the bounded one with aging |
| `LoadBalancer.dfy` | the smooth weighted round robin strategy |
| `DagEngine.dfy` | the DAG execution engine as interleaved coroutines, and the retry loop of a chunk |
| `XorMetric.dfy`, `Sequences.dfy`, `Sorting.dfy`, `Kademlia.dfy` | the routing table and the closest-peer search |
| `Utf8.dfy`, `Serializer.dfy` | the binary format: encoder, decoder, and UTF-8 as in section 3 of RFC 3629 |
| `ConnectionPool.dfy` | the connection pool under any interleaving of threads |
| `DistributedLock.dfy` | TTL locks: the in-memory backend, its clients, and the record of all grants |
| `Bandwidth.dfy` | token buckets and the bandwidth manager |
| `Caching.dfy` | the LRU store with memory accounting, and the tagged cache over it |
| `MessageQueue.dfy` | the topic queues and the table of unacknowledged messages |
| `PartLists.dfy`, `Dealing.dfy`, `KeyPartitioning.dfy`, `RangePartitioning.dfy`, `Chunking.dfy`, `Merging.dfy` | the five partitioners, the chunkers, and the default merging of results |
| `Wrappers.dfy` | the optional value that the modules share |

Each component is a module. What an operation computes is a function (or a step relation) on
values; the source's objects are classes whose methods are proved to do exactly what that function
says to their fields; and the properties are lemmas about single steps and about whole runs of the
function. A run is a sequence of states and actions, or a sequence of calls applied from the start.

Conventions. The clock is a parameter that never runs backwards; where the code reads it twice in
one operation, so does the model. Floating-point numbers are reals, except in the serializer, where
a float is its 64-bit pattern, and in the load balancer, where the code truncates to integers.
Hashes, key functions, constructors, validators and chunk code are parameters. A Python exception
is a result value. An ordered dictionary is a sequence whose keys are distinct.

## Where the code does not do what it seems to promise

The code is modelled as it is. Each of these is proved at a concrete input, from a fresh start where it
is about a run, and with the exact condition for all inputs.

- A healthy node does not guarantee a selection: `LoadBalancer.HealthyNodeRefused`, exact in
  `RefusalCondition`; `BoundedRefusal` bounds the consecutive refusals.
- A dictionary with a tuple for a key can be serialized but not deserialized:
  `Serializer.Codec.TupleKeyLost`, exact in `RoundTrip`.
- A lock that merely ran out of time is still reported as released, not expired:
  `DistributedLock.ExpiredYetReleased`, exact in `ReleaseOutcome`.
- Overwriting a cache key that is itself evicted to make room takes its size off the memory account
  twice: `Caching.AccountDrifts`, exact in `PutDrift` for one set and `AccountExact` for a run.
- Invalidating a tag can remove an entry that does not carry it: `Caching.StaleTagRemoves`, exact in
  `InvalidationRemoves`.
- The queue's size limit does not bound the messages that wait: `MessageQueue.WaitingUnbounded`. It does
  as long as no waiting message is acknowledged or its id published again: `SoundIffNotEarly` is exact
  for one action, `SoundRun` for a run, and `WaitingBounded` draws the conclusion.
- Published minus acknowledged messages need not be the outstanding ones:
  `MessageQueue.ReusedIdUnbalances`, exact in `BalancedIffUnique`.
- The list chunker raises on a chunk size of zero where the iterable one silently returns nothing,
  and both lose everything on a negative size: `Chunking.ChunkersLose`, exact in `ChunkersAgree` and
  `ChunksCover`.
- Merging reports success although a chunk is missing: `Merging.MissingChunkMerges`, exact in
  `MergeIsMap` and `MergeIsMapOfTable`.
- A send that its connection refuses still spends the direction's tokens: `Bandwidth.RefusedYetCharged`,
  exact in `SendSpends` for one send and `ChargedIffSent` for a run. The configured bytes per second are
  not consulted; the limit is the bucket size plus the refill rate.
- A get can miss a key that was set, not ended and not expired, even without any lack of room: overwriting a
  stored key in a full cache evicts the oldest entry. `Caching.OverwriteEvicts`, exact in `MissIff`.
- A task with a missing or cyclic dependency is polled for ever: `DagEngine.SelfDependentNeverEnds`,
  exact in `EndsIff`.

## Model

| member | source | states |
|---|---|---|
| Graphs.BoundedThroughCut | legacy/di/__init__.py:187-218 | depth bounds found in a graph with the cached types cut out carry over to the graph before they were cached |
| Graphs.LassoIsCycle | legacy/di/__init__.py:187-194 | with nothing blocked, running into a type already on the path is the same as reaching a cycle |
| DependencyInjection.CircularIffCycleReachable | legacy/di/__init__.py:166-218 | with total constructors, a top-level resolve raises the circular-dependency error exactly when a cycle is reachable through registered, uncached, factory-less types, and succeeds exactly otherwise |
| DependencyInjection.CircularIffLasso | legacy/di/__init__.py:166-218 | the same inside a resolution, relative to the types being resolved |
| DependencyInjection.OutcomeSound | legacy/di/__init__.py:166-218 | even when constructors raise: an object only without a reachable cycle, a circular error only with one, and the type it names lies on it |
| DependencyInjection.ResolveDetects | legacy/di/__init__.py:166-218 | resolving walks a lasso or bounds the depth of everything it resolved and cached |
| DependencyInjection.ResolveKeeps | legacy/di/__init__.py:178-206 | what a resolve keeps: caches only grow, cached types are returned unchanged, singletons and scoped objects end up cached, a not-registered error only for the type asked for, and a raised error is one a constructor raised |
| DependencyInjection.ResolveMakes | legacy/di/__init__.py:178-218 | the cached object, or one built for its type inside this call: a factory called once, or the registered class constructed with exactly the registered parameters, in which a singleton or scoped parameter is the object cached for it and a transient one was built in turn inside this call, the parameters in order; and the same of everything that the call newly caches, even if it fails |
| DependencyInjection.RunValid | legacy/di/__init__.py:116-240 | over any calls on a container, nothing stays marked as being resolved between calls, and no singleton is constructed twice until everything is cleared |
| DependencyInjection.SingletonStays | legacy/di/__init__.py:181-185 | a cached singleton is what every later resolution gives, until everything is cleared or another instance is registered for it |
| DependencyInjection.ResolveAfter | legacy/di/__init__.py:116-240 | what a resolve gives after each call: after a registration an object built from the new descriptor, unless one is cached; after a registered instance that instance; after a resolve the same object again unless it is transient; after clear_scoped a new scoped object and the old singleton; after clear_all the not-registered error |
| DependencyInjection.OthersUntouched | legacy/di/__init__.py:116-144 | registering leaves every other type as it was, and clear_scoped the registrations and singletons |
| DependencyInjection.Container.Resolve | legacy/di/__init__.py:166-206 | terminates on every registration graph, computes the resolution function, and restores the set of types being resolved on every exit |
| DependencyInjection.Container.CreateInstance | legacy/di/__init__.py:208-218 | the loop over the parameters computes the creation function, including what it leaves cached when it is aborted |
| DependencyInjection.ClassesMeans | legacy/di/__init__.py:148-164 | the dependencies are exactly the parameters hinted with a class, the return hint left out, each name once |
| DependencyInjection.ClassesInOrder | legacy/di/__init__.py:148-164 | they stand in the order of the hints |
| DependencyInjection.Container.AnalyzeDependencies | legacy/di/__init__.py:148-164 | the loop over the type hints; none when the hints cannot be had |
| DependencyInjection.Container.Register | legacy/di/__init__.py:126-144 | registers the descriptor with the analysed dependencies and touches no cache |
| DependencyInjection.Container.RegisterInstance | legacy/di/__init__.py:116-124 | replaces both the registration and the cached singleton |
| DependencyInjection.Container.ClearScoped | legacy/di/__init__.py:231-233 | empties the scoped cache only |
| DependencyInjection.Container.ClearAll | legacy/di/__init__.py:235-239 | empties registrations and caches |
| Heaps.RootIsLeast | legacy/priority_queue/__init__.py:20-27 | in a heap nothing precedes the root in (priority, sequence) order |
| Heaps.Push | legacy/priority_queue/__init__.py:61-62 | pushing keeps the heap order and adds exactly the entry |
| Heaps.Pop | legacy/priority_queue/__init__.py:105-106 | popping keeps the heap order and removes exactly one entry that nothing precedes |
| Heaps.Heapify | legacy/priority_queue/__init__.py:206 | heapify makes any list a heap of the same entries |
| PriorityQueues.AgedIsServed | legacy/priority_queue/__init__.py:154-206 | an item put with priority p at time t is handed out, this very item, at the latest by the maxsize-th get after an aging at or after t + (p - least) / factor, whatever later puts of priority at least `least` arrive, and none of those is handed out before it |
| PriorityQueues.NoStarvation | legacy/priority_queue/__init__.py:154-206 | an item put with priority p at time t is handed out, this very item, at the latest by the maxsize-th get after any operation at or after t + (p - least) / factor + interval, whatever later puts of priority at least `least` arrive, and none of those is handed out before it |
| PriorityQueues.AgedEnds | legacy/priority_queue/__init__.py:154-206 | the first of these for every aging function that takes more from older items |
| PriorityQueues.WaitingEnds | legacy/priority_queue/__init__.py:154-206 | the second of these for every such aging function |
| PriorityQueues.SettledLeaves | legacy/priority_queue/__init__.py:179-191 | once no later put can precede an item, each get hands out an older entry until the item leaves |
| PriorityQueues.OlderAgesMore | legacy/priority_queue/__init__.py:202-204 | aging never inverts an older item that already precedes a newer one |
| PriorityQueues.DeadlineSettles | legacy/priority_queue/__init__.py:193-206 | from the deadline on an item's priority is at most what any later put can have |
| PriorityQueues.StepKeepsOrdered | legacy/priority_queue/__init__.py:154-206 | numbers identify entries and follow the enqueue times |
| PriorityQueues.StepKeepsFits | legacy/priority_queue/__init__.py:160-162 | the size limit holds after every operation |
| PriorityQueues.AcceptedEntry | legacy/priority_queue/__init__.py:160-173 | a put is accepted exactly below the size limit, and queues just its item, priority and stamp under the next number |
| PriorityQueues.ItemComesBack | legacy/priority_queue/__init__.py:154-191 | over a run, whatever is handed out under the number an accepted put was given is the item that was put |
| PriorityQueues.NumberIsOfPut | legacy/priority_queue/__init__.py:164-173 | every number handed out since the start of a run was given to one accepted put |
| PriorityQueues.HandedOutOnce | legacy/priority_queue/__init__.py:179-191 | no entry is handed out twice |
| PriorityQueues.AgingTakes | legacy/priority_queue/__init__.py:193-206 | an aging happens exactly once the interval has passed, and takes exactly age times factor off each priority |
| PriorityQueues.PriorityIs | legacy/priority_queue/__init__.py:193-206 | over a run, a queued item has the priority it was put with, less exactly what the agings since have taken |
| PriorityQueues.LeastMeans | legacy/priority_queue/__init__.py:20-27 | the entry a get takes has the lowest priority value, and the lowest number among equals |
| PriorityQueues.BoundedPriorityQueue.Put | legacy/priority_queue/__init__.py:154-177 | one put step of the queue machine; refused exactly when full, and then counted as dropped |
| PriorityQueues.BoundedPriorityQueue.Enqueue | legacy/priority_queue/__init__.py:164-175 | numbers the item, stamps it and pushes it |
| PriorityQueues.BoundedPriorityQueue.Get | legacy/priority_queue/__init__.py:179-191 | one get step: the least (priority, sequence) entry after aging |
| PriorityQueues.BoundedPriorityQueue.ApplyAging | legacy/priority_queue/__init__.py:193-206 | ages every queued entry once the interval has passed, and restores the heap |
| PriorityQueues.PriorityQueue.PutNowait | legacy/priority_queue/__init__.py:69-83 | accepted unless a positive limit is reached; numbered by the sequence |
| PriorityQueues.PriorityQueue.GetNowait | legacy/priority_queue/__init__.py:100-106 | the least entry, or nothing exactly when empty |
| LoadBalancer.ExactFairness | legacy/load_balancer/__init__.py:107-130 | from reset with fixed healthy nodes of total scaled weight W >= 1, every window of W selects, aligned or not, picks each node exactly its scaled weight |
| LoadBalancer.FairToNodes | legacy/load_balancer/__init__.py:107-130 | the same for all nodes given to select: of any W consecutive selects, W being the total scaled weight of the healthy nodes, each healthy node gets exactly its scaled weight and every other node none |
| LoadBalancer.NodeView | legacy/load_balancer/__init__.py:108-130 | a select among the candidates is a select among the nodes: it raises the healthy ones by their scaled weight and lowers the one picked by their total |
| LoadBalancer.HealthyIs | legacy/load_balancer/__init__.py:108 | the candidates are all the healthy nodes, as often as they occur and in their order |
| LoadBalancer.ScaledMeans | legacy/load_balancer/__init__.py:121 | the scaled weight is ten times the weight, cut off toward zero, also for negative weights |
| LoadBalancer.FixedRunBalanced | legacy/load_balancer/__init__.py:107-130 | in such a run every select returns a node, the credits sum to zero and none falls below 1 - W |
| LoadBalancer.FirstPeriod | legacy/load_balancer/__init__.py:107-130 | after W selects all credits are back at zero |
| LoadBalancer.CreditBalance | legacy/load_balancer/__init__.py:120-128 | a node's credit is what it gained less W for every time it was picked |
| LoadBalancer.SelectTotal | legacy/load_balancer/__init__.py:120-128 | a select that picks leaves the stored total alone, one that refuses adds the total weight |
| LoadBalancer.BoundedRefusal | legacy/load_balancer/__init__.py:107-130 | under arbitrary health changes, while a node of weight w stays healthy at most (B - 1) / w selects in a row return nothing, where B bounds the healthy weight |
| LoadBalancer.CreditFloor | legacy/load_balancer/__init__.py:107-130 | under arbitrary health changes no credit falls below 1 - B |
| LoadBalancer.StoredNeverDecreases | legacy/load_balancer/__init__.py:107-130 | the total of all stored credits never decreases |
| LoadBalancer.RefusalCondition | legacy/load_balancer/__init__.py:117-130 | a node is returned exactly when some healthy node's stored credit exceeds minus its weight |
| LoadBalancer.HealthyNodeRefused | legacy/load_balancer/__init__.py:117-130 | a health change after one pick makes a select return nothing although a node is healthy |
| LoadBalancer.WeightedRoundRobinStrategy.Select | legacy/load_balancer/__init__.py:107-130 | raises the credit of every healthy node, picks the first largest positive one and lowers it by the total weight; returns the node at the index picked |
| LoadBalancer.WeightedRoundRobinStrategy.Reset | legacy/load_balancer/__init__.py:132-134 | forgets all credits |
| DagEngine.StepKeepsInv | legacy/distributed_task_v2/dag_engine.py:267-339 | every atomic step keeps: completed_stages is the set of completed stages, started stages have all dependencies completed, no stage is spawned or started twice, completions are in topological order |
| DagEngine.RunInv | legacy/distributed_task_v2/dag_engine.py:267-339 | the invariant holds in every reachable state |
| DagEngine.RunAdvances | legacy/distributed_task_v2/dag_engine.py:308-339 | statuses only go from pending to running to completed or failed; starts and completions are never undone |
| DagEngine.StartedAfterAncestors | legacy/distributed_task_v2/dag_engine.py:100-102 | everything a started stage depends on, however remotely, is completed |
| DagEngine.NeverStartedTooEarly | legacy/distributed_task_v2/dag_engine.py:267-339 | no stage that transitively depends on an unfinished or failed stage has ever started |
| DagEngine.SomeStageReady | legacy/distributed_task_v2/dag_engine.py:276-299 | on acyclic tasks, with nothing running or failed and something unfinished, some stage is ready |
| DagEngine.PollerNeverStuck | legacy/distributed_task_v2/dag_engine.py:276-299 | when nothing is running, the next poll ends the task or starts a stage |
| DagEngine.BoundedProgress | legacy/distributed_task_v2/dag_engine.py:267-339 | a run over n stages makes at most 3n + 1 productive steps |
| DagEngine.TrueOnlyWhenAllCompleted | legacy/distributed_task_v2/dag_engine.py:280-286 | True is returned only when all stages completed, in topological order, and then the task was acyclic and closed |
| DagEngine.WellFormedEnds | legacy/distributed_task_v2/dag_engine.py:267-299 | if every spawned stage starts and every started stage ends, execute_task ends on every acyclic task whose dependencies exist |
| DagEngine.EndsIff | legacy/distributed_task_v2/dag_engine.py:267-299 | for distinct stage ids and every such endless run: execute_task ends if and only if the task is acyclic and closed or a stage fails |
| DagEngine.FairRunExists | legacy/distributed_task_v2/dag_engine.py:267-339 | every task has such a run, in which no stage fails |
| DagEngine.SelfDependentNeverEnds | legacy/distributed_task_v2/dag_engine.py:277-294 | a task whose one stage depends on itself never ends and never fails |
| DagEngine.IllFormedNeverEnds | legacy/distributed_task_v2/dag_engine.py:280-294 | a task with a missing or cyclic dependency has not ended as long as no stage has failed |
| DagEngine.ReadyStages | legacy/distributed_task_v2/dag_engine.py:147-153 | exactly the pending stages whose dependencies are all completed, each once |
| DagEngine.PollMeans | legacy/distributed_task_v2/dag_engine.py:276-299 | a poll spawns exactly the stages that have not started and whose every dependency is the id of a completed stage, in order; only when there is none does it end the task, with True if all stages are completed, else with False if one has failed |
| DagEngine.ReturnMeans | legacy/distributed_task_v2/dag_engine.py:276-299 | over a run, execute_task has returned True or False exactly if some poll found nothing startable and all stages completed, or not all completed and some failed |
| DagEngine.StatusMeans | legacy/distributed_task_v2/dag_engine.py:308-339 | over a run, a stage is completed or failed exactly if it ended so, running exactly if it was started and has not ended, else pending |
| DagEngine.SpawnOrder | legacy/distributed_task_v2/dag_engine.py:267-339 | only polls spawn, and stages start in the order they were spawned in |
| DagEngine.DAGExecutionEngine.PollOnce | legacy/distributed_task_v2/dag_engine.py:277-299 | one pass of the polling loop is the poll step |
| DagEngine.DAGExecutionEngine.WakeUp | legacy/distributed_task_v2/dag_engine.py:293-299 | the poller wakes only after the coroutines it spawned have started |
| DagEngine.DAGExecutionEngine.StartNext | legacy/distributed_task_v2/dag_engine.py:308-311 | a spawned coroutine marks its stage running before the poller wakes |
| DagEngine.DAGExecutionEngine.FinishStage | legacy/distributed_task_v2/dag_engine.py:326-335 | the stage completes exactly when no chunk failed |
| DagEngine.TaskChunk.Attempt | legacy/distributed_task_v2/dag_engine.py:356-375 | submits the chunk and asks until it is no longer running; succeeds exactly when the first such answer is a completion |
| DagEngine.TaskChunk.Execute | legacy/distributed_task_v2/dag_engine.py:341-390 | succeeds exactly when one of the first max_retries + 1 attempts does, or at once without a scheduler; counts the failed attempts before it |
| XorMetric.XorBits | legacy/p2p_network/__init__.py:148-149 | digit i of the distance is one exactly when the digits i of the two ids differ |
| XorMetric.XorHigherTop | legacy/p2p_network/__init__.py:148-155 | in a distance the larger top bit survives |
| XorMetric.XorSameTop | legacy/p2p_network/__init__.py:148-155 | equal top bits cancel |
| Kademlia.BucketIndexMeans | legacy/p2p_network/__init__.py:151-155 | bucket i holds exactly the distances from 2^i to 2^(i+1), bucket 0 also distance 0 |
| Kademlia.BucketsInOrder | legacy/p2p_network/__init__.py:148-155 | the target's own bucket is strictly closer than all lower buckets, those strictly closer than each higher bucket, and these are ordered |
| Kademlia.GeometricSearchIsFullScan | legacy/p2p_network/__init__.py:199-209 | visiting the buckets in that order and stopping when enough peers are found gives, distance for distance, the result of the full scan, for every target |
| Kademlia.ClosestMeans | legacy/p2p_network/__init__.py:199-209 | the first count peers, or all, in order of the exclusive-or of target and peer id; a negative count leaves out that many; together with the rest they are the table, and none of the rest is closer |
| Kademlia.LookupIsScan | legacy/p2p_network/__init__.py:193-197 | looking in the one bucket finds an id exactly when a scan of the whole table does |
| Kademlia.AllDistinct | legacy/p2p_network/__init__.py:160-191 | every peer occurs once in the whole table |
| Kademlia.AddedOk | legacy/p2p_network/__init__.py:165-181 | an add keeps the bucket invariant, gives up at most an offline oldest peer of a full bucket, and is refused exactly when there is none |
| Kademlia.AddedMeans | legacy/p2p_network/__init__.py:165-181 | a known peer moves to the end as it was stored, a new one is appended, and a full bucket gives up its first peer for it if that is offline |
| Kademlia.WithoutMeans | legacy/p2p_network/__init__.py:183-191 | a removal takes the peer with the id out and keeps the order of the others |
| Kademlia.OldestFirst | legacy/p2p_network/__init__.py:160-191 | over any adds, removals and state changes a bucket lists its peers from the least to the most recently added, so that the one given up is the one added longest ago |
| Kademlia.MemberWasAdded | legacy/p2p_network/__init__.py:160-191 | over such a run every peer in a bucket was added and not refused |
| Kademlia.WithStateMeans | legacy/p2p_network/__init__.py:165-181 | a peer whose state is changed from outside keeps its place, and nothing else changes |
| Kademlia.KademliaDHT.AddPeer | legacy/p2p_network/__init__.py:160-181 | keeps the table invariant and changes only the peer's bucket |
| Kademlia.KademliaDHT.RemovePeer | legacy/p2p_network/__init__.py:183-191 | keeps the table invariant; reports whether the table held the id |
| Kademlia.KademliaDHT.GetPeer | legacy/p2p_network/__init__.py:193-197 | succeeds exactly when the table holds the id |
| Kademlia.KademliaDHT.GetAllPeers | legacy/p2p_network/__init__.py:226-230 | all buckets one after the other |
| Kademlia.KademliaDHT.FindClosestPeers | legacy/p2p_network/__init__.py:199-209 | the scan, sorted by distance and cut after count, negative counts included |
| Utf8.DecodeEncoded | serializer/__init__.py:231-233 | UTF-8 encoding succeeds exactly on surrogate-free text, and strict decoding undoes it |
| Utf8.EncodeDecoded | serializer/__init__.py:275-279 | every byte string that strict decoding accepts is the one encoding of its text |
| Utf8.ScalarBytes | serializer/__init__.py:231-233 | the bytes of each code point as in the table of section 3 of RFC 3629 |
| Utf8.Rfc3629Examples | serializer/__init__.py:231-233 | two of the examples of section 7 of RFC 3629 |
| Serializer.Codec.RoundTrip | serializer/__init__.py:218-306 | decoding an encoded value at any offset, whatever follows, gives the value (tuples as lists) and the exact end, if and only if no dictionary in it has a tuple for a key |
| Serializer.Format | serializer/__init__.py:199-249 | which bytes a value becomes: the first byte 0 to 7 of its type, then four zero bytes, a boolean as 0 or 1, an integer in two's complement, a float as its pattern, or a big-endian count and the UTF-8 text, the bytes, the items or the keys and values in turn |
| Serializer.Codec.BytesRead | serializer/__init__.py:256-306 | what arbitrary bytes decode to for each first byte 0 to 7 and any other, with every error |
| Serializer.Codec.ListReads | serializer/__init__.py:287-294 | after its count the items of a list are read one after the other up to the first failure |
| Serializer.Codec.DictReads | serializer/__init__.py:296-304 | after its count the entries of a dictionary are read and stored in turn up to the first failure |
| Serializer.Codec.SetItemStores | serializer/__init__.py:296-304 | an equal key keeps its place and gets the new value, a new one goes to the end, and a list or dictionary cannot be a key |
| Serializer.Codec.OneLetter | serializer/__init__.py:231-236 | the text "a" and the byte string b"a" as bytes, both ways |
| Serializer.Codec.DecodesAt | serializer/__init__.py:256-306 | the same wherever the encoding lies in the data |
| Serializer.Codec.TupleKeyLost | serializer/__init__.py:242-247 | a dictionary keyed by a tuple can be encoded but not decoded |
| Serializer.Codec.PrefixFree | serializer/__init__.py:218-249 | the encoding is injective up to tuples and lists, and prefix-free |
| Serializer.Codec.CallsBounded | serializer/__init__.py:256-306 | on arbitrary bytes, whatever counts and lengths they claim: the decoder is entered at most once for every byte up to where a success ends, and at most once for every byte left and once more if it fails |
| Serializer.Codec.ItemCallsBounded | serializer/__init__.py:287-294 | a list decodes only if a byte is left for every item it claims; the calls of its loop are bounded either way |
| Serializer.Codec.EntryCallsBounded | serializer/__init__.py:296-304 | the same for a dictionary, with two bytes for every entry, also for entries that are overwritten |
| Serializer.Codec.ForgedCount | serializer/__init__.py:287-294 | a list that claims 2^32 - 1 items and holds none fails after two calls |
| Serializer.Codec.NodesBounded | serializer/__init__.py:256-306 | a decoded value has no more nodes than the bytes it was read from |
| Serializer.Codec.DecodeAt | serializer/__init__.py:256-306 | decoding terminates on arbitrary bytes, and each success starts inside the data and ends strictly later |
| Serializer.EncodesExactly | serializer/__init__.py:218-249 | encoding succeeds exactly on 64-bit integers, surrogate-free strings, supported types and lengths below 2^32 |
| Serializer.EncodingErrors | serializer/__init__.py:218-249 | which error stops an encoding: the one of its type, or that of the first item, key or value that fails, which comes before the length is looked at |
| Serializer.UnpackPack | serializer/__init__.py:225-236 | big-endian fields read back what was written |
| Serializer.BinarySerializer.Serialize | serializer/__init__.py:214-249 | the encoding, or the error that stops it |
| Serializer.BinarySerializer.Deserialize | serializer/__init__.py:251-254 | what decoding from the start gives, trailing bytes ignored, after at most one call for every byte and once more |
| Serializer.BinarySerializer.SerializeDict | serializer/__init__.py:242-247 | the accumulating loop computes the dictionary encoding, and fails on the first part that fails |
| Serializer.BinarySerializer.DecodeValue | serializer/__init__.py:256-306 | the offset-threading decoder computes the decoding function, and is entered as often as the count of calls says |
| Serializer.BinarySerializer.DecodeList | serializer/__init__.py:287-294 | the list loop, for any count |
| Serializer.BinarySerializer.DecodeDict | serializer/__init__.py:296-304 | the dictionary loop: equal keys overwrite in place, unhashable keys raise |
| ConnectionPool.StepKeepsInv | legacy/connection_pool/__init__.py:161-275 | every atomic step of any thread keeps each connection in exactly one place and the counters consistent |
| ConnectionPool.PoolSafe | legacy/connection_pool/__init__.py:194-275 | in every interleaving: the pool never exceeds the larger of the size limit and the initial fill, created minus destroyed is the size, no connection has two borrowers, and idle, borrowed and in-transit add up to the pool |
| ConnectionPool.NeverFull | legacy/connection_pool/__init__.py:267-273 | the queue.Full branch of release is unreachable |
| ConnectionPool.ConnectionPool.Acquire | legacy/connection_pool/__init__.py:194-235 | without interference: the first valid idle connection, else a new one or the factory's error when the pool less the destroyed ones has room, else a timeout; errors are counted |
| ConnectionPool.ConnectionPool.TakeValid | legacy/connection_pool/__init__.py:201-222 | takes idle connections until one is valid, and destroys exactly the invalid ones before it |
| ConnectionPool.ConnectionPool.TakeOne | legacy/connection_pool/__init__.py:203-222 | takes the oldest idle connection, and hands it out if it is valid or destroys it |
| ConnectionPool.ConnectionPool.GetIdle | legacy/connection_pool/__init__.py:203 | the oldest idle connection leaves the queue for validation |
| ConnectionPool.ConnectionPool.HandOut | legacy/connection_pool/__init__.py:205-220 | a validated connection becomes its borrower's, and is counted |
| ConnectionPool.ConnectionPool.CreateUnderLock | legacy/connection_pool/__init__.py:225-232 | the size check and the creation are one step; a factory that raises is counted and creates nothing |
| ConnectionPool.ConnectionPool.Discard | legacy/connection_pool/__init__.py:173-180 | a connection that fails validation leaves the pool |
| ConnectionPool.ConnectionPool.Release | legacy/connection_pool/__init__.py:258-275 | a valid connection goes to the end of the queue, an invalid one leaves the pool |
| ConnectionPool.ConnectionPool.Drain | legacy/connection_pool/__init__.py:320-330 | empties the queue, destroys exactly what it held, and leaves the borrowed ones |
| DistributedLock.TenuresDisjoint | legacy/distributed_lock/__init__.py:96-151 | over every run, of two grants of one resource the earlier is over, released or expired with all extensions, when the later starts |
| DistributedLock.TenureStarts | legacy/distributed_lock/__init__.py:107-126 | a grant is recorded from when it is made up to the end of its TTL, without an end if it has none |
| DistributedLock.TenureChanges | legacy/distributed_lock/__init__.py:135-151 | the end becomes the time of a release before it, or what a successful extension says; nothing else changes it |
| DistributedLock.StepKeepsInv | legacy/distributed_lock/__init__.py:96-151 | every step keeps: a stored lock is the latest grant of its resource, and a held lock is stored unless its resource was granted again |
| DistributedLock.NeverRevived | legacy/distributed_lock/__init__.py:143-151 | a released, overwritten or expired lock stays dead; every later extension of it fails |
| DistributedLock.AcquireAnswers | legacy/distributed_lock/__init__.py:107-133 | a pass is granted exactly when nothing is stored for the resource or what is stored expired before the check; else it fails without patience, times out once its patience is over, and waits otherwise |
| DistributedLock.RegrantedAfterTtl | legacy/distributed_lock/__init__.py:107-126 | a lock granted at t with a TTL of d, and not disturbed, keeps every other acquirer out up to t + d and none after; one without a TTL, or with zero, keeps them out for good |
| DistributedLock.RegrantedAfterExtension | legacy/distributed_lock/__init__.py:143-151 | the same for an extension by d at t |
| DistributedLock.ExtendStamps | legacy/distributed_lock/__init__.py:143-151 | exactly the owner of an unexpired lock can extend it, to now plus the seconds given |
| DistributedLock.ReleaseOutcome | legacy/distributed_lock/__init__.py:368-378 | releasing a held lock reports EXPIRED exactly when its resource was granted again, and FAILED exactly when it is not held |
| DistributedLock.ExpiredYetReleased | legacy/distributed_lock/__init__.py:135-141 | from the start: a lock of one second released after five reports RELEASED |
| DistributedLock.StepLocks | legacy/distributed_lock/__init__.py:96-151 | the system's steps do to the stored locks what the backend's methods do |
| DistributedLock.MemoryLockBackend.TryAcquire | legacy/distributed_lock/__init__.py:107-133 | a pass grants exactly when the resource is free or its lock expired; else it gives up without a timeout or after it, and otherwise waits for the retry interval or what is left; a TTL of zero means no expiry |
| DistributedLock.MemoryLockBackend.Release | legacy/distributed_lock/__init__.py:135-141 | removes exactly the lock with this id and owner, whatever the order of the scan |
| DistributedLock.MemoryLockBackend.Extend | legacy/distributed_lock/__init__.py:143-151 | restamps exactly the lock with this id and owner, unless it has expired |
| DistributedLock.MemoryLockBackend.GetLock | legacy/distributed_lock/__init__.py:153-158 | the lock of a resource, unless it has expired |
| DistributedLock.DistributedLock.Acquire | legacy/distributed_lock/__init__.py:346-366 | a granted lock is held under its id; else FAILED without a timeout, TIMEOUT after it; a TTL of zero asks for the default |
| DistributedLock.DistributedLock.Release | legacy/distributed_lock/__init__.py:368-378 | the lock is no longer held, and the outcome is FAILED, RELEASED or EXPIRED |
| DistributedLock.DistributedLock.Extend | legacy/distributed_lock/__init__.py:380-381 | what the backend answers for this owner |
| Bandwidth.GrantedIffConforming | legacy/p2p_network/bandwidth.py:49-62 | a request is granted exactly when every window ending with it stays within capacity plus rate times its length, and the whole run within the initial tokens plus what flowed in |
| Bandwidth.LevelIsLeastAllowance | legacy/p2p_network/bandwidth.py:49-62 | the tokens are exactly the tightest of all these allowances |
| Bandwidth.WindowBound | legacy/p2p_network/bandwidth.py:49-62 | over any window at most capacity + rate * elapsed is granted |
| Bandwidth.TokensInRange | legacy/p2p_network/bandwidth.py:49-62 | the tokens stay between zero and the capacity |
| Bandwidth.LevelMeans | legacy/p2p_network/bandwidth.py:49-54 | a call finds the tokens left after the last one plus the refill rate times the time since, but no more than the capacity |
| Bandwidth.WaitIsExact | legacy/p2p_network/bandwidth.py:64-70 | after exactly the answered time the request is granted if and only if it is within the capacity; earlier it is not, and beyond the capacity it never is |
| Bandwidth.WaitAnswers | legacy/p2p_network/bandwidth.py:64-70 | nothing to wait for exactly when the tokens suffice; else the missing tokens divided by the rate, raising exactly for a zero rate |
| Bandwidth.MeterBound | legacy/p2p_network/bandwidth.py:131-169 | in any stretch of a run, bytes sent, bytes received, and bytes sent plus received on a connection that stays registered are within the capacity plus what flows in |
| Bandwidth.PassedIsPaid | legacy/p2p_network/bandwidth.py:131-169 | whatever any action lets through is taken from each bucket that meters it |
| Bandwidth.StepKeepsInv | legacy/p2p_network/bandwidth.py:131-169 | all buckets stay in range, whatever is registered, unregistered, sent or received |
| Bandwidth.SendSpends | legacy/p2p_network/bandwidth.py:148-158 | a send passes exactly when both buckets have the tokens, and spends tokens without passing exactly when the direction has them and the connection has not |
| Bandwidth.ReceiveSpends | legacy/p2p_network/bandwidth.py:160-169 | the same for a receive, with the download bucket |
| Bandwidth.RegistrationMeans | legacy/p2p_network/bandwidth.py:131-146 | a registration is refused exactly at the limit and otherwise gives the connection an empty bucket of the configured size and rate; an unregistered connection is not metered; neither touches anything else |
| Bandwidth.ChargedIffSent | legacy/p2p_network/bandwidth.py:148-158 | over a run, the upload tokens charged are at least the bytes sent, and equal exactly when no send was refused by its connection |
| Bandwidth.RefusedYetCharged | legacy/p2p_network/bandwidth.py:148-158 | from the start: a connection with a small bucket refuses 20 bytes that cost the direction 20 of its 50 tokens |
| Bandwidth.TokenBucket.Refill | legacy/p2p_network/bandwidth.py:49-54 | adds what flowed in, clipped at the capacity |
| Bandwidth.TokenBucket.Consume | legacy/p2p_network/bandwidth.py:56-62 | the bucket function, on the object |
| Bandwidth.TokenBucket.GetWaitTime | legacy/p2p_network/bandwidth.py:64-70 | the waiting time, or the division by a zero rate |
| Bandwidth.BandwidthManager.RegisterConnection | legacy/p2p_network/bandwidth.py:131-141 | refused exactly at the connection limit; otherwise a new, empty bucket, also for a known id |
| Bandwidth.BandwidthManager.UnregisterConnection | legacy/p2p_network/bandwidth.py:143-146 | forgets the connection's bucket |
| Bandwidth.BandwidthManager.CanSend | legacy/p2p_network/bandwidth.py:148-158 | one send step over bucket objects that no two connections share |
| Bandwidth.BandwidthManager.CanReceive | legacy/p2p_network/bandwidth.py:160-169 | one receive step |
| Caching.HitIsLatest | legacy/cache/__init__.py:80-118 | over any run, a hit returns the very value of the latest set of that key, whose lifetime is not over, and which was neither deleted, cleared nor invalidated since |
| Caching.HitIff | legacy/cache/__init__.py:80-118 | over any run, a get hits, with the value of some set of the key, if and only if the lifetime of that set is not over and no later action has lost its entry, each kind of loss being spelled out |
| Caching.EntryMeans | legacy/cache/__init__.py:287-307 | a set stores its key, value, tags and size; it expires just after the lifetime given or configured has passed since the set, and never if that is zero or none |
| Caching.MissIff | legacy/cache/__init__.py:80-118 | with a clock that does not run backwards: a key that was set, not ended and not expired is missed if and only if a set in between found no room even with all older entries gone, or a tag that lists the key without its entry carrying it was invalidated |
| Caching.Answers | legacy/cache/__init__.py:116-135 | exists, delete and get tell whether a stored entry of the key has not expired; clear and invalidation count the entries that go |
| Caching.StepPresence | legacy/cache/__init__.py:80-177 | after one action the cache holds what the action set, and what it held and does not lose |
| Caching.FullStoreEvicts | legacy/cache/__init__.py:104-110 | in a store at its limit every set of another key evicts the oldest entry, also one that overwrites a stored key |
| Caching.OverwriteEvicts | legacy/cache/__init__.py:99-113 | from the start: in a cache of size two, setting a, b and b again makes a miss |
| Caching.StepKeepsInv | legacy/cache/__init__.py:80-177 | every operation keeps: entries agree with a plain dictionary, every tag of an entry indexes its key, the order is that of the last uses, and the size and memory limits |
| Caching.SizeBounded | legacy/cache/__init__.py:97-114 | at most max(1, max_size) entries; the accounted memory is within the limit unless one entry is left; it never exceeds the real one |
| Caching.ShrinkIsLeast | legacy/cache/__init__.py:105-110 | eviction drops exactly the shortest prefix of the order after which there is room |
| Caching.LeastRecentlyUsedGoes | legacy/cache/__init__.py:105-110 | whatever a set evicts was used less recently than everything that stays |
| Caching.PutDrift | legacy/cache/__init__.py:97-114 | a set shifts the memory account exactly when it evicts the very entry it overwrites, by that entry's size |
| Caching.AccountExact | legacy/cache/__init__.py:97-164 | the memory account is exact if and only if no set has counted twice since the last clear |
| Caching.AccountDrifts | legacy/cache/__init__.py:99-113 | two sets of one key in a cache of size one leave a negative account |
| Caching.TagGone | legacy/cache/__init__.py:325-337 | after invalidating a tag no entry carries it; removed are exactly the entries listed under it, and they are counted |
| Caching.ListedMeans | legacy/cache/__init__.py:287-337 | over a run, a tag lists exactly the keys set with it and not taken off since by a clear, an invalidation of the tag or a delete that found them carrying it |
| Caching.InvalidationRemoves | legacy/cache/__init__.py:325-337 | over a run, invalidating a tag removes an entry if and only if its key is listed in that sense |
| Caching.StaleTagRemoves | legacy/cache/__init__.py:325-337 | from the start: a key set with a tag, then without it, is removed with the tag |
| Caching.DeleteKeepsInv | legacy/cache/__init__.py:309-316 | a delete, which looks the key up first, comes to dropping the key |
| Caching.MemoryCacheBackend.Get | legacy/cache/__init__.py:80-95 | expired entries go, hits move to the end; hits and misses are counted |
| Caching.MemoryCacheBackend.Set | legacy/cache/__init__.py:97-114 | the put function, with its eviction loop |
| Caching.MemoryCacheBackend.MakeRoom | legacy/cache/__init__.py:105-110 | the eviction loop |
| Caching.MemoryCacheBackend.Delete | legacy/cache/__init__.py:116-118 | drops the key and its size; reports whether it was stored |
| Caching.MemoryCacheBackend.Evict | legacy/cache/__init__.py:159-164 | drops exactly this key and takes its size off the account |
| Caching.MemoryCacheBackend.EvictLru | legacy/cache/__init__.py:166-170 | drops the oldest entry, if there is one |
| Caching.MemoryCacheBackend.Exists | legacy/cache/__init__.py:120-128 | true exactly for stored, unexpired keys; expired ones go |
| Caching.MemoryCacheBackend.Clear | legacy/cache/__init__.py:130-135 | empties store and account; counts what it held |
| Caching.Cache.Get | legacy/cache/__init__.py:281-285 | one get step: the value found, or the default |
| Caching.Cache.Set | legacy/cache/__init__.py:287-307 | one set step: the default lifetime, no expiry for zero, and the key indexed under every tag |
| Caching.Cache.Delete | legacy/cache/__init__.py:309-316 | one delete step: the key leaves the index of its entry's tags |
| Caching.Cache.Exists | legacy/cache/__init__.py:318-319 | one exists step |
| Caching.Cache.InvalidateTag | legacy/cache/__init__.py:325-337 | one invalidation, in whatever order the keys come |
| Caching.Cache.Clear | legacy/cache/__init__.py:321-323 | one clear step |
| MessageQueue.FirstInFirstOut | legacy/message_queue/__init__.py:148-177 | in any run a topic's accepted messages are its consumed ones followed by its waiting ones, whatever the ids and acknowledgements |
| MessageQueue.DeliveredOnce | legacy/message_queue/__init__.py:163-177 | messages published once are delivered at most once, in order |
| MessageQueue.AnswersMean | legacy/message_queue/__init__.py:148-188 | over a run: a publish succeeds exactly below the size limit, a consumer gets the oldest accepted message of the topic not yet handed out and nothing exactly if there is none, an acknowledgement succeeds exactly if a message with the id is outstanding |
| MessageQueue.StepCounts | legacy/message_queue/__init__.py:148-188 | each success counts once in its own counter, and the number of topics is that at the last accepted publish |
| MessageQueue.StepTopics | legacy/message_queue/__init__.py:148-177 | a topic has a queue from its first accepted message or its first consumer on |
| MessageQueue.Conservation | legacy/message_queue/__init__.py:148-188 | published messages are acknowledged, outstanding or replaced; at most max_size are outstanding |
| MessageQueue.BalancedIffUnique | legacy/message_queue/__init__.py:148-188 | published minus acknowledged is what is outstanding exactly when no accepted message reused an outstanding id |
| MessageQueue.OutstandingMeans | legacy/message_queue/__init__.py:148-188 | a message is outstanding exactly when it is the latest accepted under its id and not acknowledged since |
| MessageQueue.ReusedIdUnbalances | legacy/message_queue/__init__.py:148-161 | two accepted messages under one id leave one outstanding |
| MessageQueue.SoundIffNotEarly | legacy/message_queue/__init__.py:148-188 | while waiting messages are outstanding under distinct ids, an action keeps that so if and only if it does not acknowledge a waiting id and is not accepted under one |
| MessageQueue.SoundRun | legacy/message_queue/__init__.py:148-188 | over a run that is so throughout if and only if there was no such action |
| MessageQueue.WaitingBounded | legacy/message_queue/__init__.py:148-188 | over a run without such an action at most max_size messages wait, under all topics together |
| MessageQueue.QueueBounded | legacy/message_queue/__init__.py:148-192 | so no topic's queue grows past max_size |
| MessageQueue.WaitingUnbounded | legacy/message_queue/__init__.py:148-188 | with such actions it does: n rounds of publish and acknowledge leave n messages waiting in a queue of size one |
| MessageQueue.MemoryQueueBackend.Publish | legacy/message_queue/__init__.py:148-161 | one publish step, with all counters |
| MessageQueue.MemoryQueueBackend.Consume | legacy/message_queue/__init__.py:163-177 | one consume step: the oldest waiting message, marked delivered; an unknown topic gets a queue |
| MessageQueue.MemoryQueueBackend.Acknowledge | legacy/message_queue/__init__.py:179-188 | one acknowledgement: only an outstanding message, marked and removed |
| MessageQueue.MemoryQueueBackend.GetPending | legacy/message_queue/__init__.py:190-192 | the waiting messages of a topic |
| Dealing.HashConserves | legacy/distributed_task_v2/__init__.py:205-214 | the parts hold every item once, and an item is in the part of its hash |
| Dealing.HashInOrder | legacy/distributed_task_v2/__init__.py:205-214 | part p lists, in order, the items whose hash modulo n is p |
| Dealing.HashPartition | legacy/distributed_task_v2/__init__.py:205-214 | the loop deals each item to the part of its hash, in order; raises for a count that is not positive unless there is nothing to deal |
| Dealing.RoundRobinIsEven | legacy/distributed_task_v2/__init__.py:277-284 | every item once; the first len % n parts hold one item more than the others |
| Dealing.TurnsInOrder | legacy/distributed_task_v2/__init__.py:277-284 | part p lists, in order, the items number p, p + n, p + 2n and so on |
| Dealing.RoundRobinPartition | legacy/distributed_task_v2/__init__.py:277-284 | the loop deals item i to part i % n |
| Dealing.SizeWithin | legacy/distributed_task_v2/__init__.py:256-266 | all parts hold t to 2t - 1 items if and only if t <= len <= 100 (2t - 1) |
| Dealing.SizeCountMeans | legacy/distributed_task_v2/__init__.py:256-266 | the number of parts is the floored quotient, but from one to a hundred; one for a negative target |
| Dealing.SizePartition | legacy/distributed_task_v2/__init__.py:256-266 | raises for a target of zero; else deals round robin into between 1 and 100 parts |
| Sorting.SortIsStable | legacy/distributed_task_v2/__init__.py:232 | sorting keeps the order of elements with equal keys |
| RangePartitioning.RangesOrdered | legacy/distributed_task_v2/__init__.py:228-242 | every item once, and no item of a later part has a smaller key than one of an earlier part |
| RangePartitioning.RangePartition | legacy/distributed_task_v2/__init__.py:228-242 | n parts that join to the sorted data, all but the last of len // n items; a negative count silently yields none |
| KeyPartitioning.KeyConserves | legacy/distributed_task_v2/__init__.py:298-314 | every item once, and two items with one key are in one part |
| KeyPartitioning.KeyOrderFirst | legacy/distributed_task_v2/__init__.py:299-305 | the keys stand in the order of their first occurrences |
| KeyPartitioning.GroupIs | legacy/distributed_task_v2/__init__.py:299-305 | each group holds, in order, the items with its key |
| KeyPartitioning.KeyPartIs | legacy/distributed_task_v2/__init__.py:307-314 | part p is made of the groups number p, p + n, p + 2n and so on, one behind the other |
| KeyPartitioning.GroupByKey | legacy/distributed_task_v2/__init__.py:299-305 | the dictionary of groups: each key that occurs, in order of first occurrence, with its items in order |
| KeyPartitioning.KeyPartition | legacy/distributed_task_v2/__init__.py:298-314 | groups by key in order of first occurrence, dealt out in turns |
| Chunking.ChunksBounded | legacy/distributed_task_v2/dag_engine.py:555-574 | for p >= 1 partitions the chunks join to the list and are at most 2p - 1; chunk k starts at k times len // p, or at k if there are more partitions than items, and goes up to the start of the next or the end |
| Chunking.SizeMeans | legacy/distributed_task_v2/dag_engine.py:558 | the chunk size is len // p if that is positive, and else one, also for a negative p |
| Chunking.SliceIs | legacy/distributed_task.py:242-243 | slice k holds the items from k * size on, up to (k + 1) * size or the end, and exists exactly if that is not empty |
| Chunking.SlicesCover | legacy/distributed_task.py:242-243 | slices join to the data, all but the last are full, none is empty |
| Chunking.CreateChunks | legacy/distributed_task_v2/dag_engine.py:555-574 | the chunks of a stage: slices of a list, one chunk for anything else, a division by zero for no partitions |
| Chunking.ChunkListData | legacy/distributed_task.py:236-256 | numbered slices; a zero size raises |
| Chunking.ChunkIterableData | legacy/distributed_task.py:281-312 | drawing items one by one gives the same numbered slices |
| Chunking.ChunksMean | legacy/distributed_task.py:236-312 | chunk k of either chunker carries the number k and the items from k * size on up to the next multiple or the end, with just enough chunks for all items |
| Chunking.ChunkersAgree | legacy/distributed_task.py:236-312 | the list and the iterable chunker agree exactly when the size is not zero |
| Chunking.ChunkersLose | legacy/distributed_task.py:236-312 | one item, with size 0 and with size -1 |
| Chunking.ChunksCover | legacy/distributed_task.py:281-312 | chunks join to the data exactly when the size is positive or there is no data |
| Merging.MergeIsMap | legacy/distributed_task.py:364-403 | chunking a list, applying f chunk by chunk and merging gives f of the whole list exactly when there is a chunk and every chunk completes |
| Merging.MissingChunkMerges | legacy/distributed_task.py:364-403 | two chunks of which the second failed merge to half of the list |
| Merging.MergeIsMapOfTable | legacy/distributed_task.py:364-403 | the same for a dictionary |
| Merging.MergedMeans | legacy/distributed_task.py:364-409 | a merge fails exactly if no completed chunk left a result or the merge code raises; otherwise it gives what the code leaves, and without code one text, list or dictionary exactly if all results are one, else the list of them |
| Merging.CollectedMeans | legacy/distributed_task.py:367-371 | the results are those of the completed chunks that left one, in the order of the chunks |
| Merging.LinesMean | legacy/distributed_task.py:392-393 | texts are joined by one line break between each two |
| Merging.ExtendedMeans | legacy/distributed_task.py:394-397 | lists are put one behind the other |
| Merging.UpdatedMeans | legacy/distributed_task.py:398-401 | the merged dictionary has the keys of all, each with its value in the last dictionary that has it |
| Merging.MergeChunkResults | legacy/distributed_task.py:364-409 | joins texts by lines, concatenates lists, updates dictionaries, else lists the results; with merge code, takes what it leaves, else the list; fails exactly when nothing completed or the code raises |
| Merging.ChunkDictData | legacy/distributed_task.py:258-279 | numbered dictionaries of the slices of the items |
| Merging.AsTableMeans | legacy/distributed_task.py:258-279 | the last of several items with one key counts |

## Left out

- User interfaces, launchers, HTTP clients, sockets, NAT traversal, Redis and file backends, SQL migration: I/O or foreign calls.
- JSON, MessagePack and pickle serializers: wrappers over libraries.
- Sandboxes and code validators: tied to Python's runtime.
- Gossip, peer storage, event bus, metrics, health aggregation, circuit breaker, configuration, the other balancing strategies, the multi-level queue: small claims that add little.
- `ReadWriteLock` and `Semaphore`: the reader counter is not stored, and a semaphore's release may look at another client's slot, so their claims do not hold.
- `cancel_task`, concurrent executions of one task, exceptions from chunk submission other than as failed attempts, checkpoints: the engine is modelled without them.
- Task status, timestamps, stage results and the statistics of the DAG engine.
- `resize` and `close` of the connection pool, its averages and its `idle_connections` counter between `get_stats` calls; a borrowed connection is released once.
- Object identity of dictionary keys in the decoder beyond the parameter that says which keys are equal.
- Recursion limits of the interpreter in the encoder, the decoder and the resolver.
- Access counts and last-access times of cache entries; `get_or_set` and the decorators built on it.
- Message expiry, headers, priorities and subscriptions: the backend consults none of them.
- The code templates of chunks.
- Merging.MergeChunkResults: merge code that a task brings along is a parameter that maps the results to what it leaves, or raises.
- DependencyInjection.Container.Register: the type hints are given; how Python finds them is not part of this model.
- DependencyInjection.Container.CreateInstance: constructors and factories return or raise; one that calls back into the container while it runs is not modelled.
- DagEngine.EndsIff: stage ids are distinct; for tasks that reuse an id only the safety lemmas hold.
- DagEngine.TaskChunk.Attempt: every attempt that the scheduler takes is answered at last; the source asks for ever otherwise.
- ConnectionPool.ConnectionPool.Acquire: covers a thread that is not interfered with; the interleavings, waiting included, are covered by the step system.
- ConnectionPool.PoolSafe: with a positive limit and a larger initial fill the constructor waits for ever, so there is no run.
- DistributedLock.MemoryLockBackend.TryAcquire: one pass of the loop that waits for a lock; between passes any other client may act, as in the step system.
- DistributedLock.DistributedLock.Acquire: likewise one pass, with `Waiting` for the ones that are followed by another.
- DistributedLock.StepKeepsInv: a client's bookkeeping and the backend call it belongs to are one step, taken when the backend acts.
- MessageQueue.MemoryQueueBackend.Consume: does not wait; a consumer that waits asks again when it wakes up.
- MessageQueue.OutstandingMeans: the status field of a message is tracked by the methods only, not over whole runs.
- PriorityQueues.NoStarvation: real arithmetic; rounding of floating-point priorities is not modelled.
- Bandwidth.WaitIsExact: real arithmetic; rounding of the division is not modelled.
- Kademlia.KademliaDHT.AddPeer: peers are values in the buckets; a peer object changed from outside is the separate operation `SetState`.
- Caching.Cache.Set: values are texts with an estimated size as a parameter; the JSON estimate itself is not computed.
