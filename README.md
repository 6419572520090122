# LRU cache and ordered worker pool

This project models two components of a small Go repository and proves what they promise.

**The LRU cache (`lru.go`).** The cache is a `map[string]*Node` plus a doubly linked list between two sentinel nodes, `head` and `tail`. The list runs from the most recently used entry to the least recently used one.
- `Get` moves a hit to the front.
- `Put` either overwrites an existing key and moves it to the front, or inserts a new key at the front. When the map then holds more than `capacity` entries, it evicts the node just before `tail`.

The model keeps the heap structure:
- `Lru.Node` and `Lru.LRUCache` are classes whose methods rewrite `prev`/`next` pointers, node values and the map in place.
- Two ghost fields give the abstraction: `nodes` is the sequence of nodes between the sentinels, and `Contents` is the sequence of `(key, value)` entries they hold.
- The representation invariant `Valid()` says:
  - the chain `head → nodes → tail` is consistently linked in both directions, with no node twice;
  - the map sends the key of every listed node to that node and holds no other key;
  - the list has at most `max(capacity, 0)` entries.

Every method is specified by a function of module `LruModel` on `Contents`. What the cache promises is proved about those functions: keys stay distinct, the size stays bounded, `Get` only reorders, and `Put` overwrites or inserts and evicts exactly the least recently used entry.

**The ordered worker pool (`worker.go`).**
- `Submit` stamps each task with the current `taskCount` and appends it to the task queue.
- `Run` closes the queue, lets the workers execute the tasks, and scatters each tagged result into `output[index]`.

Concurrency is not modelled. The order in which the workers finish is a parameter: any permutation of the task indices. The model proves that for every such order the output holds the value of task `i` at position `i`, and that each task is executed exactly once. `WorkerPool.Pool` is a class whose `tasks` queue, `taskCount` and `closed` flag the methods update. The collector is a loop writing into an array.

Files:
- `wrappers.dfy`: `Option`.
- `sets.dfy`: two cardinality lemmas.
- `lru_model.dfy`: the abstract recency list.
- `lru.dfy`: the heap implementation.
- `worker.dfy`: the worker pool.

Where the Go code does something a caller might not expect, the model follows the code:
- A pool with `workerCount <= 0` is accepted. Its `Run` starts no worker, so nothing is executed, and it returns `taskCount` nil slots. In the model these are `zero`.
- A full task buffer makes `Submit` block forever when no worker is running yet. This is a precondition of `Submit`.
- A second `Run`, or a `Submit` after `Run`, would close or send on a closed channel. Both are preconditions (`!closed`).

## Model

| member | source | states |
|---|---|---|
| `LruModel.Find` | lru.go:39 | the first position holding key `k`, or `None` exactly when no entry has key `k` |
| `LruModel.Lookup` | lru.go:39-47 | the map lookup: `Some` exactly when `k` is a key of the list, and then `Entry(k, value)` is in the list |
| `LruModel.RemoveAt` | lru.go:73-78 | unlinking position `i`: one entry shorter, the entries before `i` in place, the ones after it shifted down by one |
| `LruModel.MoveToFront` | lru.go:44-45 | remove then insert at front: same length, the moved entry first, the others in their old relative order |
| `LruModel.Touch` | lru.go:38-48 | the list after `Get`: same length; a hit is first with its stored value; a miss leaves the list unchanged |
| `LruModel.Put` | lru.go:51-70 | the list after `Put`: whenever anything is left, the new `(k, v)` is first |
| `LruModel.LookupIsMembership` | lru.go:16 | with distinct keys, looking up `k` yields `v` if and only if `(k, v)` is in the list |
| `LruModel.RemoveAtKeys` | lru.go:73-78 | unlinking a node keeps keys distinct and removes exactly that node's key |
| `LruModel.DropLastKeys` | lru.go:89-93 | dropping the node before `tail` removes exactly its key |
| `LruModel.TouchPreservesInv` | lru.go:38-48 | `Get` keeps keys distinct and the size within capacity |
| `LruModel.TouchPermutes` | lru.go:44-45 | `Get` only reorders: the entries after it are a permutation of those before |
| `LruModel.TouchPreservesLookup` | lru.go:38-48 | after `Get(k)` every key maps to the same value as before |
| `LruModel.TouchOrder` | lru.go:38-48 | a hit at position `i` becomes `[s[i]] + s[..i] + s[i+1..]`; a miss changes nothing |
| `LruModel.PutPreservesInv` | lru.go:51-70 | `Put` keeps keys distinct and the size within `max(capacity, 0)` |
| `LruModel.PutThenLookup` | lru.go:51-70 | with capacity at least one, after `Put(k, v)` the entry `(k, v)` is first and `k` maps to `v` |
| `LruModel.PutWithoutRoom` | lru.go:64-69 | with capacity zero or less, `Put` leaves the cache empty: the new entry is evicted at once |
| `LruModel.PutExisting` | lru.go:52-57 | `Put` on a present key keeps the size and the set of keys, evicts nothing, and keeps every other key's value |
| `LruModel.PutNew` | lru.go:59-69 | `Put` on a new key with room prepends it; on a full cache it prepends it and drops exactly the last entry, whose key disappears |
| `LruModel.PutOther` | lru.go:51-70 | another key keeps its value under `Put`, unless it was the least recently used entry of a full cache and is evicted |
| `LruModel.EvictionExample` | lru_unit_test.go:68-86 | in a cache of two, putting `a`, `b`, `c` evicts `a` and keeps `b` and `c` with their values |
| `LruModel.RecencyExample` | lru_unit_test.go:90-101 | in a cache of two, putting `a`, `b`, reading `a`, then putting `c` evicts `b` and keeps `a` |
| `Lru.Node.constructor` | lru.go:59-62 | a new node holds the given key and value and is not linked |
| `Lru.LRUCache.KeysDistinct` | lru.go:16 | a consistent cache holds no key twice in its list |
| `Lru.LRUCache.ValidIsInv` | lru.go:13-19 | a valid cache's list satisfies the abstract invariant: distinct keys, size within capacity |
| `Lru.LRUCache.MapMatchesList` | lru.go:16 | the keys of the map are exactly the keys in the list |
| `Lru.LRUCache.NodePosition` | lru.go:39 | the node the map gives for a key sits where `Find` places that key, and the key occurs nowhere else |
| `Lru.LRUCache.Absent` | lru.go:39-42 | a key missing from the map is missing from the list |
| `Lru.LRUCache.constructor` | lru.go:22-35 | capacity as given, empty map, empty list, `head.next == tail` and `tail.prev == head`, and the invariant holds |
| `Lru.LRUCache.Get` | lru.go:38-48 | keeps `Valid`; returns `(v, true)` exactly when the key maps to `v` and `("", false)` otherwise; the new list is `Touch` of the old one; no node is added to the list |
| `Lru.LRUCache.Put` | lru.go:51-70 | keeps `Valid`; the new list is `LruModel.Put` of the old one; every node in it was there before or is new |
| `Lru.LRUCache.Update` | lru.go:52-57 | the hit branch of `Put`: the entry takes the new value and moves to the front, everything else keeps its order; the node sequence is the old one with position `i` moved to the front |
| `Lru.LRUCache.Insert` | lru.go:59-69 | the miss branch of `Put`: the new entry goes in front, and the last one is dropped when over capacity; every node in the list was there before or is new |
| `Lru.LRUCache.LinkNew` | lru.go:59-65 | a fresh node for a new key is mapped under that key and linked in front of the old list, and the cache stays consistent |
| `Lru.LRUCache.Promote` | lru.go:44-45 | remove then insert at front keeps the cache consistent and moves position `i` to the front of both ghost sequences |
| `Lru.LRUCache.Remove` | lru.go:73-78 | after pointing the neighbours at each other the chain is well linked and skips exactly position `i` |
| `Lru.LRUCache.InsertAtFront` | lru.go:81-86 | the node becomes `head.next`, with the old list after it, and the chain stays well linked |
| `Lru.LRUCache.EvictLRU` | lru.go:89-93 | the node before `tail` leaves the list, its key leaves the map, the other nodes stay in order, and the cache stays consistent |
| `Lru.LRUCache.Unlinked` | lru.go:76-77 | the two pointer writes of `remove` yield a well-linked chain without position `i` |
| `Lru.LRUCache.LinkedAtFront` | lru.go:82-85 | the four pointer writes of `insertAtFront` yield a well-linked chain that starts with the node |
| `Lru.LRUCache.Revalued` | lru.go:53 | overwriting a node's value changes only that entry of the list |
| `Lru.EvictionScenario` | lru_unit_test.go:132-141 | a cache of one that takes `a` and then `b` no longer finds `a` |
| `Lru.UpdateScenario` | lru_unit_test.go:54-64 | a second `Put` of the same key overwrites its value, and `Get` returns the new one |
| `WorkerPool.Sequential` | worker_pool_test.go:60-78 | the expected output: the value of task `i` at position `i` |
| `WorkerPool.Arrivals` | worker.go:56-61 | the tagged results in completion order: result `j` carries the index and the value of task `order[j]` |
| `WorkerPool.Scatter` | worker.go:73-76 | the collector's output has exactly `n` slots |
| `WorkerPool.ScatterLast` | worker.go:74-76 | a result that no later result overwrites is what its slot ends up holding |
| `WorkerPool.ScatterUntouched` | worker.go:73 | a slot that no result names keeps the nil it was allocated with |
| `WorkerPool.EveryIndexArrives` | worker.go:56-62 | in a completion order every task index below `n` occurs, so no slot is skipped |
| `WorkerPool.EachTaskOnce` | worker.go:56-62 | every task index occurs exactly once in the completion order |
| `WorkerPool.Indices` | worker.go:58-61 | the index tags of the results, one per result, in arrival order |
| `WorkerPool.ArrivalsCoverIndices` | worker.go:56-62 | the tagged results carry every task index below `taskCount` exactly once |
| `WorkerPool.ScatterInOrder` | worker.go:73-76 | for every completion order, scattering the results of stamped tasks gives the value of task `i` at position `i` |
| `WorkerPool.Collect` | worker.go:73-76 | returns a freshly allocated array that the collector loop fills exactly as `Scatter` describes |
| `WorkerPool.Pool.constructor` | worker.go:29-35 | the given worker count, an empty open queue and `taskCount == 0` |
| `WorkerPool.Pool.Submit` | worker.go:39-45 | appends a task stamped with the current `taskCount`, increments `taskCount` by one, and keeps the stamping invariant |
| `WorkerPool.Pool.Run` | worker.go:49-79 | closes the queue and returns a fresh array of `taskCount` slots; with workers, slot `i` holds the value of task `i` for every completion order; without workers every slot is nil |
| `WorkerPool.SquaresInOrder` | worker_pool_test.go:82-99 | three tasks returning 0, 1 and 4 yield exactly `[0, 1, 4]` whatever order they finish in |
| `WorkerPool.RunWithoutTasks` | worker_pool_test.go:103-111 | running a pool with nothing submitted returns an empty output |

## Left out

- `Display` and `runLRUCache` (lru.go:96-150) are console I/O and a `fmt.Scan` command loop.
- `SaveToFile` and `LoadFromFile` are not part of this model. The cache tests call them, but none of the files defines them.
- Goroutines, `sync.WaitGroup`, the `results` channel and the closer goroutine of `Run` (worker.go:50-71) are replaced by a completion order that the caller supplies. How tasks are assigned to the `workerCount` workers is not modelled.
- `runWorkerPool` (worker.go:81-97) only prints a demonstration.
- task.go and main.go are not part of this model. They hold printing and sleeping tasks, a goroutine fan-out and an interactive menu.
- Task functions are modelled as pure total functions `() -> T`. Side effects such as `time.Sleep` and printing are not modelled.
- Go's nil interface value, which fills unwritten slots of `output`, is the `zero` parameter of `Run`.
- Go strings are modelled as `string` (sequences of characters). Byte-level encoding is not modelled.
- The key of a node is a constant. The Go code never reassigns it.
- `Lru.LRUCache.Remove`, `Promote` and `Update` take the node's position as a ghost parameter. The Go code needs no position; this only ties the call to the abstraction.
- `Lru.LRUCache.InsertAtFront` requires the node's key to be absent from the list. This is how both callers guarantee that the node is not already linked, which is all the Go code needs.
- `Lru.LRUCache.Remove` requires the node to be linked. On an unlinked node the Go code would dereference nil or corrupt the list, and no caller does that.
- The longer cache tests, `TestEviction` and `TestGetMovesToFront`, are stated on the abstract list (`LruModel.EvictionExample`, `LruModel.RecencyExample`) instead of as client methods of `Lru.LRUCache`. The proof that each call may modify the nodes the previous calls allocated grows with every call. `Lru.EvictionScenario` and `Lru.UpdateScenario` state the two shorter tests against the heap cache.
