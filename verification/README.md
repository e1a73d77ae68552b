# Priority message store

A model of the message store at the centre of a small HTTP message broker.
Clients submit messages. Each message has an id, a priority from 1 to 100 and
a timestamp. The broker serves them highest priority first, and among equal
priorities earliest timestamp first. The store keeps three pieces of state:

- the live messages by id;
- a min-heap of `(-priority, timestamp, id)` tuples;
- the admission watermark, the timestamp of the last admitted message, which starts empty.

There are four operations:

- `add_message` admits a message. It rejects a live id, a priority outside 1..100, and a timestamp that is not past the watermark, checked in that order.
- `pop_message` removes and returns the next message to serve.
- `find_message` looks up a live message.
- `list_messages` lists the live ids in service order.

The project has three modules:

- `HeapOrder` (`heap_order.dfy`) holds the heap tuple and Python's tuple and string order. It also has `HeapPop`, the contract of `heapq.heappop`: remove one tuple that no other tuple is smaller than.
- `Messages` (`messages.dfy`) holds the message datatype, the admission decision and the service order. It defines `IsTop`, the message served next, and the reference listing `ListMessages`, built by repeatedly taking the message served next.
- `Broker` (`broker.dfy`) holds the store as a class `Store` with the three fields and the four operations. It also holds the store invariant and the lemmas showing that the operations keep it.

The store invariant comes in two strengths:

- `Consistent()` is what `Pop` needs. Every live message is stored under its own id and has a priority in range. Live timestamps are distinct and none is past the watermark. Every live message has its tuple in the heap. A heap tuple whose id is live is that message's tuple. A tuple whose id is no longer live (a stale tuple) is tolerated, and `pop_message`'s loop skips it.
- `Valid()` adds that the heap holds no stale tuple and no tuple twice, so heap tuples and live messages correspond one to one. `Add` and `Pop` both keep `Valid()`. From a valid store, `Pop` takes exactly one tuple off the heap, the one belonging to the message it returns.

`Drain` is a client that pops until the store is empty. Four scenarios state the expected outcomes of fixed call sequences, as assertions the verifier proves:

- `AdmitTwo` and `ServeInOrder`: two admissions, after which the later message, which has the higher priority, is popped first and the other second.
- `PopEmptied`: a pop on a fresh store, and pops after the last message is gone, return nothing.
- `RejectInOrder`: each rejection in the order the checks are made, plus the boundary priorities 1, 100, 0 and 101.
- `ReadmitAfterPop`: a popped id is no longer found and can be admitted again.

## Model

| member | source | states |
|---|---|---|
| HeapOrder.StrLessTransitive | main.py:40 | Python's string order on the id, the last field of a heap tuple, is transitive. |
| HeapOrder.EntryLessIrreflexive | main.py:40 | No heap tuple is smaller than itself. |
| HeapOrder.EntryLessTransitive | main.py:40 | Python's lexicographic order on `(-priority, timestamp, id)` tuples is transitive. |
| HeapOrder.HeapPop | main.py:48 | `heappop` on a non-empty heap removes exactly one tuple: the remaining multiset plus the returned tuple is the old multiset, and the heap is one shorter. No tuple of the heap is smaller than the returned one. |
| Messages.Admission | main.py:30-37 | The admission result is `Added` iff the id is not live, the priority is in 1..100 and the timestamp is past the watermark (any timestamp passes while the watermark is empty). Each rejection holds iff its own check fails and every earlier check passes: a duplicate id wins over a bad priority, and a bad priority wins over a stale timestamp. |
| Messages.PriorityBoundaries | main.py:33-34 | Priorities 1 and 100 are admitted; 0 and 101 are rejected with the priority error. |
| Messages.KeyOrderIsRank | main.py:40 | For messages with distinct timestamps, the heap tuple order and the service order (higher priority, then earlier timestamp) agree in both directions, and the order is total. |
| Messages.TopExists | main.py:47-51 | A non-empty store with distinct timestamps always has a message to serve next. |
| Messages.TopUnique | main.py:47-51 | At most one live message is the next to serve. |
| Messages.NextToServe | main.py:47-51 | Picks the live message ranked before every other live message: the id `pop_message` returns, and also the first id of the listing (main.py:63-66). |
| Messages.ListIsSortedPermutation | main.py:62-67 | The listing has exactly one entry per live message, holds every live id and nothing else, and is ordered by descending priority and then ascending timestamp. |
| Messages.SortedListIsUnique | main.py:63-66 | Any sequence that holds exactly the live ids and is ordered by service rank equals the listing, so the listing is fully determined by the sort key. |
| Messages.ListWithoutTop | main.py:47-51 | The listing starts with the message served next, followed by the listing of the other messages. |
| Messages.SortedHeadIsTop | main.py:62-67 | The first id of a rank-sorted list of all live ids is the message served next. |
| Messages.SortedTail | main.py:62-67 | Dropping the first id of a rank-sorted list of all live ids leaves a rank-sorted list of the others. |
| Messages.PrependTop | main.py:62-67 | The message served next, put in front of a rank-sorted list of the others, gives a rank-sorted list of all. |
| Broker.AdmitKeepsInvariant | main.py:39-41 | Inserting the admitted message, pushing its tuple and advancing the watermark keeps the store invariant, and adds no stale or duplicate tuple. |
| Broker.SkipKeepsConsistent | main.py:47-49 | Popping a tuple whose id is not live keeps the invariant, and such a tuple exists only when the heap held a stale tuple. |
| Broker.MinimalIsTop | main.py:48-49 | A smallest heap tuple whose id is live belongs to the message served next. |
| Broker.RemoveKeepsConsistent | main.py:48-50 | Popping a live message's tuple and removing that message keeps the invariant. |
| Broker.RemoveKeepsNoStale | main.py:48-50 | When the heap has no stale tuple, the popped tuple's id is live and removing it leaves no stale tuple. |
| Broker.PopKeepsConsistent | main.py:47-51 | A smallest tuple with a live id is that message's own tuple and names the message served next. Removing it keeps the invariant, and keeps the heap free of stale tuples when it was. The listing before is that id followed by the listing after. |
| Broker.LiveMeansHeapNotEmpty | main.py:47-52 | While some message is live the heap is not empty, so the loop ends with nothing to return only on an empty store. |
| Broker.Store.constructor | main.py:22-24 | The store starts with no messages, an empty heap and no watermark, and is valid. |
| Broker.Store.Find | main.py:55-59 | The lookup returns something iff the id is live, and then it returns the stored priority and timestamp. It reads the store and changes nothing. |
| Broker.Store.List | main.py:62-67 | The listing has one entry per live message, holds every live id and nothing else, and is ordered by descending priority and then ascending timestamp. It reads the store and changes nothing. |
| Broker.Store.Add | main.py:27-42 | Returns the admission decision for the old state. On success: one map entry for the id is set, one tuple `(-priority, timestamp, id)` is pushed, the watermark becomes the new timestamp, and the message can be found. On any rejection nothing changes. The store stays valid. |
| Broker.Store.Pop | main.py:46-52 | Returns nothing iff no message was live, leaving the heap empty. Otherwise it returns the message served next (highest priority, then earliest timestamp) and removes it from the map; the old listing is the returned id followed by the new listing. The watermark never changes, and the store stays consistent and stays valid. From a valid store exactly that message's tuple leaves the heap. |
| Broker.AdmitTwo | main.py:27-42 | Two admissions with increasing timestamps into a fresh store are both accepted and leave exactly those two messages live. |
| Broker.Drain | main.py:46-52 | Popping until nothing is returned yields the ids in exactly the order the listing gave beforehand, and leaves the store empty, so later pops return nothing. |

## Left out

- The HTTP layer is not modelled: the web application object, the route decorators, the cross-origin middleware, and request and response bodies as JSON. The operations are methods and functions on one store.
- Pydantic validation of the incoming message is not modelled. A message is a plain datatype with an unbounded integer priority and timestamp.
- The three error strings and the success text of `add_message` become the four constructors of `AddResult`. The `{"id": ...}` and `{"priority": ..., "timestamp": ...}` response shapes become `Option<string>` and `Option<Found>`.
- The `heapq` list layout and its sift code are not modelled. The heap is a sequence of tuples in no particular order: a push appends, and `HeapPop` finds a smallest tuple by a linear scan. The heap-shape invariant and the logarithmic running time are therefore not captured; only push and pop-min behaviour is.
- Python truthiness in `find_message`'s `if msg:` is treated as "the id is live". A stored message object is always truthy.
- Concurrent requests are not modelled. The source updates unsynchronised module globals; the model treats every operation as one atomic call on one store.
- Stable sorting: `sorted` is stable, so messages with equal keys would keep insertion order. The model does not capture that, because every reachable state has distinct timestamps and so ties cannot arise. `ListMessages` and `List` require distinct timestamps (`Consistent()`).
- Broker.Store.Add requires `Valid()` (no stale heap tuple) rather than just `Consistent()`. A stale tuple whose id was re-admitted would no longer match the live message. Every state reachable from the constructor through `Add` and `Pop` is valid, so this rules out no state the source can be in.
- A popped id can be admitted again, because the duplicate check only looks at live ids. The model follows the code here (see `ReadmitAfterPop`), not the broader reading that an id, once used, stays taken.
