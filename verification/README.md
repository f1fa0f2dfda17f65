# InAppInstrumentation: linked list and logger, modelled in Dafny

This project models two pieces of the InAppInstrumentation library and proves
properties of them:

- **`IAILinkedList`**: an insertion-ordered collection with O(1) append, O(1)
  removal at either end, and O(1) removal through an opaque location handle
  (`IAILinkedListLocation`). `-addObject:` returns the handle, and
  `-locationOfObject:` finds one by a linear scan.
- **`IAILogger`**: three such lists (device, console and event logs) and an
  age limit `oldestLogAge`, which defaults to one minute. Adding a device or
  event entry first prunes the expired entries and then appends the new one.
  Adding a console entry never prunes.

The project has four files:

- `Optional.dfy`: the `Option` type, standing for the original's object-or-`nil` results.
- `LinkedLists.dfy`: the list as its callers see it. A list is a sequence
  of cells, each holding a location and an object, plus the id the next
  location will get.
  - Ids only grow. So once a location's object is removed, that location
    never names anything again.
  - Every operation is a pure function. Its contract says what happens to the
    objects (`AllObjects`), to the live locations (`Live`), and to the object
    each surviving location names (`KeepsObjects`).
- `NodeChain.dfy`: the node-level representation: a heap of nodes with
  `prev`/`next` links, plus `head`, `tail` and `count`.
  - Each update rewrites only the nodes next to the one it works on. The
    `…IsLocal` lemmas prove this, which is the O(1) claim.
  - The `…Refines` lemmas prove that each update implements its counterpart
    in `LinkedLists` under the abstraction `Abstract(c, order)`. Here `order` is
    the head-to-tail sequence of node ids.
  - The linear operations (`-allObjects`, `-locationOfObject:`,
    `-removeObject:`, `-addObjectsFromArray:`) are loops that follow the
    links.
- `Logging.dfy`: the logger.
  - Time is whole seconds, and the clock is a parameter `now`.
  - An entry is expired when `now - timestamp > oldestLogAge`.
  - Pruning pops the head while it is expired. It is written twice: as a
    recursive function and as a `while` loop, and the two are proved equal.
  - `ExpiredPrefix` and `InWindow` are independent reference definitions of
    what pruning removes and what it keeps.

The header calls `IAILinkedList` "singly linked" (IAIDataStructures.h:75).
But it also promises O(1) `-removeLastObject` and O(1) removal at a location,
and both need a back link. The node model therefore carries `prev` links.
The implementation file is not part of this model. The contracts come from
the header's documentation.

## Model

| member | source | states |
|---|---|---|
| LinkedLists.Empty | InAppInstrumentation/InAppInstrumentation/IAIDataStructures.h:304-310 | a new list is valid, holds no objects and has no live locations |
| LinkedLists.WithArray | InAppInstrumentation/InAppInstrumentation/IAIDataStructures.h:312-327 | a list built from an array holds exactly the array's objects in order, so its count is the array's length |
| LinkedLists.Copy | InAppInstrumentation/InAppInstrumentation/IAIDataStructures.h:109 | a copy holds the same objects in the same order, with the same count |
| LinkedLists.Count | InAppInstrumentation/InAppInstrumentation/IAIDataStructures.h:332-337 | the count is the number of objects, and it is zero exactly when no location is live |
| LinkedLists.CountIsLiveLocations | InAppInstrumentation/InAppInstrumentation/IAIDataStructures.h:332-337 | the count equals the number of live locations, one per object |
| LinkedLists.FirstObject | InAppInstrumentation/InAppInstrumentation/IAIDataStructures.h:339-344 | nil exactly when the list is empty, otherwise the head object |
| LinkedLists.LastObject | InAppInstrumentation/InAppInstrumentation/IAIDataStructures.h:346-351 | nil exactly when the list is empty, otherwise the tail object |
| LinkedLists.ContainsObject | InAppInstrumentation/InAppInstrumentation/IAIDataStructures.h:371-378 | YES if and only if an equal object is in the list |
| LinkedLists.LocationOfObject | InAppInstrumentation/InAppInstrumentation/IAIDataStructures.h:445-459 | nil exactly when no equal object is present; otherwise a live location naming the first equal object |
| LinkedLists.ObjectAtLocation | InAppInstrumentation/InAppInstrumentation/IAIDataStructures.h:461-467 | a live location yields the object stored in its cell, which is one of the list's objects |
| LinkedLists.AddObject | InAppInstrumentation/InAppInstrumentation/IAIDataStructures.h:391-398 | appends one cell at the tail and returns its location, which was never issued before and now names the new object; the old cells stay in front, in their order and with their locations |
| LinkedLists.AddObjectsFromArray | InAppInstrumentation/InAppInstrumentation/IAIDataStructures.h:400-406 | the array's objects are appended in order; every old location stays live with its object, and nothing issued earlier is reused |
| LinkedLists.AddObjectsFromArrayCells | InAppInstrumentation/InAppInstrumentation/IAIDataStructures.h:400-406 | the resulting cells are the old cells, unchanged and in front, followed by one cell per array element, in array order, under fresh ids that increase from the old counter |
| LinkedLists.AddObjectsFromArrayIsSequentialAdds | InAppInstrumentation/InAppInstrumentation/IAIDataStructures.h:400-406 | appending `a + [v]` is appending `a` and then adding `v` |
| LinkedLists.AddObjectsFromArrayConcat | InAppInstrumentation/InAppInstrumentation/IAIDataStructures.h:400-406 | appending `a + b` is appending `a` and then `b` |
| LinkedLists.RemoveAllObjects | InAppInstrumentation/InAppInstrumentation/IAIDataStructures.h:410-416 | the list becomes empty with no live locations, and no earlier location becomes valid again |
| LinkedLists.RemoveObject | InAppInstrumentation/InAppInstrumentation/IAIDataStructures.h:418-424 | removes the cell of the first equal object and nothing else (multiset minus one copy). Only that object's location becomes invalid; every other cell, a later duplicate included, keeps its location and position. If there is no equal object, the list is unchanged |
| LinkedLists.RemoveObjectTakesFirstOccurrence | InAppInstrumentation/InAppInstrumentation/IAIDataStructures.h:167-172 | removing `a` from `[a, b, a, c]` leaves `[b, a, c]` |
| LinkedLists.RemoveFirstObject | InAppInstrumentation/InAppInstrumentation/IAIDataStructures.h:426-432 | drops the head cell; the other cells keep their locations, objects and order, and an empty list is left as it is |
| LinkedLists.RemoveLastObject | InAppInstrumentation/InAppInstrumentation/IAIDataStructures.h:434-440 | drops the tail cell; the other cells keep their locations, objects and order, and an empty list is left as it is |
| LinkedLists.RemoveObjectAtLocation | InAppInstrumentation/InAppInstrumentation/IAIDataStructures.h:469-480 | removes exactly the cell the live location names; the count drops by one, and the other cells keep their locations, objects and order |
| LinkedLists.AddThenRemoveAtLocation | InAppInstrumentation/InAppInstrumentation/IAIDataStructures.h:283-298 | removing at the location `-addObject:` returned restores the old objects and live locations |
| LinkedLists.RemovedLocationStaysInvalid | InAppInstrumentation/InAppInstrumentation/IAIDataStructures.h:266-270 | a removed location is not valid afterwards, whatever objects are appended later |
| LinkedLists.DrainFrontIsInsertionOrder | InAppInstrumentation/InAppInstrumentation/IAIDataStructures.h:232-250 | reading and removing the head until the list is empty yields the objects in insertion order (FIFO) |
| LinkedLists.DrainBackIsReverseOrder | InAppInstrumentation/InAppInstrumentation/IAIDataStructures.h:217-226 | reading and removing the tail until the list is empty yields the objects in reverse order |
| LinkedLists.WithArrayRoundTrip | InAppInstrumentation/InAppInstrumentation/IAIDataStructures.h:312-327 | an array loaded into a list drains back out head-first unchanged; after `-removeAllObjects` the list has no first object |
| LinkedLists.LocsCardinality | InAppInstrumentation/InAppInstrumentation/IAIDataStructures.h:332-337 | distinct locations: as many live locations as cells |
| NodeChain.NewChain | InAppInstrumentation/InAppInstrumentation/IAIDataStructures.h:118 | an empty chain is well linked and stands for the empty list |
| NodeChain.LinkedIsValid | InAppInstrumentation/InAppInstrumentation/IAIDataStructures.h:332-337 | a well-linked chain stands for a valid list, and its `count` field is that list's count |
| NodeChain.NodesAreLiveLocations | InAppInstrumentation/InAppInstrumentation/IAIDataStructures.h:448-450 | a node exists exactly when its location is live |
| NodeChain.AppendIsLocal | InAppInstrumentation/InAppInstrumentation/IAIDataStructures.h:391-398 | appending adds one node and rewrites no node except the old tail (O(1)) |
| NodeChain.RemoveAtIsLocal | InAppInstrumentation/InAppInstrumentation/IAIDataStructures.h:469-480 | unlinking drops one node and rewrites no node except its two neighbours (O(1)) |
| NodeChain.AppendRefines | InAppInstrumentation/InAppInstrumentation/IAIDataStructures.h:391-398 | appending a node keeps the chain well linked, implements `-addObject:`, and returns the same location |
| NodeChain.RemoveAtRefines | InAppInstrumentation/InAppInstrumentation/IAIDataStructures.h:469-480 | unlinking a node keeps the chain well linked and implements `-removeObjectAtLocation:` |
| NodeChain.RemoveFirstRefines | InAppInstrumentation/InAppInstrumentation/IAIDataStructures.h:426-432 | unlinking the head implements `-removeFirstObject` |
| NodeChain.RemoveLastRefines | InAppInstrumentation/InAppInstrumentation/IAIDataStructures.h:434-440 | unlinking the tail through its `prev` link implements `-removeLastObject` |
| NodeChain.EndsRefine | InAppInstrumentation/InAppInstrumentation/IAIDataStructures.h:339-351 | reading the head and tail nodes gives `-firstObject` and `-lastObject` |
| NodeChain.ObjectAtRefines | InAppInstrumentation/InAppInstrumentation/IAIDataStructures.h:461-467 | reading the node a location names gives `-objectAtLocation:` without a walk |
| NodeChain.RemoveAllRefines | InAppInstrumentation/InAppInstrumentation/IAIDataStructures.h:410-416 | dropping every node implements `-removeAllObjects` and keeps the id counter |
| NodeChain.CollectObjects | InAppInstrumentation/InAppInstrumentation/IAIDataStructures.h:353-360 | following `next` from the head collects exactly the list's objects in order |
| NodeChain.LocationOfObject | InAppInstrumentation/InAppInstrumentation/IAIDataStructures.h:445-459 | the walk from the head returns the same location as the abstract first-match search, or nil when there is none |
| NodeChain.RemoveObject | InAppInstrumentation/InAppInstrumentation/IAIDataStructures.h:418-424 | a walk to the first equal object plus an unlink implements `-removeObject:`; the chain is returned unchanged when no equal object is present, and otherwise it has one node fewer and no new node ids |
| NodeChain.AddObjectsFromArray | InAppInstrumentation/InAppInstrumentation/IAIDataStructures.h:400-406 | a loop of appends implements `-addObjectsFromArray:`; the count and the id counter each grow by the array's length, and every old node survives |
| Logging.NewLogger | InAppInstrumentation/InAppInstrumentation/IAILogger.h:39-46 | a new logger has three empty logs and `oldestLogAge` of 60 seconds |
| Logging.SetOldestLogAge | InAppInstrumentation/InAppInstrumentation/IAILogger.h:39-46 | setting the age limit changes nothing else |
| Logging.ExpiredPrefix | InAppInstrumentation/InAppInstrumentation/IAILogger.h:39-46 | the length of the longest prefix of expired entries: all before it are expired, the one at it is not |
| Logging.ExpiredPrefixUnique | InAppInstrumentation/InAppInstrumentation/IAILogger.h:39-46 | any prefix length with that property is the expired prefix |
| Logging.InWindow | InAppInstrumentation/InAppInstrumentation/IAILogger.h:39-46 | an entry is kept if and only if it was present and is not expired |
| Logging.Prune | InAppInstrumentation/InAppInstrumentation/IAILogger.h:51-56 | pruning removes exactly the cells of the longest expired prefix; the surviving cells, each with its location and object, are the rest of the list in the same order, and no location is reissued |
| Logging.PruneExpired | InAppInstrumentation/InAppInstrumentation/IAILogger.h:51-56 | the head-popping loop computes the same list as the recursive pruning, and stops with an unexpired head or an empty list |
| Logging.Admit | InAppInstrumentation/InAppInstrumentation/IAILogger.h:65-70 | prune-then-append: the survivors followed by the new entry, which is last |
| Logging.AddDeviceLog | InAppInstrumentation/InAppInstrumentation/IAILogger.h:51-56 | the device log becomes its unexpired suffix plus the new entry; the console and event logs and the age limit are unchanged |
| Logging.AddConsoleLog | InAppInstrumentation/InAppInstrumentation/IAILogger.h:58-63 | the console log becomes the old log plus the new entry, nothing removed; the other logs are unchanged |
| Logging.AddEventLog | InAppInstrumentation/InAppInstrumentation/IAILogger.h:65-70 | the event log becomes its unexpired suffix plus the new entry; the device and console logs and the age limit are unchanged |
| Logging.AddConsoleLogs | InAppInstrumentation/InAppInstrumentation/IAILogger.h:58-63 | any run of console adds keeps every console entry, in order, and leaves the other logs alone |
| Logging.LaterEntriesStayInWindow | InAppInstrumentation/InAppInstrumentation/IAILogger.h:75-80 | in a chronological log, nothing after an unexpired entry is expired |
| Logging.PrunedIsInWindow | InAppInstrumentation/InAppInstrumentation/IAILogger.h:75-80 | for a chronological log, removing the expired prefix keeps exactly the in-window entries in their original order |
| Logging.AddDeviceLogWindow | InAppInstrumentation/InAppInstrumentation/IAILogger.h:75-80 | after an add to a chronological device log it holds exactly the in-window entries and then the new one; it stays chronological if the new entry is not earlier than the logged ones |
| Logging.AddEventLogWindow | InAppInstrumentation/InAppInstrumentation/IAILogger.h:89-94 | the same window and ordering theorem for the event log |
| Logging.AddConsoleLogChronological | InAppInstrumentation/InAppInstrumentation/IAILogger.h:82-87 | a console add keeps the console log chronological when the entry is not earlier than the logged ones |
| Logging.PruningScenario | InAppInstrumentation/InAppInstrumentation/IAILogger.h:51-56 | entries at 0, 10, 20, 30 and 40 s with a 25 s limit, then one at 50 s, leave the entries at 30, 40 and 50 s (count 3) |

## Left out

- `-description`, `NSCoding` archiving and `objectEnumerator`: they format, serialise or hand out an iterator. None of them changes the list, and `CollectObjects` covers the order they traverse.
- The assertion fired when a list is changed during fast enumeration: no iteration state is modelled.
- Object equality: the header does not say which equality the scans in `-containsObject:`, `-removeObject:` and `-locationOfObject:` use. It is modelled as Dafny `==` on the stored value.
- Locations from a different list: the model has no list identity, so such a location is indistinguishable from one of this list's with the same id.
- `LinkedLists.ObjectAtLocation` and `LinkedLists.RemoveObjectAtLocation` require a live location. The header leaves a stale location's result undefined (IAIDataStructures.h:472-473), so no behaviour for it is modelled.
- `NodeChain.RemoveAll`: it drops the node map at once, so its Theta(count) cost of releasing the nodes one by one is not modelled.
- Time: `NSDate` and `NSTimeInterval` are floating point in the original. Here timestamps, `now` and `oldestLogAge` are whole seconds, and the clock is the parameter `now`.
- The device entry's memory, disk and battery readings, and the console-log notification `IAILoggerDidAddConsoleLog`: they are payload and notification plumbing, and the pruning policy does not read them.
- The process-wide `+logger` singleton: the model uses an explicit `Logger` value.
- Which list an entry is added to is not checked against the entry's kind. The original's parameter types do that, and `LogEntry` is one datatype with three variants.
- Whether pruning compares against the current clock or against the new entry's timestamp is not visible in the header. The model compares against the parameter `now`.
