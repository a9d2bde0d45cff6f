# Dungeon spinner: lock-and-key graph

This project models the lock-and-key dungeon graph of `main.py` and proves
properties of it. The graph has three kinds of element:

- rooms (`Node`), which hold key items up to a capacity;
- undirected passages (`Link`) between two rooms, which may require keys up to a capacity;
- key items (`KeyItem`).

The `Graph` owns the rooms and links and runs two algorithms:

- Reachability (`get_available_nodes`) is a fixed-point search from the start
  room. It picks up the keys lying in every room it has reached and crosses
  every link whose keys are all on the key ring. It restarts the scan whenever
  a new key or room turns up.
- Key placement (`place_key_item`) locks a random link that has room for a
  lock, then recomputes reachability. It puts the key in a random reachable
  room that has space for it. When there is no such room, it takes the lock
  off again.

Modules:

- `KeyItems`: the `KeyItem` class. Keys are objects, so two keys are equal
  exactly when they are the same object, as in Python, where `KeyItem` defines
  no equality of its own.
- `LinkIds`: the link id `"<a>/<b>"` built from the two sorted room names.
  Python's string `<` is modelled as lexicographic order by code point.
- `Elements`: `Node` and `Link` as values, link destinations, and the list
  operations these use (`list.remove` removes the first occurrence).
- `Collections`: list-to-set helpers and the counting fact behind `validate`.
- `Reachability`: which rooms a player can reach. A room set is *closed*
  when it holds the start room and every link out of it that its keys open
  leads back into it. A room is *reachable* when it lies in every closed room
  set.
- `Dungeon`: the `Graph` class.

Design of the model:

- Rooms and links are indices into the sequences `Graph.nodes` and
  `Graph.links`, not objects that point at each other. The graph's own
  methods update the stored values in place.
- `Graph.Valid()` is the graph invariant:
  - every link joins two existing rooms;
  - each room lists exactly the links touching it, in the order they were made;
  - no room holds more keys, and no link more locks, than its capacity;
  - every link has lock capacity 1, which is what `link_nodes` gives it;
  - the start room exists when it is set.
- The source's `assert` statements are programming-error checks that nothing
  handles. They become preconditions.
- `random.choice` is a nondeterministic choice (`:|`). The contracts hold
  whichever link and room are picked.

Proved about `get_available_nodes`:

- the loop terminates, because every restart follows a new room or a new key,
  and both are bounded by the graph's contents;
- the result starts with the start room and lists each room once;
- the result is closed and lies in every closed set, so a room is in it
  exactly when it is reachable.

Proved about `place_key_item`:

- on success, exactly one link that had room for a lock gained the key as a
  lock, and exactly one room gained the key;
- that room was reachable with the new lock in place and had space for the key;
- every room that was reachable before is still reachable;
- on failure, the rooms and links are exactly as before, and the last link
  tried left no reachable room with space for the key;
- the graph invariant holds afterwards in both cases.

## Model

| member | source | states |
|---|---|---|
| KeyItems.KeyItem.constructor | main.py:145-154 | a new key keeps its id and reusable flag, is unused, and so can be used |
| KeyItems.KeyItem.CanUse | main.py:153-154 | a reusable key can always be used, and any other key exactly while it is unused |
| LinkIds.LexLt | main.py:121 | Python's string `<`: no string is below itself, and a proper prefix is below the longer string |
| LinkIds.NodeLabel | main.py:104-105 | a room prints as `Node ` followed by its id |
| LinkIds.NodeLabelInjective | main.py:104-105 | rooms with different ids print differently |
| LinkIds.LinkId | main.py:121 | the id is the two names joined by `/`, the smaller name first |
| LinkIds.LexLtAsymmetric | main.py:121 | string order is asymmetric |
| LinkIds.LexLtTrichotomy | main.py:121 | any two strings are ordered one way or the other, or equal |
| LinkIds.SortedPair | main.py:121 | sorting a pair gives the same two names, the smaller one first |
| LinkIds.SortedPairSymmetric | main.py:121 | sorting a pair does not depend on the order it was given in |
| LinkIds.LinkIdSymmetric | main.py:121 | a link id is the same whichever endpoint comes first, and it is the sorted endpoint names joined by `/` |
| Elements.Link.Destination | main.py:131-134 | from one endpoint, the destination is the other endpoint; a link from a room to itself leads back to that room |
| Elements.DestinationInvolutive | main.py:131-134 | the destination is an endpoint, and taking the destination twice gives back the room one started from |
| Elements.FirstIndex | main.py:142 | the first position where an element of the list occurs |
| Elements.RemoveFirst | main.py:142 | `list.remove`: one fewer element, one occurrence of the key fewer, the rest in order around the first occurrence |
| Elements.RemoveFirstAppended | main.py:136-142 | removing a key just appended to a list that did not hold it gives back the list |
| Elements.RequiredKeyRoundTrip | main.py:136-142 | adding a lock and then removing it gives back the link unchanged |
| Elements.AllAvailable | main.py:45-47 | the required-keys loop answers true exactly when every required key is available |
| Collections.BelowCard | main.py:90-91 | there are exactly n room indices below n |
| Collections.DistinctSubsetCard | main.py:90-91 | a duplicate-free list drawn from a set is no longer than the set, and is as long exactly when it covers the set |
| Reachability.UnlockAfterLock | main.py:78-86 | taking the tentative lock off again gives back the link list as it was |
| Reachability.LockShrinksReach | main.py:78-79 | a room reachable with one more lock on a link was reachable without it |
| Reachability.KeysOfPlaced | main.py:82 | putting a key in a room keeps the keys a room set held, and adds that key when the room is in the set |
| Reachability.ClosedBeforeKey | main.py:82 | a room set closed after a key is put in a room was closed before |
| Reachability.ClosedBeforePlacement | main.py:78-82 | a room set that holds the key's room and is closed after the lock and key are placed was closed before either |
| Reachability.PlacementKeepsReach | main.py:74-84 | locking a link and putting its key in a room reachable with the lock in place keeps every previously reachable room reachable |
| Reachability.FoundStep | main.py:63-70 | crossing a link the key ring opens, from a room in every closed set, reaches a room in every closed set |
| Reachability.CrossStep | main.py:63-70 | listing a newly found room keeps what the scan knows: start room first, no duplicates, keys from listed rooms, every listed room in every closed set |
| Reachability.ListRoom | main.py:67-69 | appending a room not yet listed keeps the list duplicate-free and the key ring drawn from listed rooms |
| Reachability.ExploredIsClosed | main.py:54-71 | when a full pass adds nothing, the listed rooms form a closed set and every key they hold is on the key ring |
| Dungeon.FarEnds | main.py:109-111 | the far endpoints of a list of links out of a room: a room occurs exactly when it is another room some link touches, and there is at most one entry per link |
| Dungeon.FarEndsCount | main.py:109-111 | each other room occurs among the far ends once for every link in the list that touches it |
| Dungeon.TwoLinksToOneRoom | main.py:109-111 | two links from room 0 to room 1 list room 1 twice |
| Dungeon.IncidentOfUntouched | main.py:26-29 | a room no link touches has no links, which is the state of a room that was just added |
| Dungeon.Attached | main.py:35-41 | appending a link and listing it at both endpoints keeps the graph invariant |
| Dungeon.Graph.constructor | main.py:21-24 | a new graph has no rooms, no links and no start room |
| Dungeon.Graph.AddNode | main.py:26-29 | appends one room with the given id, no links, no keys and capacity 1, returns its index, and keeps the invariant |
| Dungeon.Graph.SetStartNode | main.py:31-33 | an existing room becomes the start room, and nothing else changes |
| Dungeon.Graph.LinkNodes | main.py:35-41 | appends exactly one link with the sorted-name id, the two endpoints, lock capacity 1 and the given keys, lists it once at each endpoint (twice for a link from a room to itself), and changes nothing else |
| Dungeon.Graph.EvaluateLink | main.py:43-47 | a link passes exactly when every key it requires is available, and a link with no lock always passes |
| Dungeon.Graph.CollectKeys | main.py:57-61 | the first inner loop puts every key of the room on the ring, adds only keys from listed rooms, and reports whether the ring grew |
| Dungeon.Graph.CrossLinks | main.py:62-70 | the second inner loop lists the far room of every link out of the room that the ring opens, keeps the scan state, and reports whether the list grew |
| Dungeon.Graph.GetAvailableNodes | main.py:49-72 | terminates; returns a duplicate-free list of rooms that starts with the start room, is closed, and lies in every closed set; a room is listed exactly when it is reachable |
| Dungeon.Graph.Validate | main.py:90-91 | true exactly when every room of the graph is reachable |
| Dungeon.Graph.OpenLinks | main.py:75 | lists exactly the links with room for one more lock |
| Dungeon.Graph.NodesWithSpareCapacity | main.py:79 | lists exactly the given rooms that have space for one more key |
| Dungeon.Graph.AddKeyItem | main.py:114-116 | the room holds one more key at the end of its list, and the invariant is kept |
| Dungeon.Graph.AddRequiredKey | main.py:136-138 | the link gains one lock at the end of its list, and the invariant is kept |
| Dungeon.Graph.RemoveRequiredKey | main.py:140-142 | the first lock by that key is taken off the link, and the invariant is kept |
| Dungeon.Graph.TryLock | main.py:77-87 | one attempt: either the link gained the lock and one reachable room with space gained the key, or nothing changed and no reachable room had space |
| Dungeon.Graph.PlaceKeyItem | main.py:74-88 | on success, one link that had room for a lock gained the key, one room that was reachable with the lock and had space gained it, and no previously reachable room is lost; on failure, rooms and links are unchanged and the last link tried left no room for the key; the invariant is kept |
| Dungeon.Graph.LinkedNodes | main.py:107-112 | the list is the far ends of the room's links in order; a room other than this one is listed as many times as the room's links touch it, so exactly when some link joins the two |

## Left out

- Logging (`logging.basicConfig` and the message on a successful placement): output only.
- The `test()` demo graph and its `print` calls: a hand-built fixture with console output.
- `random` as a real random number generator and its seeding: each pick is a nondeterministic choice.
- The `parent` back-pointers of rooms and links, and the empty `GraphElement` base class: no behaviour depends on them.
- `__str__` of the key item and the link: only the room's printed name (`NodeLabel`) enters the model, through the link id.
- `KeyItem.used` and `reusable` beyond `can_use`: nothing in this code consumes keys, and `can_use` is never called.
- Dungeon.Graph.PlaceKeyItem: with `try_again_on_failure` the source picks again from the same list of links after a failure, so it loops forever when every link fails. The model gives up after `retryBudget` extra attempts and returns false.
- Dungeon.Graph.LinkNodes: the source keeps the caller's `required_keys` list itself, so later changes made through either name are shared. The model copies the list's contents.
- The source's `assert` failures: each `assert` is a precondition, so the model has no path on which it fails.
- Capacities other than the defaults: `link_nodes` and `add_node` always use capacity 1, and the invariant fixes the lock capacity at 1.
- Graph growth from configuration, regions, region-affine keys, adding an extra lock for a key that is already placed, and an orchestrator that retries whole attempts: none of these is in this code. In particular, a failed link is not excluded from later picks.
