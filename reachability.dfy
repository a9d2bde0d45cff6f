/** What it means for a room to be reachable from the start room when keys
    are collected on the way: membership in every room set that is closed
    under picking up keys and crossing the links those keys open. */
module Reachability {
  import opened KeyItems
  import opened Elements
  import opened Collections

  /** Every link joins two existing rooms, and every link a room lists exists
      and touches that room. */
  ghost predicate WellFormed(nodes: seq<Node>, links: seq<Link>)
  {
    (forall l :: 0 <= l < |links| ==> links[l].connected.0 < |nodes| && links[l].connected.1 < |nodes|) &&
    (forall n, p {:trigger nodes[n].links[p]} :: 0 <= n < |nodes| && 0 <= p < |nodes[n].links| ==>
       nodes[n].links[p] < |links| && links[nodes[n].links[p]].HasEnd(n))
  }

  /** The keys lying in the given rooms. */
  ghost function KeysOf(nodes: seq<Node>, rooms: set<nat>): set<KeyItem>
  {
    set n, k | n in rooms && n < |nodes| && k in nodes[n].keyItems :: k
  }

  /** Every lock on the link is opened by a key of `keys`. */
  ghost predicate Unlocked(link: Link, keys: set<KeyItem>)
  {
    forall k :: k in link.requiredKeys ==> k in keys
  }

  /** The `p`-th link of room `n` exists, touches `n` and is opened by `keys`. */
  ghost predicate Passable(nodes: seq<Node>, links: seq<Link>, n: nat, p: nat, keys: set<KeyItem>)
  {
    n < |nodes| && p < |nodes[n].links| && nodes[n].links[p] < |links| &&
    links[nodes[n].links[p]].HasEnd(n) && Unlocked(links[nodes[n].links[p]], keys)
  }

  /** The room at the far side of the `p`-th link of room `n`. */
  function Across(nodes: seq<Node>, links: seq<Link>, n: nat, p: nat): nat
    requires n < |nodes| && p < |nodes[n].links| && nodes[n].links[p] < |links|
    requires links[nodes[n].links[p]].HasEnd(n)
  {
    links[nodes[n].links[p]].Destination(n)
  }

  /** `rooms` holds the start room, and every link out of it that the keys
      lying in `rooms` open leads back into `rooms`. */
  ghost predicate Closed(nodes: seq<Node>, links: seq<Link>, start: nat, rooms: set<nat>)
  {
    start in rooms &&
    forall n, p :: n in rooms && Passable(nodes, links, n, p, KeysOf(nodes, rooms)) ==>
      Across(nodes, links, n, p) in rooms
  }

  /** Room `n` lies in every closed room set: a player starting in `start`
      with no keys can get to it. */
  ghost predicate IsReachable(nodes: seq<Node>, links: seq<Link>, start: nat, n: nat)
  {
    forall rooms :: Closed(nodes, links, start, rooms) ==> n in rooms
  }

  /** No reachable room has space for one more key. */
  ghost predicate NoRoomFor(nodes: seq<Node>, links: seq<Link>, start: nat)
  {
    forall n :: 0 <= n < |nodes| && IsReachable(nodes, links, start, n) ==> !nodes[n].HasSpareCapacity()
  }

  /** `links` with one more lock on link `l`. */
  function Lock(links: seq<Link>, l: nat, keyItem: KeyItem): (r: seq<Link>)
    requires l < |links|
  {
    links[l := WithRequiredKey(links[l], keyItem)]
  }

  /** Taking the lock just added off again gives back the links as they were. */
  lemma UnlockAfterLock(links: seq<Link>, l: nat, keyItem: KeyItem)
    requires l < |links| && keyItem !in links[l].requiredKeys
    ensures keyItem in Lock(links, l, keyItem)[l].requiredKeys
    ensures Lock(links, l, keyItem)[l := WithoutRequiredKey(Lock(links, l, keyItem)[l], keyItem)] == links
  {
    RequiredKeyRoundTrip(links[l], keyItem);
  }

  /** Adding a lock never makes a room reachable that was not reachable
      before; equivalently, removing a lock never shrinks the reachable set. */
  lemma LockShrinksReach(nodes: seq<Node>, links: seq<Link>, start: nat, l: nat, keyItem: KeyItem, n: nat)
    requires l < |links|
    requires IsReachable(nodes, Lock(links, l, keyItem), start, n)
    ensures IsReachable(nodes, links, start, n)
  {
    var locked := Lock(links, l, keyItem);
    forall rooms | Closed(nodes, links, start, rooms)
      ensures n in rooms
    {
      var keys := KeysOf(nodes, rooms);
      forall m: nat, p: nat | m in rooms && Passable(nodes, locked, m, p, keys)
        ensures Across(nodes, locked, m, p) in rooms
      {
        var q := nodes[m].links[p];
        assert locked[q].connected == links[q].connected;
        assert Passable(nodes, links, m, p, keys);
      }
      assert Closed(nodes, locked, start, rooms);
    }
  }

  /** Putting a key in room `r` keeps every key the rooms held, and adds that
      key when `r` is one of them. */
  lemma KeysOfPlaced(nodes: seq<Node>, r: nat, keyItem: KeyItem, rooms: set<nat>)
    requires r < |nodes|
    ensures KeysOf(nodes, rooms) <= KeysOf(nodes[r := WithKeyItem(nodes[r], keyItem)], rooms)
    ensures r in rooms ==> keyItem in KeysOf(nodes[r := WithKeyItem(nodes[r], keyItem)], rooms)
  {
    var placed := nodes[r := WithKeyItem(nodes[r], keyItem)];
    forall k | k in KeysOf(nodes, rooms)
      ensures k in KeysOf(placed, rooms)
    {
      var m :| m in rooms && m < |nodes| && k in nodes[m].keyItems;
      assert k in placed[m].keyItems;
    }
    if r in rooms {
      assert keyItem in placed[r].keyItems;
    }
  }

  /** A room set that holds the key's room and is closed once the key lies
      there and its lock is on link `l` is closed for the rooms and links as
      they were before: the key opens that lock, and no other lock changed. */
  lemma ClosedBeforePlacement(nodes: seq<Node>, links: seq<Link>, start: nat, l: nat, keyItem: KeyItem, r: nat, rooms: set<nat>)
    requires l < |links| && r < |nodes| && r in rooms
    requires Closed(nodes[r := WithKeyItem(nodes[r], keyItem)], Lock(links, l, keyItem), start, rooms)
    ensures Closed(nodes, links, start, rooms)
  {
    var locked := Lock(links, l, keyItem);
    var placed := nodes[r := WithKeyItem(nodes[r], keyItem)];
    var keys := KeysOf(nodes, rooms);
    var keys' := KeysOf(placed, rooms);
    KeysOfPlaced(nodes, r, keyItem, rooms);
    forall m: nat, p: nat | m in rooms && Passable(nodes, links, m, p, keys)
      ensures Across(nodes, links, m, p) in rooms
    {
      var q := nodes[m].links[p];
      assert locked[q].connected == links[q].connected;
      assert Passable(placed, locked, m, p, keys');
    }
  }

  /** The same for the rooms as they were, with the lock in place. */
  lemma ClosedBeforeKey(nodes: seq<Node>, links: seq<Link>, start: nat, r: nat, keyItem: KeyItem, rooms: set<nat>)
    requires r < |nodes|
    requires Closed(nodes[r := WithKeyItem(nodes[r], keyItem)], links, start, rooms)
    ensures Closed(nodes, links, start, rooms)
  {
    var placed := nodes[r := WithKeyItem(nodes[r], keyItem)];
    KeysOfPlaced(nodes, r, keyItem, rooms);
    forall m: nat, p: nat | m in rooms && Passable(nodes, links, m, p, KeysOf(nodes, rooms))
      ensures Across(nodes, links, m, p) in rooms
    {
      assert Passable(placed, links, m, p, KeysOf(placed, rooms));
    }
  }

  /** Locking link `l` with a key and then putting that key in a room that is
      reachable with the lock in place loses no room: every room reachable
      before is reachable afterwards. */
  lemma PlacementKeepsReach(nodes: seq<Node>, links: seq<Link>, start: nat, l: nat, keyItem: KeyItem, r: nat, n: nat)
    requires l < |links| && r < |nodes|
    requires IsReachable(nodes, Lock(links, l, keyItem), start, r)
    requires IsReachable(nodes, links, start, n)
    ensures IsReachable(nodes[r := WithKeyItem(nodes[r], keyItem)], Lock(links, l, keyItem), start, n)
  {
    forall rooms | Closed(nodes[r := WithKeyItem(nodes[r], keyItem)], Lock(links, l, keyItem), start, rooms)
      ensures n in rooms
    {
      ClosedBeforeKey(nodes, Lock(links, l, keyItem), start, r, keyItem, rooms);
      ClosedBeforePlacement(nodes, links, start, l, keyItem, r, rooms);
    }
  }

  /** Room `n` has been scanned: its keys are on the ring and every link out
      of it that the ring opens leads to a listed room. */
  ghost predicate Explored(nodes: seq<Node>, links: seq<Link>, n: nat, available: seq<nat>, keys: seq<KeyItem>)
  {
    n < |nodes| &&
    (forall k :: k in nodes[n].keyItems ==> k in keys) &&
    (forall p ::
       (0 <= p < |nodes[n].links| && nodes[n].links[p] < |links| && links[nodes[n].links[p]].HasEnd(n) &&
        AllAvailable(links[nodes[n].links[p]].requiredKeys, keys)) ==>
       Across(nodes, links, n, p) in available)
  }

  /** Everything the scan has found lies in every closed room set. */
  ghost predicate Found(nodes: seq<Node>, links: seq<Link>, start: nat, available: seq<nat>)
  {
    forall rooms :: Closed(nodes, links, start, rooms) ==> Elems(available) <= rooms
  }

  /** The key ring holds only keys lying in listed rooms. */
  ghost predicate KeysFromRooms(nodes: seq<Node>, available: seq<nat>, keys: seq<KeyItem>)
  {
    forall k :: k in keys ==> k in KeysOf(nodes, Elems(available))
  }

  /** Crossing an open link out of a found room finds a room that every closed
      set holds too. */
  lemma FoundStep(nodes: seq<Node>, links: seq<Link>, start: nat, available: seq<nat>, keys: seq<KeyItem>, n: nat, p: nat)
    requires Found(nodes, links, start, available) && KeysFromRooms(nodes, available, keys)
    requires n in available && n < |nodes| && p < |nodes[n].links| && nodes[n].links[p] < |links|
    requires links[nodes[n].links[p]].HasEnd(n)
    requires AllAvailable(links[nodes[n].links[p]].requiredKeys, keys)
    ensures Found(nodes, links, start, available + [Across(nodes, links, n, p)])
  {
    var m := Across(nodes, links, n, p);
    forall rooms | Closed(nodes, links, start, rooms)
      ensures Elems(available + [m]) <= rooms
    {
      assert Elems(available) <= rooms;
      assert KeysOf(nodes, Elems(available)) <= KeysOf(nodes, rooms);
      assert Passable(nodes, links, n, p, KeysOf(nodes, rooms));
      assert Elems(available + [m]) == Elems(available) + {m};
    }
  }

  /** What holds of the scan's lists at every step: the start room comes
      first, the rooms are existing and listed once, the key ring comes from
      listed rooms, and every listed room is in every closed set. */
  ghost predicate ScanState(nodes: seq<Node>, links: seq<Link>, start: nat, available: seq<nat>, keys: seq<KeyItem>)
  {
    |available| > 0 && available[0] == start &&
    (forall n :: n in available ==> n < |nodes|) &&
    Distinct(available) &&
    KeysFromRooms(nodes, available, keys) &&
    Found(nodes, links, start, available)
  }

  /** Crossing an open link from a listed room to an unlisted one keeps the
      scan state. */
  lemma CrossStep(nodes: seq<Node>, links: seq<Link>, start: nat, available: seq<nat>, keys: seq<KeyItem>, n: nat, p: nat)
    requires WellFormed(nodes, links) && ScanState(nodes, links, start, available, keys)
    requires n in available && p < |nodes[n].links|
    requires AllAvailable(links[nodes[n].links[p]].requiredKeys, keys)
    requires Across(nodes, links, n, p) !in available
    ensures ScanState(nodes, links, start, available + [Across(nodes, links, n, p)], keys)
    ensures Elems(available + [Across(nodes, links, n, p)]) == Elems(available) + {Across(nodes, links, n, p)}
  {
    FoundStep(nodes, links, start, available, keys, n, p);
    ListRoom(nodes, available, keys, Across(nodes, links, n, p));
  }

  /** Listing a room not yet listed keeps the list duplicate-free and keeps
      the key ring drawn from listed rooms. */
  lemma ListRoom(nodes: seq<Node>, available: seq<nat>, keys: seq<KeyItem>, m: nat)
    requires Distinct(available) && m !in available
    requires KeysFromRooms(nodes, available, keys)
    ensures Distinct(available + [m])
    ensures KeysFromRooms(nodes, available + [m], keys)
    ensures Elems(available + [m]) == Elems(available) + {m}
  {
    assert Elems(available + [m]) == Elems(available) + {m};
    forall k | k in keys
      ensures k in KeysOf(nodes, Elems(available + [m]))
    {
      assert k in KeysOf(nodes, Elems(available));
    }
  }

  /** A scan that has explored every listed room has reached a closed set. */
  lemma ExploredIsClosed(nodes: seq<Node>, links: seq<Link>, start: nat, available: seq<nat>, keys: seq<KeyItem>)
    requires start in available
    requires forall i :: 0 <= i < |available| ==> Explored(nodes, links, available[i], available, keys)
    ensures Closed(nodes, links, start, Elems(available))
    ensures KeysOf(nodes, Elems(available)) <= Elems(keys)
  {
    var rooms := Elems(available);
    forall k | k in KeysOf(nodes, rooms)
      ensures k in Elems(keys)
    {
      var m :| m in rooms && m < |nodes| && k in nodes[m].keyItems;
      var i :| 0 <= i < |available| && available[i] == m;
      assert Explored(nodes, links, m, available, keys);
    }
    forall n: nat, p: nat | n in rooms && Passable(nodes, links, n, p, KeysOf(nodes, rooms))
      ensures Across(nodes, links, n, p) in rooms
    {
      var i :| 0 <= i < |available| && available[i] == n;
      assert Explored(nodes, links, n, available, keys);
      assert AllAvailable(links[nodes[n].links[p]].requiredKeys, keys);
    }
  }
}
