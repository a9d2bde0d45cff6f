/** The dungeon graph: it owns every room and link, and finds where a key can
    be placed so that every room stays reachable. */
module Dungeon {
  import opened KeyItems
  import opened LinkIds
  import opened Collections
  import opened Elements
  import opened Reachability

  /** The endpoint pairs of the links, in order. */
  function Ends(links: seq<Link>): (r: seq<(nat, nat)>)
    ensures |r| == |links| && forall l :: 0 <= l < |links| ==> r[l] == links[l].connected
  {
    seq(|links|, l requires 0 <= l < |links| => links[l].connected)
  }

  /** Which of the endpoints of link number `l` are the room `n`. */
  function Hits(e: (nat, nat), l: nat, n: nat): seq<nat>
  {
    (if e.0 == n then [l] else []) + (if e.1 == n then [l] else [])
  }

  /** The links touching room `n`, in the order they were made; a link from a
      room to itself is listed twice. */
  function Incident(ends: seq<(nat, nat)>, n: nat): seq<nat>
  {
    if |ends| == 0 then []
    else Incident(ends[..|ends| - 1], n) + Hits(ends[|ends| - 1], |ends| - 1, n)
  }

  /** A room no link touches has no incident links. */
  lemma {:induction false} IncidentOfUntouched(ends: seq<(nat, nat)>, n: nat)
    requires forall i :: 0 <= i < |ends| ==> ends[i].0 != n && ends[i].1 != n
    ensures Incident(ends, n) == []
  {
    if |ends| > 0 {
      IncidentOfUntouched(ends[..|ends| - 1], n);
    }
  }

  /** The endpoints other than `node` of the links `ls`, in order: one for
      each link out of `node` to another room, none for a link from `node` to
      itself. */
  function FarEnds(links: seq<Link>, ls: seq<nat>, node: nat): (r: seq<nat>)
    requires forall p :: 0 <= p < |ls| ==> ls[p] < |links|
    ensures forall m :: m in r <==> m != node && exists p :: 0 <= p < |ls| && links[ls[p]].HasEnd(m)
    ensures (forall p :: 0 <= p < |ls| ==> links[ls[p]].HasEnd(node)) ==> |r| <= |ls|
  {
    if |ls| == 0 then []
    else
      var front := ls[..|ls| - 1];
      var e := links[ls[|ls| - 1]].connected;
      assert forall p :: 0 <= p < |front| ==> front[p] == ls[p];
      FarEnds(links, front, node) + (if e.0 != node then [e.0] else []) + (if e.1 != node then [e.1] else [])
  }

  /** How many of the links `ls` have `m` as an endpoint. */
  function Touching(links: seq<Link>, ls: seq<nat>, m: nat): nat
    requires forall p :: 0 <= p < |ls| ==> ls[p] < |links|
  {
    if |ls| == 0 then 0
    else Touching(links, ls[..|ls| - 1], m) + (if links[ls[|ls| - 1]].HasEnd(m) then 1 else 0)
  }

  /** Every copy of a room among the far ends comes from one link out of
      `node` that is not a link to itself: two links to the same room give it
      twice. */
  lemma {:induction false} FarEndsCount(links: seq<Link>, ls: seq<nat>, node: nat, m: nat)
    requires forall p :: 0 <= p < |ls| ==> ls[p] < |links| && links[ls[p]].HasEnd(node)
    requires m != node
    ensures multiset(FarEnds(links, ls, node))[m] == Touching(links, ls, m)
  {
    if |ls| > 0 {
      var front := ls[..|ls| - 1];
      assert forall p :: 0 <= p < |front| ==> front[p] == ls[p];
      FarEndsCount(links, front, node, m);
    }
  }

  /** Two links from room 0 to room 1 list room 1 twice. */
  lemma TwoLinksToOneRoom()
    ensures FarEnds([Link("a", (0, 1), 1, []), Link("b", (0, 1), 1, [])], [0, 1], 0) == [1, 1]
  {
    var links := [Link("a", (0, 1), 1, []), Link("b", (0, 1), 1, [])];
    assert [0, 1][..1] == [0];
    assert FarEnds(links, [0], 0) == [1];
  }

  /** The scan has found a new room, or a new key and no new room. */
  ghost predicate Grew(nodes0: seq<nat>, keys0: seq<KeyItem>, nodes1: seq<nat>, keys1: seq<KeyItem>)
  {
    Elems(nodes0) < Elems(nodes1) || (Elems(nodes0) == Elems(nodes1) && Elems(keys0) < Elems(keys1))
  }

  /** The graph invariant: links join existing rooms, each room lists exactly
      the links touching it, no room or link is over capacity, and the start
      room exists. */
  ghost predicate GraphInvariant(nodes: seq<Node>, links: seq<Link>, start: Option<nat>)
  {
    WellFormed(nodes, links) &&
    (forall n :: 0 <= n < |nodes| ==> nodes[n].links == Incident(Ends(links), n)) &&
    (forall n :: 0 <= n < |nodes| ==> |nodes[n].keyItems| <= nodes[n].maxKeyItems) &&
    (forall l :: 0 <= l < |links| ==>
       links[l].maxRequiredKeys == DefaultMaxRequiredKeys && |links[l].requiredKeys| <= links[l].maxRequiredKeys) &&
    (start.Some? ==> start.value < |nodes|)
  }

  /** Appending a link and listing it at both endpoints keeps the graph
      invariant. */
  lemma Attached(nodes0: seq<Node>, links0: seq<Link>, start: Option<nat>, link: Link, nodes1: seq<Node>)
    requires GraphInvariant(nodes0, links0, start)
    requires link.connected.0 < |nodes0| && link.connected.1 < |nodes0|
    requires link.maxRequiredKeys == DefaultMaxRequiredKeys && |link.requiredKeys| <= link.maxRequiredKeys
    requires |nodes1| == |nodes0|
    requires forall n :: 0 <= n < |nodes1| ==>
      nodes1[n] == nodes0[n].(links := nodes0[n].links + Hits(link.connected, |links0|, n))
    ensures GraphInvariant(nodes1, links0 + [link], start)
  {
    var links1 := links0 + [link];
    assert Ends(links1)[..|links0|] == Ends(links0);
    forall n, p | 0 <= n < |nodes1| && 0 <= p < |nodes1[n].links|
      ensures nodes1[n].links[p] < |links1| && links1[nodes1[n].links[p]].HasEnd(n)
    {
      if p < |nodes0[n].links| {
        assert nodes1[n].links[p] == nodes0[n].links[p];
      } else {
        assert nodes1[n].links[p] == |links0|;
      }
    }
  }

  class Graph {
    var nodes: seq<Node>
    var links: seq<Link>
    var start: Option<nat>

    ghost predicate Valid()
      reads this
    {
      GraphInvariant(nodes, links, start)
    }

    constructor ()
      ensures Valid()
      ensures nodes == [] && links == [] && start == None
    {
      nodes, links, start := [], [], None;
    }

    /** `add_node`: append a room without links or keys; return its index. */
    method AddNode(id: string := "null") returns (node: nat)
      requires Valid()
      modifies this
      ensures Valid()
      ensures node == |old(nodes)| && nodes == old(nodes) + [Node(id, [], DefaultMaxKeyItems, [])]
      ensures links == old(links) && start == old(start)
    {
      IncidentOfUntouched(Ends(links), |nodes|);
      node := |nodes|;
      nodes := nodes + [Node(id, [], DefaultMaxKeyItems, [])];
    }

    /** `set_start_node`. */
    method SetStartNode(node: nat)
      requires Valid() && node < |nodes|
      modifies this
      ensures Valid()
      ensures start == Some(node) && nodes == old(nodes) && links == old(links)
    {
      start := Some(node);
    }

    /** `link_nodes`: append one link to the graph and to the link list of
        each endpoint, and change nothing else. */
    method LinkNodes(node1: nat, node2: nat, requiredKeys: seq<KeyItem> := [])
      requires Valid() && node1 < |nodes| && node2 < |nodes|
      requires |requiredKeys| <= DefaultMaxRequiredKeys
      modifies this
      ensures Valid() && start == old(start)
      ensures links == old(links) + [Link(LinkId(NodeLabel(old(nodes[node1].id)), NodeLabel(old(nodes[node2].id))),
                                          (node1, node2), DefaultMaxRequiredKeys, requiredKeys)]
      ensures |nodes| == |old(nodes)|
      ensures forall n :: 0 <= n < |nodes| ==>
        nodes[n] == old(nodes[n]).(links := old(nodes[n].links) + (if n == node1 then [|old(links)|] else [])
                                                                  + (if n == node2 then [|old(links)|] else []))
    {
      var l := |links|;
      var newLink := Link(LinkId(NodeLabel(nodes[node1].id), NodeLabel(nodes[node2].id)),
                          (node1, node2), DefaultMaxRequiredKeys, requiredKeys);
      ghost var oldNodes, oldLinks := nodes, links;
      links := links + [newLink];
      nodes := nodes[node1 := nodes[node1].(links := nodes[node1].links + [l])];
      nodes := nodes[node2 := nodes[node2].(links := nodes[node2].links + [l])];
      forall n | 0 <= n < |nodes|
        ensures nodes[n] == oldNodes[n].(links := oldNodes[n].links + Hits((node1, node2), l, n))
      {
      }
      Attached(oldNodes, oldLinks, start, newLink, nodes);
    }

    /** `evaluate_link`: the link can be crossed with the available keys. */
    function EvaluateLink(link: nat, availableKeys: seq<KeyItem>): (r: bool)
      reads this
      requires link < |links|
      ensures r <==> forall k :: k in links[link].requiredKeys ==> k in availableKeys
      ensures links[link].requiredKeys == [] ==> r
    {
      AllAvailable(links[link].requiredKeys, availableKeys)
    }

    /** The first inner loop of `get_available_nodes`: put the keys lying in
        `node` on the key ring, reporting whether any was new. */
    method CollectKeys(node: nat, ghost availableNodes: seq<nat>, availableKeys: seq<KeyItem>)
      returns (keys: seq<KeyItem>, added: bool)
      requires WellFormed(nodes, links) && node in availableNodes
      requires forall n :: n in availableNodes ==> n < |nodes|
      requires KeysFromRooms(nodes, availableNodes, availableKeys)
      ensures KeysFromRooms(nodes, availableNodes, keys)
      ensures forall k :: k in nodes[node].keyItems ==> k in keys
      ensures Elems(availableKeys) <= Elems(keys)
      ensures !added ==> keys == availableKeys
      ensures added ==> Elems(availableKeys) < Elems(keys)
    {
      keys, added := availableKeys, false;
      var items := nodes[node].keyItems;
      var j := 0;
      while j < |items|
        invariant 0 <= j <= |items|
        invariant Elems(availableKeys) <= Elems(keys)
        invariant KeysFromRooms(nodes, availableNodes, keys)
        invariant forall q :: 0 <= q < j ==> items[q] in keys
        invariant !added ==> keys == availableKeys
        invariant added ==> Elems(availableKeys) < Elems(keys)
      {
        var key := items[j];
        if key !in keys {
          assert key in KeysOf(nodes, Elems(availableNodes)) by {
            assert node in Elems(availableNodes) && node < |nodes| && key in nodes[node].keyItems;
          }
          assert key !in Elems(availableKeys);
          ghost var before := keys;
          keys := keys + [key];
          assert Elems(keys) == Elems(before) + {key};
          added := true;
        }
        j := j + 1;
      }
    }

    /** The second inner loop of `get_available_nodes`: list the far room of
        every link out of `node` that the key ring opens, reporting whether any
        room was new. */
    method CrossLinks(node: nat, availableNodes: seq<nat>, availableKeys: seq<KeyItem>)
      returns (found: seq<nat>, added: bool)
      requires WellFormed(nodes, links) && start.Some? && node in availableNodes
      requires ScanState(nodes, links, start.value, availableNodes, availableKeys)
      ensures ScanState(nodes, links, start.value, found, availableKeys)
      ensures forall p ::
                (0 <= p < |nodes[node].links| && AllAvailable(links[nodes[node].links[p]].requiredKeys, availableKeys)) ==>
                Across(nodes, links, node, p) in found
      ensures !added ==> found == availableNodes
      ensures added ==> Elems(availableNodes) < Elems(found)
    {
      var st := start.value;
      found, added := availableNodes, false;
      var ls := nodes[node].links;
      var j := 0;
      while j < |ls|
        invariant 0 <= j <= |ls|
        invariant ScanState(nodes, links, st, found, availableKeys)
        invariant Elems(availableNodes) <= Elems(found) && node in found
        invariant forall q :: 0 <= q < j && AllAvailable(links[ls[q]].requiredKeys, availableKeys) ==>
          Across(nodes, links, node, q) in found
        invariant !added ==> found == availableNodes
        invariant added ==> Elems(availableNodes) < Elems(found)
      {
        var l := ls[j];
        if EvaluateLink(l, availableKeys) {
          var other := links[l].Destination(node);
          if other !in found {
            CrossStep(nodes, links, st, found, availableKeys, node, j);
            assert other !in Elems(availableNodes);
            found := found + [other];
            added := true;
          }
        }
        j := j + 1;
      }
    }

    /** `get_available_nodes`: the rooms reachable from the start room, each
        once, start room first. The result is closed (a fixed point of
        collecting keys and crossing open links) and lies inside every closed
        room set, so it is exactly the set of reachable rooms. */
    method GetAvailableNodes() returns (availableNodes: seq<nat>)
      requires Valid() && start.Some?
      ensures |availableNodes| > 0 && availableNodes[0] == start.value
      ensures Distinct(availableNodes)
      ensures forall n :: n in availableNodes ==> n < |nodes|
      ensures Closed(nodes, links, start.value, Elems(availableNodes))
      ensures forall rooms :: Closed(nodes, links, start.value, rooms) ==> Elems(availableNodes) <= rooms
      ensures forall n :: n in availableNodes <==> IsReachable(nodes, links, start.value, n)
    {
      var st := start.value;
      var availableKeys: seq<KeyItem> := [];
      availableNodes := [st];
      var finished := false;
      assert Found(nodes, links, st, availableNodes) by {
        assert Elems(availableNodes) == {st};
      }
      while !finished
        invariant ScanState(nodes, links, st, availableNodes, availableKeys)
        invariant finished ==>
          forall i :: 0 <= i < |availableNodes| ==> Explored(nodes, links, availableNodes[i], availableNodes, availableKeys)
        decreases Below(|nodes|) - Elems(availableNodes),
                  KeysOf(nodes, Below(|nodes|)) - Elems(availableKeys),
                  if finished then 0 else 1
      {
        finished := true;
        ghost var nodes0, keys0 := availableNodes, availableKeys;
        var i := 0;
        while i < |availableNodes|
          invariant 0 <= i <= |availableNodes|
          invariant finished && availableNodes == nodes0 && availableKeys == keys0
          invariant forall p :: 0 <= p < i ==> Explored(nodes, links, availableNodes[p], availableNodes, availableKeys)
        {
          var node := availableNodes[i];
          assert node in nodes0;
          var newKey, newNode;
          availableKeys, newKey := CollectKeys(node, availableNodes, availableKeys);
          availableNodes, newNode := CrossLinks(node, availableNodes, availableKeys);
          if newKey || newNode {
            finished := false;
            break;
          }
          assert Explored(nodes, links, node, availableNodes, availableKeys);
          i := i + 1;
        }
        assert !finished ==> Grew(nodes0, keys0, availableNodes, availableKeys);
      }
      ExploredIsClosed(nodes, links, st, availableNodes, availableKeys);
    }

    /** `validate`: every room of the graph is reachable from the start room.
        The reachable list is duplicate-free, so this is the same as its
        length being the number of rooms. */
    method Validate() returns (valid: bool)
      requires Valid() && start.Some?
      ensures valid <==> forall n :: 0 <= n < |nodes| ==> IsReachable(nodes, links, start.value, n)
    {
      var availableNodes := GetAvailableNodes();
      valid := |availableNodes| == |nodes|;
      BelowCard(|nodes|);
      DistinctSubsetCard(availableNodes, Below(|nodes|));
    }

    /** The links with room for one more lock, in order (the candidate locks
        of `place_key_item`). */
    function OpenLinks(): (r: seq<nat>)
      reads this
      ensures forall l: nat :: l in r <==> l < |links| && links[l].HasSpareLock()
    {
      OpenLinksBelow(|links|)
    }

    function OpenLinksBelow(m: nat): (r: seq<nat>)
      reads this
      requires m <= |links|
      ensures forall l: nat :: l in r <==> l < m && links[l].HasSpareLock()
    {
      if m == 0 then []
      else OpenLinksBelow(m - 1) + (if links[m - 1].HasSpareLock() then [m - 1] else [])
    }

    /** The candidate rooms of `place_key_item`: those of `candidates` with
        room for one more key, in order. */
    function NodesWithSpareCapacity(candidates: seq<nat>): (r: seq<nat>)
      reads this
      requires forall n :: n in candidates ==> n < |nodes|
      ensures forall n :: n in r <==> n in candidates && nodes[n].HasSpareCapacity()
    {
      if |candidates| == 0 then []
      else
        assert candidates[0] in candidates;
        assert forall n :: n in candidates[1..] ==> n in candidates;
        (if nodes[candidates[0]].HasSpareCapacity() then [candidates[0]] else [])
        + NodesWithSpareCapacity(candidates[1..])
    }

    /** `Node.add_key_item`: the room holds one more key. */
    method AddKeyItem(node: nat, keyItem: KeyItem)
      requires Valid() && node < |nodes| && nodes[node].HasSpareCapacity()
      modifies this
      ensures Valid()
      ensures nodes == old(nodes)[node := WithKeyItem(old(nodes[node]), keyItem)]
      ensures links == old(links) && start == old(start)
    {
      nodes := nodes[node := WithKeyItem(nodes[node], keyItem)];
    }

    /** `Link.add_required_key`: the link gets one more lock. */
    method AddRequiredKey(link: nat, keyItem: KeyItem)
      requires Valid() && link < |links| && links[link].HasSpareLock()
      modifies this
      ensures Valid()
      ensures links == Lock(old(links), link, keyItem)
      ensures nodes == old(nodes) && start == old(start)
    {
      ghost var oldEnds := Ends(links);
      links := Lock(links, link, keyItem);
      assert Ends(links) == oldEnds;
    }

    /** `Link.remove_required_key`: the first lock by this key is taken off. */
    method RemoveRequiredKey(link: nat, keyItem: KeyItem)
      requires Valid() && link < |links| && keyItem in links[link].requiredKeys
      modifies this
      ensures Valid()
      ensures links == old(links)[link := WithoutRequiredKey(old(links[link]), keyItem)]
      ensures nodes == old(nodes) && start == old(start)
    {
      ghost var oldEnds := Ends(links);
      links := links[link := WithoutRequiredKey(links[link], keyItem)];
      assert Ends(links) == oldEnds;
    }

    /** One pass of the loop of `place_key_item`, with `link` as the chosen
        lock: lock it with the key and put the key in a room that is reachable
        with the lock in place and has room for it, or take the lock off again
        when there is no such room. */
    method TryLock(link: nat, keyItem: KeyItem) returns (placed: bool, ghost keyRoom: nat)
      requires Valid() && start.Some? && link < |links| && links[link].HasSpareLock()
      modifies this
      ensures Valid() && start == old(start)
      ensures placed ==>
        links == Lock(old(links), link, keyItem) &&
        keyRoom < |old(nodes)| && old(nodes[keyRoom]).HasSpareCapacity() &&
        IsReachable(old(nodes), links, start.value, keyRoom) &&
        nodes == old(nodes)[keyRoom := WithKeyItem(old(nodes[keyRoom]), keyItem)]
      ensures !placed ==>
        nodes == old(nodes) && links == old(links) &&
        NoRoomFor(old(nodes), Lock(old(links), link, keyItem), start.value)
    {
      keyRoom := 0;
      AddRequiredKey(link, keyItem);
      var availableNodes := GetAvailableNodes();
      var nodeOptions := NodesWithSpareCapacity(availableNodes);
      if |nodeOptions| > 0 {
        assert nodeOptions[0] in nodeOptions;
        var selectedNode :| selectedNode in nodeOptions;
        keyRoom := selectedNode;
        AddKeyItem(selectedNode, keyItem);
        placed := true;
      } else {
        assert NoRoomFor(nodes, links, start.value) by {
          forall n | 0 <= n < |nodes| && IsReachable(nodes, links, start.value, n)
            ensures !nodes[n].HasSpareCapacity()
          {
            assert n !in nodeOptions;
          }
        }
        assert old(links[link]).requiredKeys == [];
        UnlockAfterLock(old(links), link, keyItem);
        RemoveRequiredKey(link, keyItem);
        placed := false;
      }
    }

    /** `place_key_item`: lock a link that has room for a lock with the key,
        then put the key in a room reachable with that lock in place that has
        room for it. When no such room exists the lock is taken off again and,
        with retrying on, another link is tried. The two random picks are
        nondeterministic choices; `retryBudget` bounds the number of retries.
        `lockedLink` and `keyRoom` name the picks for the contract. */
    method PlaceKeyItem(keyItem: KeyItem, tryAgainOnFailure: bool := false, retryBudget: nat := 0)
      returns (placed: bool, ghost lockedLink: nat, ghost keyRoom: nat)
      requires Valid() && start.Some?
      modifies this
      ensures Valid() && start == old(start)
      ensures placed ==>
        lockedLink in old(OpenLinks()) && links == Lock(old(links), lockedLink, keyItem)
      ensures placed ==>
        keyRoom < |old(nodes)| && old(nodes[keyRoom]).HasSpareCapacity() &&
        IsReachable(old(nodes), links, start.value, keyRoom) &&
        nodes == old(nodes)[keyRoom := WithKeyItem(old(nodes[keyRoom]), keyItem)]
      ensures placed ==> forall n :: IsReachable(old(nodes), old(links), start.value, n) ==>
        IsReachable(nodes, links, start.value, n)
      ensures !placed ==> nodes == old(nodes) && links == old(links)
      ensures !placed && old(OpenLinks()) != [] ==>
        lockedLink in old(OpenLinks()) && NoRoomFor(old(nodes), Lock(old(links), lockedLink, keyItem), start.value)
    {
      lockedLink, keyRoom := 0, 0;
      var linkOptions := OpenLinks();
      var budget := retryBudget;
      while |linkOptions| > 0
        invariant Valid() && nodes == old(nodes) && links == old(links) && start == old(start)
        invariant linkOptions == old(OpenLinks())
        decreases budget
      {
        assert linkOptions[0] in linkOptions;
        var selectedLink :| selectedLink in linkOptions;
        lockedLink := selectedLink;
        placed, keyRoom := TryLock(selectedLink, keyItem);
        if placed {
          forall n | IsReachable(old(nodes), old(links), start.value, n)
            ensures IsReachable(nodes, links, start.value, n)
          {
            PlacementKeepsReach(old(nodes), old(links), start.value, selectedLink, keyItem, keyRoom, n);
          }
          return;
        }
        if !tryAgainOnFailure || budget == 0 {
          return;
        }
        budget := budget - 1;
      }
      placed := false;
    }

    /** `Node.get_linked_nodes`: the endpoints other than `node` itself of the
        links of `node`, in order, one per link to another room and none for a
        link from `node` to itself. */
    method LinkedNodes(node: nat) returns (linkedNodes: seq<nat>)
      requires Valid() && node < |nodes|
      ensures linkedNodes == FarEnds(links, nodes[node].links, node)
      ensures forall m :: m in linkedNodes <==>
        m != node && exists p :: 0 <= p < |nodes[node].links| && links[nodes[node].links[p]].HasEnd(m)
      ensures forall m :: m != node ==> multiset(linkedNodes)[m] == Touching(links, nodes[node].links, m)
    {
      linkedNodes := [];
      var ls := nodes[node].links;
      var p := 0;
      while p < |ls|
        invariant 0 <= p <= |ls|
        invariant linkedNodes == FarEnds(links, ls[..p], node)
      {
        assert ls[..p + 1][..p] == ls[..p];
        var (a, b) := links[ls[p]].connected;
        if a != node {
          linkedNodes := linkedNodes + [a];
        }
        if b != node {
          linkedNodes := linkedNodes + [b];
        }
        p := p + 1;
      }
      assert ls[..p] == ls;
      forall m | m != node
        ensures multiset(linkedNodes)[m] == Touching(links, ls, m)
      {
        FarEndsCount(links, ls, node, m);
      }
    }
  }
}
