/** Rooms (nodes), passages (links) and the list operations they use. The
    graph stores them by value and refers to them by their index. */
module Elements {
  import opened KeyItems

  datatype Option<T> = None | Some(value: T)

  /** The capacities every node and link of the graph is created with. */
  const DefaultMaxKeyItems: nat := 1
  const DefaultMaxRequiredKeys: nat := 1

  /** A room: its id, the indices of its links in the order they were made,
      and the keys lying in it. */
  datatype Node = Node(id: string, links: seq<nat>, maxKeyItems: nat, keyItems: seq<KeyItem>)
  {
    predicate HasSpareCapacity()
    {
      |keyItems| < maxKeyItems
    }
  }

  /** A passage between the rooms `connected.0` and `connected.1`, locked by
      the keys in `requiredKeys`. */
  datatype Link = Link(id: string, connected: (nat, nat), maxRequiredKeys: nat, requiredKeys: seq<KeyItem>)
  {
    predicate HasEnd(n: nat)
    {
      n == connected.0 || n == connected.1
    }

    predicate HasSpareLock()
    {
      |requiredKeys| < maxRequiredKeys
    }

    /** `get_destination_node`: the endpoint at the other side from `from`. */
    function Destination(from: nat): (to: nat)
      requires HasEnd(from)
      ensures multiset{from, to} == multiset{connected.0, connected.1}
    {
      if from == connected.0 then connected.1 else connected.0
    }
  }

  /** Crossing a link and crossing back brings one back to the start. */
  lemma DestinationInvolutive(link: Link, n: nat)
    requires link.HasEnd(n)
    ensures link.HasEnd(link.Destination(n))
    ensures link.Destination(link.Destination(n)) == n
  {
  }

  /** The first position at which `x` occurs in `s`. */
  function FirstIndex<T(==)>(s: seq<T>, x: T): (i: nat)
    requires x in s
    ensures i < |s| && s[i] == x && x !in s[..i]
  {
    if s[0] == x then 0
    else
      var j := FirstIndex(s[1..], x);
      assert s[..j + 1] == [s[0]] + s[1..][..j];
      j + 1
  }

  /** Python's `list.remove(x)`: drop the first occurrence of `x`. */
  function RemoveFirst<T(==)>(s: seq<T>, x: T): (r: seq<T>)
    requires x in s
    ensures |r| == |s| - 1
    ensures multiset(r) == multiset(s) - multiset{x}
    ensures exists i :: 0 <= i < |s| && s[i] == x && x !in s[..i] && r == s[..i] + s[i + 1..]
  {
    var i := FirstIndex(s, x);
    assert s == s[..i] + [s[i]] + s[i + 1..];
    s[..i] + s[i + 1..]
  }

  /** Appending an element the list did not hold and removing it again gives
      the list back. */
  lemma {:induction false} RemoveFirstAppended<T>(s: seq<T>, x: T)
    requires x !in s
    ensures RemoveFirst(s + [x], x) == s
  {
    var i := FirstIndex(s + [x], x);
    assert i == |s|;
    assert (s + [x])[..|s|] == s;
  }

  /** `Node.add_key_item` on the stored value. */
  function WithKeyItem(node: Node, keyItem: KeyItem): Node
  {
    node.(keyItems := node.keyItems + [keyItem])
  }

  /** `Link.add_required_key` on the stored value. */
  function WithRequiredKey(link: Link, keyItem: KeyItem): Link
  {
    link.(requiredKeys := link.requiredKeys + [keyItem])
  }

  /** `Link.remove_required_key` on the stored value. */
  function WithoutRequiredKey(link: Link, keyItem: KeyItem): Link
    requires keyItem in link.requiredKeys
  {
    link.(requiredKeys := RemoveFirst(link.requiredKeys, keyItem))
  }

  /** Removing a lock that was just added restores the link, provided the key
      was not already one of its locks. */
  lemma RequiredKeyRoundTrip(link: Link, keyItem: KeyItem)
    requires keyItem !in link.requiredKeys
    ensures keyItem in WithRequiredKey(link, keyItem).requiredKeys
    ensures WithoutRequiredKey(WithRequiredKey(link, keyItem), keyItem) == link
  {
    RemoveFirstAppended(link.requiredKeys, keyItem);
  }

  /** `evaluate_link`'s loop: every required key is among the available ones. */
  function AllAvailable(required: seq<KeyItem>, available: seq<KeyItem>): (r: bool)
    ensures r <==> forall k :: k in required ==> k in available
  {
    if |required| == 0 then true
    else if required[0] !in available then false
    else AllAvailable(required[1..], available)
  }
}
