/**
 * The node-level representation behind the linked list: a heap of nodes, each
 * holding one object and optional links to its predecessor and successor,
 * plus `head`, `tail` and `count`. A location is the id of a node.
 *
 * The header calls the list "singly linked", but it promises O(1) removal of
 * the last object and O(1) removal at a location; both need the `prev` link
 * that this representation carries. Every operation here touches only the
 * node it works on and that node's neighbours; the lemmas prove that each
 * one refines its counterpart in module LinkedLists under the abstraction
 * `Abstract(c, order)`, where `order` lists the node ids from head to tail.
 */
module NodeChain {
  import opened Optional
  import opened LinkedLists

  datatype Node<V> = Node(value: V, prev: Option<nat>, next: Option<nat>)

  datatype Chain<V> = Chain(nodes: map<nat, Node<V>>, head: Option<nat>, tail: Option<nat>, count: nat, nextId: nat)

  ghost predicate Distinct(order: seq<nat>) {
    forall i, j :: 0 <= i < j < |order| ==> order[i] != order[j]
  }

  /** Node `order[i]` links back to `order[i - 1]` and forward to `order[i + 1]`. */
  ghost predicate NodeLinked<V>(c: Chain<V>, order: seq<nat>, i: int)
    requires 0 <= i < |order|
  {
    && order[i] in c.nodes
    && c.nodes[order[i]].prev == (if i == 0 then None else Some(order[i - 1]))
    && c.nodes[order[i]].next == (if i == |order| - 1 then None else Some(order[i + 1]))
  }

  /**
   * `order` is the head-to-tail sequence of node ids of `c`: following `next`
   * from `head` visits exactly `order`, following `prev` from `tail` visits it
   * backwards, `count` is its length, and there are no other nodes.
   */
  ghost predicate Linked<V>(c: Chain<V>, order: seq<nat>) {
    && c.count == |order|
    && Distinct(order)
    && (forall i :: 0 <= i < |order| ==> order[i] in c.nodes && order[i] < c.nextId)
    && (forall k :: k in c.nodes ==> k in order)
    && c.head == (if order == [] then None else Some(order[0]))
    && c.tail == (if order == [] then None else Some(order[|order| - 1]))
    && (forall i :: 0 <= i < |order| ==> NodeLinked(c, order, i))
  }

  /** The list a linked chain stands for: one cell per node, in `order`. */
  ghost function Abstract<V>(c: Chain<V>, order: seq<nat>): LinkedList<V>
    requires forall i :: 0 <= i < |order| ==> order[i] in c.nodes
  {
    LinkedList(seq(|order|, i requires 0 <= i < |order| => Cell(Location(order[i]), c.nodes[order[i]].value)), c.nextId)
  }

  // ---------------------------------------------------------------------------
  // O(1) pointer surgery

  function SetNext<V>(nodes: map<nat, Node<V>>, at: Option<nat>, to: Option<nat>): map<nat, Node<V>> {
    if at.Some? && at.value in nodes then nodes[at.value := nodes[at.value].(next := to)] else nodes
  }

  function SetPrev<V>(nodes: map<nat, Node<V>>, at: Option<nat>, to: Option<nat>): map<nat, Node<V>> {
    if at.Some? && at.value in nodes then nodes[at.value := nodes[at.value].(prev := to)] else nodes
  }

  function NewChain<V>(): (c: Chain<V>)
    ensures Linked(c, [])
    ensures Abstract(c, []) == Empty()
  {
    Chain(map[], None, None, 0, 0)
  }

  /** `-addObject:`: link a fresh node after the tail. */
  function Append<V>(c: Chain<V>, v: V): (Chain<V>, nat) {
    var id := c.nextId;
    var nodes := SetNext(c.nodes, c.tail, Some(id))[id := Node(v, c.tail, None)];
    (Chain(nodes, if c.tail.None? then Some(id) else c.head, Some(id), c.count + 1, id + 1), id)
  }

  /** `-removeObjectAtLocation:`: unlink node `id` by joining its neighbours. */
  function RemoveAt<V>(c: Chain<V>, id: nat): Chain<V>
    requires id in c.nodes
  {
    var n := c.nodes[id];
    var nodes := SetPrev(SetNext(c.nodes, n.prev, n.next), n.next, n.prev) - {id};
    Chain(nodes,
      if n.prev.None? then n.next else c.head,
      if n.next.None? then n.prev else c.tail,
      if c.count == 0 then 0 else c.count - 1,
      c.nextId)
  }

  /** `-removeFirstObject`: unlink the head, if any. */
  function RemoveFirst<V>(c: Chain<V>): Chain<V> {
    match c.head
    case Some(h) => if h in c.nodes then RemoveAt(c, h) else c
    case None => c
  }

  /** `-removeLastObject`: unlink the tail through its `prev` link, if any. */
  function RemoveLast<V>(c: Chain<V>): Chain<V> {
    match c.tail
    case Some(t) => if t in c.nodes then RemoveAt(c, t) else c
    case None => c
  }

  function First<V>(c: Chain<V>): Option<V> {
    match c.head
    case Some(h) => if h in c.nodes then Some(c.nodes[h].value) else None
    case None => None
  }

  function Last<V>(c: Chain<V>): Option<V> {
    match c.tail
    case Some(t) => if t in c.nodes then Some(c.nodes[t].value) else None
    case None => None
  }

  function ObjectAt<V>(c: Chain<V>, id: nat): V
    requires id in c.nodes
  {
    c.nodes[id].value
  }

  function RemoveAll<V>(c: Chain<V>): (r: Chain<V>)
    ensures r.nodes == map[] && r.count == 0
  {
    Chain(map[], None, None, 0, c.nextId)
  }

  /** `-addObject:` is O(1): it adds one node and rewrites only the old tail. */
  lemma AppendIsLocal<V>(c: Chain<V>, v: V)
    requires c.nextId !in c.nodes
    ensures Append(c, v).0.nodes.Keys == c.nodes.Keys + {c.nextId}
    ensures forall k :: k in c.nodes && Some(k) != c.tail ==> Append(c, v).0.nodes[k] == c.nodes[k]
  {
  }

  /** Appending never drops a node. */
  lemma AppendKeepsNodes<V>(c: Chain<V>, v: V)
    ensures c.nodes.Keys <= Append(c, v).0.nodes.Keys
  {
  }

  /** `-removeObjectAtLocation:` is O(1): it drops one node and rewrites only its two neighbours. */
  lemma RemoveAtIsLocal<V>(c: Chain<V>, id: nat)
    requires id in c.nodes
    ensures RemoveAt(c, id).nodes.Keys == c.nodes.Keys - {id}
    ensures forall k :: k in c.nodes && k != id && Some(k) != c.nodes[id].prev && Some(k) != c.nodes[id].next ==>
      RemoveAt(c, id).nodes[k] == c.nodes[k]
  {
  }

  // ---------------------------------------------------------------------------
  // Refinement of the list operations

  lemma LinkedIsValid<V>(c: Chain<V>, order: seq<nat>)
    requires Linked(c, order)
    ensures Valid(Abstract(c, order))
    ensures Count(Abstract(c, order)) == c.count
  {
  }

  /** A node id is in the heap exactly when its location is live in the list. */
  lemma NodesAreLiveLocations<V>(c: Chain<V>, order: seq<nat>)
    requires Linked(c, order)
    ensures forall id :: id in c.nodes <==> Location(id) in Live(Abstract(c, order))
  {
    var a := Abstract(c, order);
    forall id | id in c.nodes ensures Location(id) in Live(a) {
      var i :| 0 <= i < |order| && order[i] == id;
      assert a.cells[i].loc == Location(id);
    }
  }

  lemma AppendLinked<V>(c: Chain<V>, order: seq<nat>, v: V)
    requires Linked(c, order)
    ensures var r, id := Append(c, v).0, Append(c, v).1;
      && Linked(r, order + [id])
  {
    var r := Append(c, v).0;
    var id: nat := Append(c, v).1;
    var o: seq<nat> := order + [id];
    assert id == c.nextId;
    assert forall j :: 0 <= j < |order| ==> o[j] == order[j] && o[j] != id;
    assert o[|order|] == id;
    assert Distinct(o);
    forall j | 0 <= j < |o| ensures NodeLinked(r, o, j) {
      if j == |order| {
        assert r.nodes[id] == Node(v, c.tail, None);
      } else {
        assert NodeLinked(c, order, j);
        if j == |order| - 1 {
          assert r.nodes[o[j]] == c.nodes[o[j]].(next := Some(id));
        } else {
          assert o[j + 1] == order[j + 1];
          assert Some(o[j]) != c.tail;
          assert r.nodes[o[j]] == c.nodes[o[j]];
        }
      }
    }
    forall k | k in r.nodes ensures k in o {
      if k != id {
        assert k in order;
      }
    }
    assert Linked(r, o);
  }

  lemma AppendKeepsValues<V>(c: Chain<V>, order: seq<nat>, v: V)
    requires Linked(c, order)
    ensures forall k :: k in c.nodes ==> Append(c, v).0.nodes[k].value == c.nodes[k].value
    ensures Append(c, v).0.nodes[Append(c, v).1].value == v
  {
    var r := Append(c, v).0;
    forall k | k in c.nodes ensures r.nodes[k].value == c.nodes[k].value {
      assert k in order;
      if Some(k) == c.tail {
        assert r.nodes[k] == c.nodes[k].(next := Some(c.nextId));
      }
    }
  }

  /** The abstraction only reads node values, so keeping the values keeps the cells. */
  lemma AbstractCells<V>(c: Chain<V>, order: seq<nat>, r: Chain<V>, order': seq<nat>)
    requires |order'| >= |order|
    requires forall i :: 0 <= i < |order| ==> order[i] in c.nodes
    requires forall i :: 0 <= i < |order'| ==> order'[i] in r.nodes
    requires forall i :: 0 <= i < |order| ==> order'[i] == order[i] && r.nodes[order[i]].value == c.nodes[order[i]].value
    ensures Abstract(r, order').cells[..|order|] == Abstract(c, order).cells
  {
  }

  lemma AppendAbstract<V>(c: Chain<V>, order: seq<nat>, v: V)
    requires Linked(c, order)
    ensures var a := Abstract(c, order);
      Abstract(Append(c, v).0, order + [Append(c, v).1]) == LinkedList(a.cells + [Cell(Location(a.nextId), v)], a.nextId + 1)
  {
    var r := Append(c, v).0;
    var id: nat := Append(c, v).1;
    var o: seq<nat> := order + [id];
    AppendKeepsValues(c, order, v);
    AppendLinked(c, order, v);
    AbstractCells(c, order, r, o);
    var ra := Abstract(r, o);
    assert ra.cells == ra.cells[..|order|] + [ra.cells[|order|]];
  }

  lemma AppendRefines<V>(c: Chain<V>, order: seq<nat>, v: V)
    requires Linked(c, order)
    ensures var r, id := Append(c, v).0, Append(c, v).1;
      && Linked(r, order + [id])
      && Abstract(r, order + [id]) == AddObject(Abstract(c, order), v).0
      && Location(id) == AddObject(Abstract(c, order), v).1
  {
    AppendAbstract(c, order, v);
    LinkedIsValid(c, order);
    AppendLinked(c, order, v);
  }

  /** Unlinking `order[i]` points its predecessor's `next` past it. */
  lemma RemoveAtPredecessor<V>(c: Chain<V>, order: seq<nat>, i: nat)
    requires Linked(c, order) && 0 < i < |order|
    ensures var p := order[i - 1];
      p in RemoveAt(c, order[i]).nodes && RemoveAt(c, order[i]).nodes[p] == c.nodes[p].(next := c.nodes[order[i]].next)
  {
    assert NodeLinked(c, order, i);
    if i < |order| - 1 {
      assert order[i + 1] != order[i - 1];
    }
  }

  /** Unlinking `order[i]` points its successor's `prev` past it. */
  lemma RemoveAtSuccessor<V>(c: Chain<V>, order: seq<nat>, i: nat)
    requires Linked(c, order) && i < |order| - 1
    ensures var q := order[i + 1];
      q in RemoveAt(c, order[i]).nodes && RemoveAt(c, order[i]).nodes[q] == c.nodes[q].(prev := c.nodes[order[i]].prev)
  {
    assert NodeLinked(c, order, i);
    if i > 0 {
      assert order[i + 1] != order[i - 1];
    }
  }

  /** What the `j`-th survivor must look like: the old node, linked to its new neighbours. */
  ghost predicate Survivor<V>(c: Chain<V>, order: seq<nat>, i: nat, j: nat)
    requires i < |order| && j < |order| - 1 && order[i] in c.nodes
  {
    var r, o := RemoveAt(c, order[i]), Without(order, i);
    o[j] in r.nodes && r.nodes[o[j]].value == c.nodes[o[j]].value && NodeLinked(r, o, j)
  }

  /** A survivor that was not next to `order[i]` keeps its node unchanged. */
  lemma RemoveAtFarNode<V>(c: Chain<V>, order: seq<nat>, i: nat, j: nat)
    requires Distinct(order) && forall m :: 0 <= m < |order| ==> NodeLinked(c, order, m)
    requires i < |order| && j < |order| - 1 && order[i] in c.nodes
    requires j + 1 < i || i < j
    ensures Survivor(c, order, i, j)
  {
    var id := order[i];
    assert NodeLinked(c, order, i);
    var r := RemoveAt(c, id);
    var o := Without(order, i);
    var k := if j < i then j else j + 1;
    assert o[j] == order[k];
    assert NodeLinked(c, order, k);
    RemoveAtIsLocal(c, id);
    assert i > 0 ==> order[k] != order[i - 1];
    assert i < |order| - 1 ==> order[k] != order[i + 1];
    assert r.nodes[o[j]] == c.nodes[order[k]];
    assert j > 0 ==> o[j - 1] == order[k - 1];
    assert j < |o| - 1 ==> o[j + 1] == order[k + 1];
  }

  /** The predecessor of `order[i]` now links forward to what followed `order[i]`. */
  lemma RemoveAtPredecessorNode<V>(c: Chain<V>, order: seq<nat>, i: nat)
    requires Linked(c, order) && 0 < i < |order|
    ensures Survivor(c, order, i, i - 1)
  {
    var j := i - 1;
    var r := RemoveAt(c, order[i]);
    var o := Without(order, i);
    assert NodeLinked(c, order, i);
    assert NodeLinked(c, order, j);
    assert o[j] == order[j];
    assert j > 0 ==> o[j - 1] == order[j - 1];
    assert j < |o| - 1 ==> o[j + 1] == order[i + 1];
    RemoveAtPredecessor(c, order, i);
  }

  /** The successor of `order[i]` now links back to what preceded `order[i]`. */
  lemma RemoveAtSuccessorNode<V>(c: Chain<V>, order: seq<nat>, i: nat)
    requires Linked(c, order) && i < |order| - 1
    ensures Survivor(c, order, i, i)
  {
    var j := i;
    var r := RemoveAt(c, order[i]);
    var o := Without(order, i);
    assert NodeLinked(c, order, i);
    assert NodeLinked(c, order, i + 1);
    assert o[j] == order[i + 1];
    assert j > 0 ==> o[j - 1] == order[i - 1];
    assert j < |o| - 1 ==> o[j + 1] == order[i + 2];
    RemoveAtSuccessor(c, order, i);
  }

  lemma RemoveAtNodeAt<V>(c: Chain<V>, order: seq<nat>, i: nat, j: nat)
    requires Linked(c, order) && i < |order| && j < |order| - 1
    ensures Survivor(c, order, i, j)
  {
    if j + 1 == i {
      RemoveAtPredecessorNode(c, order, i);
    } else if j == i {
      RemoveAtSuccessorNode(c, order, i);
    } else {
      RemoveAtFarNode(c, order, i, j);
    }
  }

  lemma RemoveAtNodes<V>(c: Chain<V>, order: seq<nat>, i: nat)
    requires Linked(c, order) && i < |order|
    ensures var r, o := RemoveAt(c, order[i]), Without(order, i);
      forall j :: 0 <= j < |o| ==> o[j] in r.nodes && r.nodes[o[j]].value == c.nodes[o[j]].value && NodeLinked(r, o, j)
  {
    var r := RemoveAt(c, order[i]);
    var o := Without(order, i);
    forall j | 0 <= j < |o|
      ensures o[j] in r.nodes && r.nodes[o[j]].value == c.nodes[o[j]].value && NodeLinked(r, o, j)
    {
      RemoveAtNodeAt(c, order, i, j);
      assert Survivor(c, order, i, j);
    }
  }

  /** Unlinking rewrites links only: every remaining node keeps its object. */
  lemma RemoveAtKeepsValues<V>(c: Chain<V>, id: nat)
    requires id in c.nodes
    ensures forall k :: k in RemoveAt(c, id).nodes ==> k in c.nodes && RemoveAt(c, id).nodes[k].value == c.nodes[k].value
  {
  }

  /** After unlinking `order[i]`, the heap holds exactly the other ids of `order`. */
  lemma RemoveAtMembers<V>(c: Chain<V>, order: seq<nat>, i: nat)
    requires Linked(c, order) && i < |order|
    ensures var r, o := RemoveAt(c, order[i]), Without(order, i);
      && r.count == |o|
      && Distinct(o)
      && (forall j :: 0 <= j < |o| ==> o[j] in r.nodes && o[j] < r.nextId)
      && (forall k :: k in r.nodes ==> k in o)
  {
    var id := order[i];
    RemoveAtIsLocal(c, id);
    var r := RemoveAt(c, id);
    var o := Without(order, i);
    forall k | k in r.nodes ensures k in o {
      var m :| 0 <= m < |order| && order[m] == k;
      assert o[if m < i then m else m - 1] == k;
    }
  }

  /** After unlinking `order[i]`, `head` and `tail` name the ends of the shortened order. */
  lemma RemoveAtEnds<V>(c: Chain<V>, order: seq<nat>, i: nat)
    requires Linked(c, order) && i < |order|
    ensures var r, o := RemoveAt(c, order[i]), Without(order, i);
      && r.head == (if o == [] then None else Some(o[0]))
      && r.tail == (if o == [] then None else Some(o[|o| - 1]))
  {
    assert NodeLinked(c, order, i);
    var o := Without(order, i);
    if i > 0 {
      assert o[0] == order[0];
    } else if |order| > 1 {
      assert o[0] == order[1];
    }
    if i < |order| - 1 {
      assert o[|o| - 1] == order[|order| - 1];
    } else if |order| > 1 {
      assert o[|o| - 1] == order[|order| - 2];
    }
  }

  lemma RemoveAtLinked<V>(c: Chain<V>, order: seq<nat>, i: nat)
    requires Linked(c, order) && i < |order|
    ensures Linked(RemoveAt(c, order[i]), Without(order, i))
    ensures forall j :: 0 <= j < |Without(order, i)| ==>
      RemoveAt(c, order[i]).nodes[Without(order, i)[j]].value == c.nodes[Without(order, i)[j]].value
  {
    RemoveAtNodes(c, order, i);
    RemoveAtMembers(c, order, i);
    RemoveAtEnds(c, order, i);
  }

  lemma RemoveAtAbstract<V>(c: Chain<V>, order: seq<nat>, i: nat)
    requires Linked(c, order) && i < |order|
    ensures var a := Abstract(c, order);
      Abstract(RemoveAt(c, order[i]), Without(order, i)) == LinkedList(Without(a.cells, i), a.nextId)
  {
    RemoveAtMembers(c, order, i);
    RemoveAtKeepsValues(c, order[i]);
    var a := Abstract(c, order);
    var o := Without(order, i);
    var ra := Abstract(RemoveAt(c, order[i]), o);
    var wa := Without(a.cells, i);
    forall j | 0 <= j < |o| ensures ra.cells[j] == wa[j] {
      var k := if j < i then j else j + 1;
      assert o[j] == order[k] && wa[j] == a.cells[k];
    }
    assert ra.cells == wa;
  }

  /** Node `order[i]` is the live location at position `i` of the abstract list. */
  lemma PositionAgrees<V>(c: Chain<V>, order: seq<nat>, i: nat)
    requires Linked(c, order) && i < |order|
    ensures Valid(Abstract(c, order))
    ensures Location(order[i]) in Live(Abstract(c, order))
    ensures PositionOf(Abstract(c, order), Location(order[i])) == i
  {
    LinkedIsValid(c, order);
    var a := Abstract(c, order);
    assert a.cells[i].loc == Location(order[i]);
    var p := PositionOf(a, Location(order[i]));
    assert a.cells[p].loc == Location(order[p]);
  }

  lemma RemoveAtRefines<V>(c: Chain<V>, order: seq<nat>, i: nat)
    requires Linked(c, order) && i < |order|
    ensures Valid(Abstract(c, order)) && Location(order[i]) in Live(Abstract(c, order))
    ensures Linked(RemoveAt(c, order[i]), Without(order, i))
    ensures Abstract(RemoveAt(c, order[i]), Without(order, i))
         == RemoveObjectAtLocation(Abstract(c, order), Location(order[i]))
  {
    PositionAgrees(c, order, i);
    RemoveAtAbstract(c, order, i);
    RemoveAtLinked(c, order, i);
  }

  lemma RemoveFirstRefines<V>(c: Chain<V>, order: seq<nat>)
    requires Linked(c, order)
    ensures Valid(Abstract(c, order))
    ensures order != [] ==> Linked(RemoveFirst(c), order[1..])
    ensures order == [] ==> RemoveFirst(c) == c
    ensures Abstract(RemoveFirst(c), if order == [] then [] else order[1..])
         == RemoveFirstObject(Abstract(c, order))
  {
    LinkedIsValid(c, order);
    if order != [] {
      var a := Abstract(c, order);
      PositionAgrees(c, order, 0);
      RemoveAtRefines(c, order, 0);
      WithoutEnds(order);
      assert RemoveFirst(c) == RemoveAt(c, order[0]);
      assert RemoveFirstObject(a) == RemoveObjectAtLocation(a, Location(order[0]));
    }
  }

  lemma RemoveLastRefines<V>(c: Chain<V>, order: seq<nat>)
    requires Linked(c, order)
    ensures Valid(Abstract(c, order))
    ensures order != [] ==> Linked(RemoveLast(c), order[..|order| - 1])
    ensures order == [] ==> RemoveLast(c) == c
    ensures Abstract(RemoveLast(c), if order == [] then [] else order[..|order| - 1])
         == RemoveLastObject(Abstract(c, order))
  {
    LinkedIsValid(c, order);
    if order != [] {
      var a := Abstract(c, order);
      var i := |order| - 1;
      PositionAgrees(c, order, i);
      RemoveAtRefines(c, order, i);
      WithoutEnds(order);
      assert RemoveLast(c) == RemoveAt(c, order[i]);
      assert RemoveLastObject(a) == RemoveObjectAtLocation(a, Location(order[i]));
    }
  }

  /** `-firstObject` and `-lastObject` read the head and the tail node. */
  lemma EndsRefine<V>(c: Chain<V>, order: seq<nat>)
    requires Linked(c, order)
    ensures First(c) == FirstObject(Abstract(c, order))
    ensures Last(c) == LastObject(Abstract(c, order))
  {
  }

  /** `-objectAtLocation:` reads the node the location names, without a walk. */
  lemma ObjectAtRefines<V>(c: Chain<V>, order: seq<nat>, id: nat)
    requires Linked(c, order) && id in c.nodes
    ensures Valid(Abstract(c, order)) && Location(id) in Live(Abstract(c, order))
    ensures ObjectAt(c, id) == ObjectAtLocation(Abstract(c, order), Location(id))
  {
    var i :| 0 <= i < |order| && order[i] == id;
    PositionAgrees(c, order, i);
  }

  lemma RemoveAllRefines<V>(c: Chain<V>, order: seq<nat>)
    requires Linked(c, order)
    ensures Linked(RemoveAll(c), [])
    ensures Abstract(RemoveAll(c), []) == RemoveAllObjects(Abstract(c, order))
  {
  }

  // ---------------------------------------------------------------------------
  // Linear operations that walk the `next` links from the head

  /** `-allObjects`: the objects met following `next` from the head. */
  method CollectObjects<V>(c: Chain<V>, ghost order: seq<nat>) returns (r: seq<V>)
    requires Linked(c, order)
    ensures r == AllObjects(Abstract(c, order))
  {
    ghost var s := AllObjects(Abstract(c, order));
    r := [];
    var cur := c.head;
    ghost var i := 0;
    while cur.Some?
      invariant 0 <= i <= |order|
      invariant cur == if i < |order| then Some(order[i]) else None
      invariant r == s[..i]
      decreases |order| - i
    {
      assert NodeLinked(c, order, i);
      var node := c.nodes[cur.value];
      assert s[..i + 1] == s[..i] + [node.value];
      r := r + [node.value];
      cur := node.next;
      i := i + 1;
    }
  }

  /** `-locationOfObject:`: walk from the head to the first node holding `v`. */
  method LocationOfObject<V(==)>(c: Chain<V>, v: V, ghost order: seq<nat>) returns (r: Option<nat>)
    requires Linked(c, order)
    ensures r.None? ==> LinkedLists.LocationOfObject(Abstract(c, order), v) == None
    ensures r.Some? ==> r.value in c.nodes
    ensures r.Some? ==> LinkedLists.LocationOfObject(Abstract(c, order), v) == Some(Location(r.value))
  {
    LinkedIsValid(c, order);
    ghost var a := Abstract(c, order);
    ghost var s := AllObjects(a);
    var cur := c.head;
    ghost var i := 0;
    while cur.Some?
      invariant 0 <= i <= |order|
      invariant cur == if i < |order| then Some(order[i]) else None
      invariant v !in s[..i]
      decreases |order| - i
    {
      assert NodeLinked(c, order, i);
      var node := c.nodes[cur.value];
      if node.value == v {
        assert s[i] == v && IsFirstIndex(s, v, i);
        ghost var found := LinkedLists.LocationOfObject(a, v);
        FirstIndexUnique(s, v, i, PositionOf(a, found.value));
        assert a.cells[i].loc == Location(order[i]);
        return cur;
      }
      assert s[..i + 1] == s[..i] + [node.value];
      cur := node.next;
      i := i + 1;
    }
    assert s[..i] == s;
    return None;
  }

  /** `-removeObject:`: locate the first equal object, then unlink its node. */
  method RemoveObject<V(==)>(c: Chain<V>, v: V, ghost order: seq<nat>) returns (r: Chain<V>, ghost order': seq<nat>)
    requires Linked(c, order)
    ensures Linked(r, order')
    ensures Abstract(r, order') == LinkedLists.RemoveObject(Abstract(c, order), v)
    ensures if v in AllObjects(Abstract(c, order)) then r.count == c.count - 1 else r == c
    ensures r.nodes.Keys <= c.nodes.Keys && r.nextId == c.nextId
  {
    LinkedIsValid(c, order);
    var found := LocationOfObject(c, v, order);
    match found
    case None =>
      assert v !in AllObjects(Abstract(c, order));
      r, order' := c, order;
    case Some(id) =>
      ghost var i :| 0 <= i < |order| && order[i] == id;
      RemoveAtRefines(c, order, i);
      RemoveAtIsLocal(c, id);
      assert c.count == |order| > 0;
      r, order' := RemoveAt(c, id), Without(order, i);
  }

  /** One round of `-addObjectsFromArray:`: appending `a[k]` extends the abstract fold by one element. */
  lemma AddFromArrayStep<V>(l: LinkedList<V>, a: seq<V>, k: nat, r: Chain<V>, order: seq<nat>)
    requires Valid(l) && k < |a| && Linked(r, order)
    requires Abstract(r, order) == LinkedLists.AddObjectsFromArray(l, a[..k])
    ensures Linked(Append(r, a[k]).0, order + [Append(r, a[k]).1])
    ensures Abstract(Append(r, a[k]).0, order + [Append(r, a[k]).1]) == LinkedLists.AddObjectsFromArray(l, a[..k + 1])
  {
    AppendRefines(r, order, a[k]);
    AddObjectsFromArrayPrefix(l, a, k);
  }

  /** `-addObjectsFromArray:`: append the elements of `a` one at a time. */
  method AddObjectsFromArray<V>(c: Chain<V>, a: seq<V>, ghost order: seq<nat>) returns (r: Chain<V>, ghost order': seq<nat>)
    requires Linked(c, order)
    ensures Linked(r, order')
    ensures Abstract(r, order') == LinkedLists.AddObjectsFromArray(Abstract(c, order), a)
    ensures r.count == c.count + |a| && r.nextId == c.nextId + |a|
    ensures c.nodes.Keys <= r.nodes.Keys
  {
    LinkedIsValid(c, order);
    ghost var l := Abstract(c, order);
    r, order' := c, order;
    assert a[..0] == [];
    for k := 0 to |a|
      invariant Linked(r, order')
      invariant Abstract(r, order') == LinkedLists.AddObjectsFromArray(l, a[..k])
      invariant r.count == c.count + k && r.nextId == c.nextId + k
      invariant c.nodes.Keys <= r.nodes.Keys
    {
      AddFromArrayStep(l, a, k, r, order');
      AppendKeepsNodes(r, a[k]);
      var next := Append(r, a[k]);
      r, order' := next.0, order' + [next.1];
    }
    assert a[..|a|] == a;
  }
}
