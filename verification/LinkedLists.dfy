/**
 * The insertion-ordered linked list and its opaque location handles, at the
 * level of what a caller can observe: the objects in order (`AllObjects`) and
 * the set of locations that are still live (`Live`).
 *
 * A list is a sequence of cells, each pairing a location with the object
 * stored there, plus the id the next inserted object will receive. Ids only
 * ever grow, so a location whose object has been removed never becomes valid
 * again. The node-level representation with O(1) pointer surgery is in
 * module NodeChain, which is proved to refine the operations here.
 */
module LinkedLists {
  import opened Optional

  /** An opaque handle naming the one element it was issued for. */
  datatype Location = Location(id: nat)

  datatype Cell<V> = Cell(loc: Location, value: V)

  datatype LinkedList<V> = LinkedList(cells: seq<Cell<V>>, nextId: nat)

  function Locs<V>(cells: seq<Cell<V>>): set<Location> {
    set i | 0 <= i < |cells| :: cells[i].loc
  }

  ghost predicate DistinctLocs<V>(cells: seq<Cell<V>>) {
    forall i, j :: 0 <= i < j < |cells| ==> cells[i].loc != cells[j].loc
  }

  /** The representation invariant every list reachable through the API keeps. */
  ghost predicate Valid<V>(l: LinkedList<V>) {
    && DistinctLocs(l.cells)
    && (forall i :: 0 <= i < |l.cells| ==> l.cells[i].loc.id < l.nextId)
  }

  /** The locations that currently name an element of `l`. */
  function Live<V>(l: LinkedList<V>): set<Location> {
    Locs(l.cells)
  }

  /** The objects of the list, head first. */
  function AllObjects<V>(l: LinkedList<V>): seq<V> {
    seq(|l.cells|, i requires 0 <= i < |l.cells| => l.cells[i].value)
  }

  /** A location that was handed out by `l` at some point. */
  ghost predicate Issued<V>(l: LinkedList<V>, loc: Location) {
    loc.id < l.nextId
  }

  /**
   * Every location live in both lists names the same object in both, i.e.
   * `ObjectAtLocation` agrees on the locations the two lists share.
   */
  ghost predicate KeepsObjects<V>(l: LinkedList<V>, r: LinkedList<V>) {
    forall i, j :: 0 <= i < |l.cells| && 0 <= j < |r.cells| && l.cells[i].loc == r.cells[j].loc ==>
      l.cells[i].value == r.cells[j].value
  }

  /** `r` issues no location that `l` already issued, except the ones still live in `l`. */
  ghost predicate NeverReuses<V>(l: LinkedList<V>, r: LinkedList<V>) {
    && l.nextId <= r.nextId
    && forall k :: k in Live(r) ==> k in Live(l) || !Issued(l, k)
  }

  ghost predicate IsFirstIndex<V>(s: seq<V>, v: V, i: int) {
    0 <= i < |s| && s[i] == v && v !in s[..i]
  }

  /** A value has at most one first index. */
  lemma FirstIndexUnique<V>(s: seq<V>, v: V, i: int, j: int)
    requires IsFirstIndex(s, v, i) && IsFirstIndex(s, v, j)
    ensures i == j
  {
  }

  /** Moving the head of `a` across a concatenation. */
  lemma ConcatHead<T>(s: seq<T>, a: seq<T>)
    requires a != []
    ensures s + a == (s + [a[0]]) + a[1..]
  {
    assert a == [a[0]] + a[1..];
  }

  /** `s` with its `i`-th element taken out. */
  function Without<V>(s: seq<V>, i: nat): (r: seq<V>)
    requires i < |s|
    ensures |r| == |s| - 1
    ensures forall j :: 0 <= j < |r| ==> r[j] == s[if j < i then j else j + 1]
  {
    s[..i] + s[i+1..]
  }

  // ---------------------------------------------------------------------------
  // Creation

  /** `+linkedList` / `-init`. */
  function Empty<V>(): (l: LinkedList<V>)
    ensures Valid(l)
    ensures AllObjects(l) == [] && Live(l) == {}
  {
    LinkedList([], 0)
  }

  /** `+linkedListWithArray:` / `-initWithArray:`. */
  function WithArray<V>(a: seq<V>): (l: LinkedList<V>)
    ensures Valid(l)
    ensures AllObjects(l) == a
    ensures Count(l) == |a|
  {
    AddObjectsFromArray(Empty(), a)
  }

  /** `-copyWithZone:`: a new list with the same objects and freshly numbered locations. */
  function Copy<V>(l: LinkedList<V>): (r: LinkedList<V>)
    requires Valid(l)
    ensures Valid(r)
    ensures AllObjects(r) == AllObjects(l)
    ensures Count(r) == Count(l)
  {
    WithArray(AllObjects(l))
  }

  // ---------------------------------------------------------------------------
  // Queries

  function Count<V>(l: LinkedList<V>): (n: nat)
    ensures n == |AllObjects(l)|
    ensures n == 0 <==> Live(l) == {}
  {
    assert l.cells != [] ==> l.cells[0].loc in Live(l);
    |l.cells|
  }

  function FirstObject<V>(l: LinkedList<V>): (r: Option<V>)
    ensures r.None? <==> AllObjects(l) == []
    ensures r.Some? ==> r.value == AllObjects(l)[0]
  {
    if l.cells == [] then None else Some(l.cells[0].value)
  }

  function LastObject<V>(l: LinkedList<V>): (r: Option<V>)
    ensures r.None? <==> AllObjects(l) == []
    ensures r.Some? ==> r.value == AllObjects(l)[|AllObjects(l)| - 1]
  {
    if l.cells == [] then None else Some(l.cells[|l.cells| - 1].value)
  }

  /** Linear scan: the index of the first element equal to `v`. */
  function FirstIndex<V(==)>(s: seq<V>, v: V): (r: Option<nat>)
    ensures r.None? <==> v !in s
    ensures r.Some? ==> IsFirstIndex(s, v, r.value)
  {
    if s == [] then None
    else if s[0] == v then Some(0)
    else
      match FirstIndex(s[1..], v)
      case None => None
      case Some(i) =>
        assert s[..i + 1] == [s[0]] + s[1..][..i];
        Some(i + 1)
  }

  function ContainsObject<V(==)>(l: LinkedList<V>, v: V): (b: bool)
    requires Valid(l)
    ensures b <==> v in AllObjects(l)
  {
    LocationOfObject(l, v).Some?
  }

  // ---------------------------------------------------------------------------
  // Locations

  /** The position in `cells` of the cell that `loc` names. */
  function LocationIndex<V>(cells: seq<Cell<V>>, loc: Location): (i: nat)
    requires loc in Locs(cells)
    ensures i < |cells| && cells[i].loc == loc
  {
    if cells[0].loc == loc then 0
    else
      assert cells == [cells[0]] + cells[1..];
      1 + LocationIndex(cells[1..], loc)
  }

  function PositionOf<V>(l: LinkedList<V>, loc: Location): (i: nat)
    requires loc in Live(l)
    ensures i < |l.cells| && l.cells[i].loc == loc
  {
    LocationIndex(l.cells, loc)
  }

  /** `-objectAtLocation:`; a removed location is a caller error, hence the precondition. */
  function ObjectAtLocation<V>(l: LinkedList<V>, loc: Location): (v: V)
    requires Valid(l) && loc in Live(l)
    ensures forall i :: 0 <= i < |l.cells| && l.cells[i].loc == loc ==> v == AllObjects(l)[i]
    ensures v in AllObjects(l)
  {
    l.cells[PositionOf(l, loc)].value
  }

  /** `-locationOfObject:`: the location of the first element equal to `v`, if any. */
  function LocationOfObject<V(==)>(l: LinkedList<V>, v: V): (r: Option<Location>)
    requires Valid(l)
    ensures r.None? <==> v !in AllObjects(l)
    ensures r.Some? ==> r.value in Live(l) && ObjectAtLocation(l, r.value) == v
    ensures r.Some? ==> IsFirstIndex(AllObjects(l), v, PositionOf(l, r.value))
  {
    match FirstIndex(AllObjects(l), v)
    case None => None
    case Some(i) =>
      assert l.cells[i].loc in Live(l);
      Some(l.cells[i].loc)
  }

  // ---------------------------------------------------------------------------
  // Adding

  /** `-addObject:`: appends `v` and returns the location of the new element. */
  function AddObject<V>(l: LinkedList<V>, v: V): (res: (LinkedList<V>, Location))
    requires Valid(l)
    ensures Valid(res.0)
    ensures AllObjects(res.0) == AllObjects(l) + [v]
    ensures res.1 !in Live(l) && !Issued(l, res.1)
    ensures Live(res.0) == Live(l) + {res.1}
    ensures ObjectAtLocation(res.0, res.1) == v
    ensures res.0.cells == l.cells + [Cell(res.1, v)]
    ensures res.1 == Location(l.nextId) && res.0.nextId == l.nextId + 1
    ensures KeepsObjects(l, res.0)
    ensures NeverReuses(l, res.0)
  {
    var loc := Location(l.nextId);
    var r := LinkedList(l.cells + [Cell(loc, v)], l.nextId + 1);
    LocsAppend(l.cells, Cell(loc, v));
    assert r.cells[|l.cells|].loc == loc;
    (r, loc)
  }

  /** `-addObjectsFromArray:`: appends the elements of `a` one by one, in order. */
  function AddObjectsFromArray<V>(l: LinkedList<V>, a: seq<V>): (r: LinkedList<V>)
    requires Valid(l)
    ensures Valid(r)
    ensures AllObjects(r) == AllObjects(l) + a
    ensures Live(l) <= Live(r)
    ensures KeepsObjects(l, r)
    ensures NeverReuses(l, r)
    decreases |a|
  {
    if a == [] then l
    else
      var l1 := AddObject(l, a[0]).0;
      var r := AddObjectsFromArray(l1, a[1..]);
      ConcatHead(AllObjects(l), a);
      KeepsObjectsTransitive(l, l1, r);
      r
  }

  // ---------------------------------------------------------------------------
  // Removing

  /** Takes out the element at position `i`; every removal path goes through here. */
  function RemoveIndex<V>(l: LinkedList<V>, i: nat): (r: LinkedList<V>)
    requires Valid(l) && i < |l.cells|
    ensures Valid(r)
    ensures AllObjects(r) == Without(AllObjects(l), i)
    ensures Live(r) == Live(l) - {l.cells[i].loc}
    ensures r.cells == Without(l.cells, i)
    ensures KeepsObjects(l, r)
    ensures r.nextId == l.nextId
  {
    var r := LinkedList(Without(l.cells, i), l.nextId);
    LocsWithout(l.cells, i);
    assert forall j :: 0 <= j < |r.cells| ==> r.cells[j] == l.cells[if j < i then j else j + 1];
    r
  }

  /** `-removeObjectAtLocation:`: O(1) removal of the element `loc` names. */
  function RemoveObjectAtLocation<V>(l: LinkedList<V>, loc: Location): (r: LinkedList<V>)
    requires Valid(l) && loc in Live(l)
    ensures Valid(r)
    ensures AllObjects(r) == Without(AllObjects(l), PositionOf(l, loc))
    ensures Count(r) == Count(l) - 1
    ensures Live(r) == Live(l) - {loc}
    ensures r.cells == Without(l.cells, PositionOf(l, loc))
    ensures KeepsObjects(l, r)
    ensures NeverReuses(l, r)
  {
    RemoveIndex(l, PositionOf(l, loc))
  }

  /** `-removeFirstObject`: drops the head; a no-op on an empty list. */
  function RemoveFirstObject<V>(l: LinkedList<V>): (r: LinkedList<V>)
    requires Valid(l)
    ensures Valid(r)
    ensures AllObjects(r) == if AllObjects(l) == [] then [] else AllObjects(l)[1..]
    ensures l.cells != [] ==> Live(r) == Live(l) - {l.cells[0].loc}
    ensures l.cells != [] ==> r.cells == l.cells[1..]
    ensures l.cells == [] ==> r == l
    ensures KeepsObjects(l, r)
    ensures NeverReuses(l, r)
  {
    if l.cells == [] then l else RemoveIndex(l, 0)
  }

  /** `-removeLastObject`: drops the tail; a no-op on an empty list. */
  function RemoveLastObject<V>(l: LinkedList<V>): (r: LinkedList<V>)
    requires Valid(l)
    ensures Valid(r)
    ensures AllObjects(r) == if AllObjects(l) == [] then [] else AllObjects(l)[..|AllObjects(l)| - 1]
    ensures l.cells != [] ==> Live(r) == Live(l) - {l.cells[|l.cells| - 1].loc}
    ensures l.cells != [] ==> r.cells == l.cells[..|l.cells| - 1]
    ensures l.cells == [] ==> r == l
    ensures KeepsObjects(l, r)
    ensures NeverReuses(l, r)
  {
    if l.cells == [] then l else RemoveIndex(l, |l.cells| - 1)
  }

  /** `-removeObject:`: removes the first element equal to `v`, if there is one. */
  function RemoveObject<V(==)>(l: LinkedList<V>, v: V): (r: LinkedList<V>)
    requires Valid(l)
    ensures Valid(r)
    ensures v !in AllObjects(l) ==> r == l
    ensures v in AllObjects(l) ==>
      exists i :: IsFirstIndex(AllObjects(l), v, i) && AllObjects(r) == Without(AllObjects(l), i)
    ensures multiset(AllObjects(r)) == multiset(AllObjects(l)) - multiset{v}
    ensures Live(r) <= Live(l)
    ensures v in AllObjects(l) ==> Live(r) == Live(l) - {LocationOfObject(l, v).value}
    ensures v in AllObjects(l) ==> r.cells == Without(l.cells, PositionOf(l, LocationOfObject(l, v).value))
    ensures KeepsObjects(l, r)
    ensures NeverReuses(l, r)
  {
    match LocationOfObject(l, v)
    case None => l
    case Some(loc) =>
      MultisetWithout(AllObjects(l), PositionOf(l, loc));
      RemoveObjectAtLocation(l, loc)
  }

  /** `-removeAllObjects`: empties the list; no earlier location becomes valid again. */
  function RemoveAllObjects<V>(l: LinkedList<V>): (r: LinkedList<V>)
    ensures Valid(r)
    ensures AllObjects(r) == [] && Count(r) == 0
    ensures Live(r) == {}
    ensures NeverReuses(l, r)
  {
    LinkedList([], l.nextId)
  }

  // ---------------------------------------------------------------------------
  // Facts about cell sequences

  lemma LocsAppend<V>(cells: seq<Cell<V>>, c: Cell<V>)
    ensures Locs(cells + [c]) == Locs(cells) + {c.loc}
  {
    var s := cells + [c];
    forall k | k in Locs(s) ensures k in Locs(cells) + {c.loc} {
      var j :| 0 <= j < |s| && s[j].loc == k;
      if j < |cells| {
        assert cells[j].loc == k;
      }
    }
    forall k | k in Locs(cells) ensures k in Locs(s) {
      var j :| 0 <= j < |cells| && cells[j].loc == k;
      assert s[j].loc == k;
    }
    assert s[|cells|].loc == c.loc;
  }

  lemma LocsWithout<V>(cells: seq<Cell<V>>, i: nat)
    requires DistinctLocs(cells) && i < |cells|
    ensures DistinctLocs(Without(cells, i))
    ensures Locs(Without(cells, i)) == Locs(cells) - {cells[i].loc}
  {
    var s := Without(cells, i);
    assert forall j :: 0 <= j < |s| ==> s[j] == cells[if j < i then j else j + 1];
    forall k | k in Locs(s) ensures k in Locs(cells) - {cells[i].loc} {
      var j :| 0 <= j < |s| && s[j].loc == k;
      assert cells[if j < i then j else j + 1].loc == k;
    }
    forall k | k in Locs(cells) - {cells[i].loc} ensures k in Locs(s) {
      var j :| 0 <= j < |cells| && cells[j].loc == k;
      assert j != i;
      assert s[if j < i then j else j - 1].loc == k;
    }
  }

  lemma WithoutEnds<V>(s: seq<V>)
    requires s != []
    ensures Without(s, 0) == s[1..]
    ensures Without(s, |s| - 1) == s[..|s| - 1]
  {
  }

  lemma MultisetWithout<V>(s: seq<V>, i: nat)
    requires i < |s|
    ensures multiset(Without(s, i)) == multiset(s) - multiset{s[i]}
  {
    assert s == s[..i] + [s[i]] + s[i+1..];
  }

  lemma ReverseLast<V>(s: seq<V>)
    requires s != []
    ensures Reverse(s) == [s[|s| - 1]] + Reverse(s[..|s| - 1])
  {
  }

  lemma KeepsObjectsTransitive<V>(a: LinkedList<V>, b: LinkedList<V>, c: LinkedList<V>)
    requires KeepsObjects(a, b) && KeepsObjects(b, c) && (Live(a) <= Live(b) || Live(c) <= Live(b))
    ensures KeepsObjects(a, c)
  {
    forall i, j | 0 <= i < |a.cells| && 0 <= j < |c.cells| && a.cells[i].loc == c.cells[j].loc
      ensures a.cells[i].value == c.cells[j].value
    {
      assert a.cells[i].loc in Live(a);
      assert c.cells[j].loc in Live(c);
      var m := LocationIndex(b.cells, a.cells[i].loc);
    }
  }

  // ---------------------------------------------------------------------------
  // Properties relating several operations

  /** The number of elements equals the number of live locations. */
  lemma {:induction false} LocsCardinality<V>(cells: seq<Cell<V>>)
    requires DistinctLocs(cells)
    ensures |Locs(cells)| == |cells|
  {
    if cells != [] {
      LocsCardinality(cells[1..]);
      assert cells == [cells[0]] + cells[1..];
      assert Locs(cells) == {cells[0].loc} + Locs(cells[1..]);
      assert cells[0].loc !in Locs(cells[1..]);
    }
  }

  lemma CountIsLiveLocations<V>(l: LinkedList<V>)
    requires Valid(l)
    ensures Count(l) == |Live(l)|
  {
    LocsCardinality(l.cells);
  }

  /** Appending an array in two parts is appending the whole array. */
  lemma {:induction false} AddObjectsFromArrayConcat<V>(l: LinkedList<V>, a: seq<V>, b: seq<V>)
    requires Valid(l)
    ensures AddObjectsFromArray(l, a + b) == AddObjectsFromArray(AddObjectsFromArray(l, a), b)
    decreases |a|
  {
    if a == [] {
      assert a + b == b;
    } else {
      assert (a + b)[0] == a[0];
      assert (a + b)[1..] == a[1..] + b;
      AddObjectsFromArrayConcat(AddObject(l, a[0]).0, a[1..], b);
    }
  }

  /** `-addObjectsFromArray:` with `a + [v]` is the same as appending `a`, then `v`. */
  lemma AddObjectsFromArrayIsSequentialAdds<V>(l: LinkedList<V>, a: seq<V>, v: V)
    requires Valid(l)
    ensures AddObjectsFromArray(l, a + [v]) == AddObject(AddObjectsFromArray(l, a), v).0
  {
    AddObjectsFromArrayConcat(l, a, [v]);
  }

  /** The same, stated on the prefixes of one array a loop walks through. */
  lemma AddObjectsFromArrayPrefix<V>(l: LinkedList<V>, a: seq<V>, k: nat)
    requires Valid(l) && k < |a|
    ensures AddObjectsFromArray(l, a[..k + 1]) == AddObject(AddObjectsFromArray(l, a[..k]), a[k]).0
  {
    assert a[..k + 1] == a[..k] + [a[k]];
    AddObjectsFromArrayIsSequentialAdds(l, a[..k], a[k]);
  }

  /** The cells `-addObjectsFromArray:` appends: element `k` of `a` under the location `id + k`. */
  function NewCells<V>(id: nat, a: seq<V>): seq<Cell<V>> {
    seq(|a|, k requires 0 <= k < |a| => Cell(Location(id + k), a[k]))
  }

  /** One more element at the end of an array adds one cell at the end, under the next id. */
  lemma AppendNewCell<V>(rc: seq<Cell<V>>, mc: seq<Cell<V>>, cells: seq<Cell<V>>, id: nat, front: seq<V>, v: V, a: seq<V>, n: nat)
    requires mc == cells + NewCells(id, front)
    requires rc == mc + [Cell(Location(n), v)] && n == id + |front|
    requires a == front + [v]
    ensures rc == cells + NewCells(id, a)
  {
    var rhs := cells + NewCells(id, a);
    assert |rc| == |rhs|;
    forall k | 0 <= k < |rc| ensures rc[k] == rhs[k] {
      if k >= |cells| {
        assert rhs[k] == NewCells(id, a)[k - |cells|];
      }
    }
  }

  /**
   * `-addObjectsFromArray:` keeps the old cells in front, in their order,
   * and appends one cell per array element under fresh, increasing ids.
   */
  lemma {:induction false} AddObjectsFromArrayCells<V>(l: LinkedList<V>, a: seq<V>)
    requires Valid(l)
    ensures AddObjectsFromArray(l, a) == LinkedList(l.cells + NewCells(l.nextId, a), l.nextId + |a|)
    decreases |a|
  {
    if a == [] {
      assert NewCells(l.nextId, a) == [];
      assert l.cells + [] == l.cells;
    } else {
      var front, v := a[..|a| - 1], a[|a| - 1];
      assert a == front + [v];
      var m := AddObjectsFromArray(l, front);
      var r := AddObject(m, v).0;
      assert AddObjectsFromArray(l, a) == r by {
        AddObjectsFromArrayIsSequentialAdds(l, front, v);
      }
      assert m.cells == l.cells + NewCells(l.nextId, front) && m.nextId == l.nextId + |front| by {
        AddObjectsFromArrayCells(l, front);
      }
      assert r.cells == m.cells + [Cell(Location(m.nextId), v)] && r.nextId == l.nextId + |a|;
      AppendNewCell(r.cells, m.cells, l.cells, l.nextId, front, v, a, m.nextId);
    }
  }

  /** Removing at the location `-addObject:` just returned gives back the old contents. */
  lemma AddThenRemoveAtLocation<V>(l: LinkedList<V>, v: V)
    requires Valid(l)
    ensures var (l1, loc) := AddObject(l, v);
      AllObjects(RemoveObjectAtLocation(l1, loc)) == AllObjects(l)
      && Live(RemoveObjectAtLocation(l1, loc)) == Live(l)
  {
    var (l1, loc) := AddObject(l, v);
    assert PositionOf(l1, loc) == |l.cells|;
    assert (AllObjects(l) + [v])[..|l.cells|] == AllObjects(l);
  }

  /** After removal, a location is never valid again, whatever is added afterwards. */
  lemma RemovedLocationStaysInvalid<V>(l: LinkedList<V>, loc: Location, a: seq<V>)
    requires Valid(l) && loc in Live(l)
    ensures loc !in Live(AddObjectsFromArray(RemoveObjectAtLocation(l, loc), a))
  {
    var r := RemoveObjectAtLocation(l, loc);
    assert Issued(r, loc) by {
      var i := PositionOf(l, loc);
    }
  }

  /** The head-first traversal that repeatedly reads and removes the head. */
  function DrainFront<V>(l: LinkedList<V>): seq<V>
    requires Valid(l)
    decreases |l.cells|
  {
    match FirstObject(l)
    case None => []
    case Some(v) => [v] + DrainFront(RemoveFirstObject(l))
  }

  /** The tail-first traversal that repeatedly reads and removes the tail. */
  function DrainBack<V>(l: LinkedList<V>): seq<V>
    requires Valid(l)
    decreases |l.cells|
  {
    match LastObject(l)
    case None => []
    case Some(v) => [v] + DrainBack(RemoveLastObject(l))
  }

  function Reverse<V>(s: seq<V>): seq<V> {
    seq(|s|, i requires 0 <= i < |s| => s[|s| - 1 - i])
  }

  /** Removing heads visits the elements in insertion order: the list is FIFO. */
  lemma {:induction false} DrainFrontIsInsertionOrder<V>(l: LinkedList<V>)
    requires Valid(l)
    ensures DrainFront(l) == AllObjects(l)
    decreases |l.cells|
  {
    if l.cells != [] {
      DrainFrontIsInsertionOrder(RemoveFirstObject(l));
    }
  }

  /** Removing tails visits the elements in reverse insertion order. */
  lemma {:induction false} DrainBackIsReverseOrder<V>(l: LinkedList<V>)
    requires Valid(l)
    ensures DrainBack(l) == Reverse(AllObjects(l))
    decreases |l.cells|
  {
    if l.cells != [] {
      var s := AllObjects(l);
      DrainBackIsReverseOrder(RemoveLastObject(l));
      ReverseLast(s);
    }
  }

  /** An array loaded into a list comes back out, head first, unchanged. */
  lemma WithArrayRoundTrip<V>(a: seq<V>)
    ensures DrainFront(WithArray(a)) == a
    ensures AllObjects(RemoveAllObjects(WithArray(a))) == []
    ensures FirstObject(RemoveAllObjects(WithArray(a))) == None
  {
    DrainFrontIsInsertionOrder(WithArray(a));
  }

  /** Equality removal takes out only the first of two equal elements. */
  lemma RemoveObjectTakesFirstOccurrence<V>(a: V, b: V, c: V)
    ensures AllObjects(RemoveObject(WithArray([a, b, a, c]), a)) == [b, a, c]
  {
    var l := WithArray([a, b, a, c]);
    var s := AllObjects(l);
    var r := RemoveObject(l, a);
    assert s[0] == a;
    var i :| IsFirstIndex(s, a, i) && AllObjects(r) == Without(s, i);
    assert i == 0;
  }
}
