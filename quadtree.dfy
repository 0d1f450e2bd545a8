/**
 * The point quadtree of js/QuadTree.js: a node covers a closed box, keeps up
 * to `capacity` items while it is a leaf, and on overflow splits into the
 * four quadrants NW, NE, SW, SE, hands its items down and delegates.
 *
 * A node is modelled as a value: each operation returns the node as the
 * source leaves it. The source's child nodes are created fresh by
 * `subdivide` and never shared, so no node is reachable twice.
 */
module QuadTreeIndex {
  import opened Wrappers
  import opened Planar

  /** What the index stores: a 2D position and the tag of the node it stands for. */
  datatype Item = Item(position: Point, tag: string)

  datatype Quadrant = NW | NE | SW | SE

  /**
   * The source's `insert` answers true or false; false means only that the
   * point lies outside the box. Because the source recurses without bound
   * when more than `capacity` items share one position, the model carries a
   * depth budget, and running out of it is a third answer.
   */
  datatype InsertOutcome = Rejected | Stored | OutOfFuel

  /** `divided` together with the four child fields: all null, or all set. */
  datatype Children = Undivided | Divided(northwest: Tree, northeast: Tree, southwest: Tree, southeast: Tree)

  /** One node: its box, its capacity, its own points and its children. */
  datatype Tree = Tree(bounds: Box, capacity: nat, points: seq<Item>, children: Children)

  /** The node an `insert` leaves behind, with the answer it gives. */
  datatype InsertResult = InsertResult(tree: Tree, outcome: InsertOutcome)

  /** The box of one quadrant, as `subdivide` computes it from the parent's box. */
  function QuadrantBox(b: Box, q: Quadrant): Box
  {
    var x := b.min.x;
    var y := b.min.y;
    var w := (b.max.x - b.min.x) / 2.0;
    var h := (b.max.y - b.min.y) / 2.0;
    match q
    case NW => Box(Point(x, y + h), Point(x + w, b.max.y))
    case NE => Box(Point(x + w, y + h), Point(b.max.x, b.max.y))
    case SW => Box(Point(x, y), Point(x + w, y + h))
    case SE => Box(Point(x + w, y), Point(b.max.x, y + h))
  }

  /** The order in which `insertToChildren` offers an item to the children. */
  const InsertionOrder: seq<Quadrant> := [NW, NE, SW, SE]

  /** The first quadrant of `qs` whose box contains `p`. */
  function FirstIn(b: Box, p: Point, qs: seq<Quadrant>): Option<Quadrant>
  {
    if qs == [] then None
    else if ContainsPoint(QuadrantBox(b, qs[0]), p) then Some(qs[0])
    else FirstIn(b, p, qs[1..])
  }

  /** The quadrant that `insertToChildren` hands `p` to: the first, in insertion order, whose box contains it. */
  function FirstQuadrant(b: Box, p: Point): Option<Quadrant>
  {
    FirstIn(b, p, InsertionOrder)
  }

  /** `FirstQuadrant` written out as the chain of tests `insertToChildren` performs. */
  lemma FirstQuadrantChain(b: Box, p: Point)
    ensures FirstQuadrant(b, p)
         == if ContainsPoint(QuadrantBox(b, NW), p) then Some(NW)
            else if ContainsPoint(QuadrantBox(b, NE), p) then Some(NE)
            else if ContainsPoint(QuadrantBox(b, SW), p) then Some(SW)
            else if ContainsPoint(QuadrantBox(b, SE), p) then Some(SE)
            else None
  {
    var s1: seq<Quadrant>, s2: seq<Quadrant>, s3: seq<Quadrant> := [NE, SW, SE], [SW, SE], [SE];
    assert InsertionOrder[1..] == s1 && s1[1..] == s2 && s2[1..] == s3 && s3[1..] == [];
    assert FirstIn(b, p, s3) == if ContainsPoint(QuadrantBox(b, SE), p) then Some(SE) else None;
    assert FirstIn(b, p, s2) == if ContainsPoint(QuadrantBox(b, SW), p) then Some(SW) else FirstIn(b, p, s3);
    assert FirstIn(b, p, s1) == if ContainsPoint(QuadrantBox(b, NE), p) then Some(NE) else FirstIn(b, p, s2);
  }

  /** The items, in order, that `insertToChildren` sends to quadrant `q`. */
  function InQuadrant(items: seq<Item>, b: Box, q: Quadrant): (r: seq<Item>)
    ensures |r| <= |items|
  {
    if items == [] then []
    else (if FirstQuadrant(b, items[0].position) == Some(q) then [items[0]] else [])
         + InQuadrant(items[1..], b, q)
  }

  /** The items, in order, whose position lies in `range`. */
  function InRange(items: seq<Item>, range: Box): (r: seq<Item>)
  {
    if items == [] then []
    else (if ContainsPoint(range, items[0].position) then [items[0]] else [])
         + InRange(items[1..], range)
  }

  /** The four quadrant boxes meet at the midpoint and cover the parent box exactly. */
  lemma QuadrantsCover(b: Box, p: Point)
    ensures ContainsPoint(b, p) <==> FirstQuadrant(b, p) != None
    ensures forall q :: ContainsPoint(QuadrantBox(b, q), p) ==> ContainsPoint(b, p)
  {
    FirstQuadrantChain(b, p);
  }

  /** On shared edges the first quadrant wins: the exact midpoint of a box goes to NW. */
  lemma MidpointGoesNorthWest(b: Box)
    requires b.min.x <= b.max.x && b.min.y <= b.max.y
    ensures FirstQuadrant(b, Point((b.min.x + b.max.x) / 2.0, (b.min.y + b.max.y) / 2.0)) == Some(NW)
  {
    FirstQuadrantChain(b, Point((b.min.x + b.max.x) / 2.0, (b.min.y + b.max.y) / 2.0));
  }

  lemma {:induction false} InRangeAppend(a: seq<Item>, b: seq<Item>, range: Box)
    ensures InRange(a + b, range) == InRange(a, range) + InRange(b, range)
  {
    if a == [] {
      assert a + b == b;
    } else {
      assert (a + b)[1..] == a[1..] + b;
      InRangeAppend(a[1..], b, range);
    }
  }

  /**
   * `query` finds each stored item exactly as often as it is stored when
   * its position lies in the range, and never otherwise.
   */
  lemma {:induction false} InRangeCount(items: seq<Item>, range: Box, x: Item)
    ensures multiset(InRange(items, range))[x] == if ContainsPoint(range, x.position) then multiset(items)[x] else 0
  {
    if items != [] {
      InRangeCount(items[1..], range, x);
      assert items == [items[0]] + items[1..];
    }
  }

  lemma InRangeSnoc(s: seq<Item>, i: nat, range: Box)
    requires i < |s|
    ensures InRange(s[..i + 1], range) == InRange(s[..i], range) + (if ContainsPoint(range, s[i].position) then [s[i]] else [])
  {
    assert s[..i + 1] == s[..i] + [s[i]];
    InRangeAppend(s[..i], [s[i]], range);
  }

  lemma InRangeAppend4(a: seq<Item>, b: seq<Item>, c: seq<Item>, d: seq<Item>, range: Box)
    ensures InRange(a + b + c + d, range) == InRange(a, range) + InRange(b, range) + InRange(c, range) + InRange(d, range)
  {
    InRangeAppend(a, b, range);
    InRangeAppend(a + b, c, range);
    InRangeAppend(a + b + c, d, range);
  }

  lemma {:induction false} InQuadrantSnoc(items: seq<Item>, x: Item, b: Box, q: Quadrant)
    ensures InQuadrant(items + [x], b, q)
         == InQuadrant(items, b, q) + (if FirstQuadrant(b, x.position) == Some(q) then [x] else [])
  {
    if items == [] {
      assert items + [x] == [x];
    } else {
      assert (items + [x])[1..] == items[1..] + [x];
      InQuadrantSnoc(items[1..], x, b, q);
    }
  }

  lemma InQuadrantCons(h: Item, t: seq<Item>, b: Box, q: Quadrant)
    ensures multiset(InQuadrant([h] + t, b, q))
         == (if FirstQuadrant(b, h.position) == Some(q) then multiset{h} else multiset{}) + multiset(InQuadrant(t, b, q))
  {
    assert ([h] + t)[1..] == t;
  }

  /** Adding `one` to exactly one of four multisets adds it to their sum. */
  lemma AddToShare<T>(q0: Quadrant, one: multiset<T>, nw: multiset<T>, ne: multiset<T>, sw: multiset<T>, se: multiset<T>,
                      nw': multiset<T>, ne': multiset<T>, sw': multiset<T>, se': multiset<T>)
    requires nw' == (if q0 == NW then one else multiset{}) + nw
    requires ne' == (if q0 == NE then one else multiset{}) + ne
    requires sw' == (if q0 == SW then one else multiset{}) + sw
    requires se' == (if q0 == SE then one else multiset{}) + se
    ensures nw' + ne' + sw' + se' == one + (nw + ne + sw + se)
  {
  }

  /** Items inside the parent box are split by `insertToChildren` without loss or duplication. */
  lemma {:induction false} QuadrantsPartition(items: seq<Item>, b: Box)
    requires forall x :: x in items ==> ContainsPoint(b, x.position)
    ensures multiset(InQuadrant(items, b, NW)) + multiset(InQuadrant(items, b, NE))
            + multiset(InQuadrant(items, b, SW)) + multiset(InQuadrant(items, b, SE)) == multiset(items)
  {
    if items != [] {
      var h, t := items[0], items[1..];
      assert items == [h] + t;
      assert multiset(items) == multiset{h} + multiset(t);
      QuadrantsPartition(t, b);
      assert FirstQuadrant(b, h.position).Some? by {
        assert h in items;
        QuadrantsCover(b, h.position);
      }
      var q0 := FirstQuadrant(b, h.position).value;
      InQuadrantCons(h, t, b, NW);
      InQuadrantCons(h, t, b, NE);
      InQuadrantCons(h, t, b, SW);
      InQuadrantCons(h, t, b, SE);
      AddToShare(q0, multiset{h}, multiset(InQuadrant(t, b, NW)), multiset(InQuadrant(t, b, NE)),
                 multiset(InQuadrant(t, b, SW)), multiset(InQuadrant(t, b, SE)),
                 multiset(InQuadrant(items, b, NW)), multiset(InQuadrant(items, b, NE)),
                 multiset(InQuadrant(items, b, SW)), multiset(InQuadrant(items, b, SE)));
    }
  }

  /** A stored item lies in the box of the node that stores it, so a box disjoint from the range holds nothing found. */
  lemma {:induction false} NothingInDisjointRange(items: seq<Item>, b: Box, range: Box)
    requires forall x :: x in items ==> ContainsPoint(b, x.position)
    requires !IntersectsBox(b, range)
    ensures InRange(items, range) == []
  {
    if items != [] {
      NothingInDisjointRange(items[1..], b, range);
    }
  }

  function Child(t: Tree, q: Quadrant): Tree
    requires t.children.Divided?
  {
    match q
    case NW => t.children.northwest
    case NE => t.children.northeast
    case SW => t.children.southwest
    case SE => t.children.southeast
  }

  /** `t` with child `q` replaced by `c`. */
  function WithChild(t: Tree, q: Quadrant, c: Tree): (r: Tree)
    requires t.children.Divided?
    ensures r.children.Divided? && Child(r, q) == c
    ensures forall q' :: q' != q ==> Child(r, q') == Child(t, q')
    ensures r.bounds == t.bounds && r.capacity == t.capacity && r.points == t.points
  {
    match q
    case NW => t.(children := t.children.(northwest := c))
    case NE => t.(children := t.children.(northeast := c))
    case SW => t.(children := t.children.(southwest := c))
    case SE => t.(children := t.children.(southeast := c))
  }

  /** Every item stored in the subtree, in the order `query` visits them: own points, then NW, NE, SW, SE. */
  function Elems(t: Tree): seq<Item>
  {
    t.points + ChildElems(t)
  }

  function ChildElems(t: Tree): seq<Item>
    decreases t, 0
  {
    match t.children
    case Undivided => []
    case Divided(nw, ne, sw, se) => Elems(nw) + Elems(ne) + Elems(sw) + Elems(se)
  }

  /**
   * A leaf holds at most `capacity` points, each inside its box; a divided
   * node holds no points of its own and four valid children.
   */
  predicate Valid(t: Tree)
    decreases t, 1
  {
    match t.children
    case Undivided =>
      |t.points| <= t.capacity && forall x :: x in t.points ==> ContainsPoint(t.bounds, x.position)
    case Divided(_, _, _, _) =>
      t.points == [] && ChildrenValid(t)
  }

  /** The four children of a divided node lie on its quadrant boxes, share its capacity, and are valid. */
  predicate ChildrenValid(t: Tree)
    decreases t, 0
  {
    match t.children
    case Undivided => false
    case Divided(nw, ne, sw, se) =>
      && nw.bounds == QuadrantBox(t.bounds, NW) && ne.bounds == QuadrantBox(t.bounds, NE)
      && sw.bounds == QuadrantBox(t.bounds, SW) && se.bounds == QuadrantBox(t.bounds, SE)
      && nw.capacity == t.capacity && ne.capacity == t.capacity
      && sw.capacity == t.capacity && se.capacity == t.capacity
      && Valid(nw) && Valid(ne) && Valid(sw) && Valid(se)
  }

  /** The multiset of items stored in the subtree. */
  function Bag(t: Tree): multiset<Item>
  {
    multiset(t.points) + ChildBag(t)
  }

  function ChildBag(t: Tree): multiset<Item>
    decreases t, 0
  {
    match t.children
    case Undivided => multiset{}
    case Divided(nw, ne, sw, se) => Bag(nw) + Bag(ne) + Bag(sw) + Bag(se)
  }

  /** Every item stored in a valid subtree lies inside the subtree's box. */
  lemma {:induction false} ElemsInside(t: Tree)
    requires Valid(t)
    ensures forall x :: x in Elems(t) ==> ContainsPoint(t.bounds, x.position)
    decreases t
  {
    match t.children
    case Undivided =>
    case Divided(nw, ne, sw, se) =>
      ElemsInside(nw);
      ElemsInside(ne);
      ElemsInside(sw);
      ElemsInside(se);
      forall x | x in Elems(t)
        ensures ContainsPoint(t.bounds, x.position)
      {
        assert Elems(t) == Elems(nw) + Elems(ne) + Elems(sw) + Elems(se);
        assert x in Elems(nw) || x in Elems(ne) || x in Elems(sw) || x in Elems(se);
        QuadrantsCover(t.bounds, x.position);
      }
  }

  /** What `query` finds in a divided valid node is what its four children find, in order. */
  lemma QueryOrder(t: Tree, range: Box, found: seq<Item>)
    requires t.children.Divided? && t.points == []
    ensures found + InRange(Elems(t), range)
         == found + InRange(Elems(t.children.northwest), range) + InRange(Elems(t.children.northeast), range)
            + InRange(Elems(t.children.southwest), range) + InRange(Elems(t.children.southeast), range)
  {
    var c := t.children;
    var a, b, d, e := Elems(c.northwest), Elems(c.northeast), Elems(c.southwest), Elems(c.southeast);
    assert ChildElems(t) == a + b + d + e;
    assert Elems(t) == [] + ChildElems(t) == ChildElems(t);
    InRangeAppend4(a, b, d, e, range);
    var ia, ib, id, ie := InRange(a, range), InRange(b, range), InRange(d, range), InRange(e, range);
    assert found + (ia + ib + id + ie) == found + ia + ib + id + ie;
  }

  /** The constructor: an undivided node with no points over `bounds`. */
  function NewTree(bounds: Box, capacity: nat): (t: Tree)
    ensures Valid(t) && Elems(t) == [] && !t.children.Divided?
    ensures t.bounds == bounds && t.capacity == capacity
  {
    Tree(bounds, capacity, [], Undivided)
  }

  /**
   * `insert`: an item outside the box is rejected; a leaf with room appends
   * it; otherwise, with depth budget left, the node splits if it has not yet
   * and hands the item to its children. The result keeps the invariant.
   */
  function Insert(t: Tree, item: Item, fuel: nat): (r: InsertResult)
    requires Valid(t)
    decreases fuel, 3, 0
    ensures Valid(r.tree) && r.tree.bounds == t.bounds && r.tree.capacity == t.capacity
    ensures t.children.Divided? ==> r.tree.children.Divided?
  {
    if !ContainsPoint(t.bounds, item.position) then
      InsertResult(t, Rejected)
    else if |t.points| < t.capacity && !t.children.Divided? then
      InsertResult(t.(points := t.points + [item]), Stored)
    else if fuel == 0 then
      InsertResult(t, OutOfFuel)
    else
      var s := if t.children.Divided? then t else Subdivide(t, fuel);
      InsertToChildren(s, item, fuel)
  }

  /**
   * `insertToChildren`: `NW.insert(p) || NE.insert(p) || SW.insert(p) ||
   * SE.insert(p)`, each child tried only when the one before answered false.
   * The node's own points are not read, which is why `subdivide` can call
   * this while it still holds them.
   */
  function InsertToChildren(t: Tree, item: Item, fuel: nat): (r: InsertResult)
    requires ChildrenValid(t) && fuel >= 1
    decreases fuel, 0, 0
    ensures ChildrenValid(r.tree) && r.tree.children.Divided?
    ensures r.tree.bounds == t.bounds && r.tree.capacity == t.capacity && r.tree.points == t.points
  {
    var nw := Insert(Child(t, NW), item, fuel - 1);
    if nw.outcome != Rejected then InsertResult(WithChild(t, NW, nw.tree), nw.outcome)
    else
      var ne := Insert(Child(t, NE), item, fuel - 1);
      if ne.outcome != Rejected then InsertResult(WithChild(t, NE, ne.tree), ne.outcome)
      else
        var sw := Insert(Child(t, SW), item, fuel - 1);
        if sw.outcome != Rejected then InsertResult(WithChild(t, SW, sw.tree), sw.outcome)
        else
          var se := Insert(Child(t, SE), item, fuel - 1);
          InsertResult(WithChild(t, SE, se.tree), se.outcome)
  }

  /** The `forEach` of `subdivide`: hands each pending point, in order, to `insertToChildren`. */
  function MoveToChildren(t: Tree, pending: seq<Item>, fuel: nat): (r: Tree)
    requires ChildrenValid(t) && fuel >= 1
    decreases fuel, 1, |pending|
    ensures ChildrenValid(r) && r.children.Divided?
    ensures r.bounds == t.bounds && r.capacity == t.capacity && r.points == t.points
  {
    if pending == [] then t
    else MoveToChildren(InsertToChildren(t, pending[0], fuel).tree, pending[1..], fuel)
  }

  /**
   * `subdivide`: four empty children on the quadrant boxes with this node's
   * capacity, every held point handed to `insertToChildren`, then the node's
   * own list emptied.
   */
  function Subdivide(t: Tree, fuel: nat): (s: Tree)
    requires Valid(t) && !t.children.Divided? && fuel >= 1
    decreases fuel, 2, 0
    ensures Valid(s) && s.children.Divided?
    ensures s.bounds == t.bounds && s.capacity == t.capacity
  {
    var kids := Divided(NewTree(QuadrantBox(t.bounds, NW), t.capacity), NewTree(QuadrantBox(t.bounds, NE), t.capacity),
                        NewTree(QuadrantBox(t.bounds, SW), t.capacity), NewTree(QuadrantBox(t.bounds, SE), t.capacity));
    MoveToChildren(t.(children := kids), t.points, fuel).(points := [])
  }

  /**
   * What `insert` answers: false (Rejected) exactly when the position is
   * outside the node's closed box, and then nothing changes; on a leaf with
   * room the item is appended at the end, the answer is true and the node
   * does not split.
   */
  lemma {:induction false} InsertOutcomes(t: Tree, item: Item, fuel: nat)
    requires Valid(t)
    decreases fuel, 1
    ensures var r := Insert(t, item, fuel);
      && (r.outcome == Rejected <==> !ContainsPoint(t.bounds, item.position))
      && (r.outcome == Rejected ==> r.tree == t)
      && (ContainsPoint(t.bounds, item.position) && !t.children.Divided? && |t.points| < t.capacity
          ==> r == InsertResult(t.(points := t.points + [item]), Stored))
  {
    if ContainsPoint(t.bounds, item.position) && (|t.points| >= t.capacity || t.children.Divided?) && fuel > 0 {
      var s := if t.children.Divided? then t else Subdivide(t, fuel);
      assert ChildrenValid(s);
      QuadrantsCover(t.bounds, item.position);
      InsertToChildrenFirst(s, item, fuel);
    }
  }

  /**
   * `insertToChildren` stores the item in at most one child: the first, in
   * the order NW, NE, SW, SE, whose box contains the position. It answers
   * false exactly when no quadrant box contains it, and every other child is
   * left as it was.
   */
  lemma {:induction false} InsertToChildrenFirst(t: Tree, item: Item, fuel: nat)
    requires ChildrenValid(t) && fuel >= 1
    decreases fuel, 0
    ensures var r := InsertToChildren(t, item, fuel);
      && (r.outcome == Rejected <==> FirstQuadrant(t.bounds, item.position) == None)
      && (r.outcome == Rejected ==> r.tree == t)
      && (forall q :: FirstQuadrant(t.bounds, item.position) != Some(q) ==> Child(r.tree, q) == Child(t, q))
      && forall q :: FirstQuadrant(t.bounds, item.position) == Some(q) ==>
           var c := Insert(Child(t, q), item, fuel - 1);
           r == InsertResult(WithChild(t, q, c.tree), c.outcome)
  {
    var p := item.position;
    FirstQuadrantChain(t.bounds, p);
    InsertOutcomes(Child(t, NW), item, fuel - 1);
    if !ContainsPoint(QuadrantBox(t.bounds, NW), p) {
      InsertOutcomes(Child(t, NE), item, fuel - 1);
      if !ContainsPoint(QuadrantBox(t.bounds, NE), p) {
        InsertOutcomes(Child(t, SW), item, fuel - 1);
        if !ContainsPoint(QuadrantBox(t.bounds, SW), p) {
          InsertOutcomes(Child(t, SE), item, fuel - 1);
        }
      }
    }
  }

  /** The child that receives the item, when it is a leaf with room, appends it and answers true. */
  lemma InsertToChildrenLeaf(t: Tree, item: Item, fuel: nat, q: Quadrant)
    requires ChildrenValid(t) && fuel >= 1
    requires FirstQuadrant(t.bounds, item.position) == Some(q)
    requires !Child(t, q).children.Divided? && |Child(t, q).points| < t.capacity
    ensures var r := InsertToChildren(t, item, fuel);
      && r.outcome == Stored
      && r.tree == WithChild(t, q, Child(t, q).(points := Child(t, q).points + [item]))
  {
    InsertToChildrenFirst(t, item, fuel);
    InsertOutcomes(Child(t, q), item, fuel - 1);
  }

  /** Room for every child's share of the pending items. */
  predicate RoomFor(t: Tree, pending: seq<Item>)
    requires t.children.Divided?
  {
    forall q :: !Child(t, q).children.Divided? && |Child(t, q).points| + |InQuadrant(pending, t.bounds, q)| <= t.capacity
  }

  /**
   * One turn of the re-insertion loop, seen from child `q`: if the turn
   * appended the head to the child it belongs to and left the others alone,
   * that child's share moves from pending to stored.
   */
  lemma {:induction false} MoveStepAt(t: Tree, pending: seq<Item>, u: Tree, q: Quadrant)
    requires t.children.Divided? && u.children.Divided? && pending != [] && RoomFor(t, pending)
    requires FirstQuadrant(t.bounds, pending[0].position) != Some(q) ==> Child(u, q) == Child(t, q)
    requires FirstQuadrant(t.bounds, pending[0].position) == Some(q)
             ==> Child(u, q) == Child(t, q).(points := Child(t, q).points + [pending[0]])
    ensures var c := Child(u, q);
      && !c.children.Divided? && |c.points| + |InQuadrant(pending[1..], t.bounds, q)| <= t.capacity
      && c.(points := c.points + InQuadrant(pending[1..], t.bounds, q))
         == Child(t, q).(points := Child(t, q).points + InQuadrant(pending, t.bounds, q))
  {
    var h, c0, c := pending[0], Child(t, q), Child(u, q);
    var rest := InQuadrant(pending[1..], t.bounds, q);
    assert |c0.points| + |InQuadrant(pending, t.bounds, q)| <= t.capacity;
    if FirstQuadrant(t.bounds, h.position) == Some(q) {
      assert InQuadrant(pending, t.bounds, q) == [h] + rest;
      assert c.points + rest == c0.points + [h] + rest == c0.points + ([h] + rest);
    } else {
      assert InQuadrant(pending, t.bounds, q) == rest;
    }
  }

  /** One turn of the re-insertion loop keeps room for the rest and moves one item to its share. */
  lemma MoveStep(t: Tree, pending: seq<Item>, fuel: nat)
    requires ChildrenValid(t) && fuel >= 1 && pending != [] && RoomFor(t, pending)
    ensures var u := InsertToChildren(t, pending[0], fuel).tree;
      && RoomFor(u, pending[1..])
      && forall q :: Child(u, q).(points := Child(u, q).points + InQuadrant(pending[1..], t.bounds, q))
                  == Child(t, q).(points := Child(t, q).points + InQuadrant(pending, t.bounds, q))
  {
    var h := pending[0];
    var u := InsertToChildren(t, h, fuel).tree;
    InsertToChildrenFirst(t, h, fuel);
    match FirstQuadrant(t.bounds, h.position)
    case None =>
      forall q {
        MoveStepAt(t, pending, u, q);
      }
    case Some(q0) =>
      assert InQuadrant(pending, t.bounds, q0) == [h] + InQuadrant(pending[1..], t.bounds, q0);
      InsertToChildrenLeaf(t, h, fuel, q0);
      forall q {
        MoveStepAt(t, pending, u, q);
      }
  }

  /**
   * The re-insertion loop of `subdivide`: when every child is a leaf with
   * room for its share, each child ends up with its old points followed by
   * the pending items whose first quadrant it is, in their order.
   */
  lemma {:induction false} MoveToChildrenExact(t: Tree, pending: seq<Item>, fuel: nat)
    requires ChildrenValid(t) && fuel >= 1 && RoomFor(t, pending)
    ensures forall q :: Child(MoveToChildren(t, pending, fuel), q)
                     == Child(t, q).(points := Child(t, q).points + InQuadrant(pending, t.bounds, q))
    decreases |pending|
  {
    if pending == [] {
      forall q
        ensures Child(t, q).points + InQuadrant(pending, t.bounds, q) == Child(t, q).points
      {
      }
    } else {
      var u := InsertToChildren(t, pending[0], fuel).tree;
      MoveStep(t, pending, fuel);
      MoveToChildrenExact(u, pending[1..], fuel);
    }
  }

  /**
   * A successful `insert` adds exactly one occurrence of the item to the
   * items stored in the tree; any other answer leaves them as they were.
   */
  lemma {:induction false} InsertCount(t: Tree, item: Item, fuel: nat)
    requires Valid(t)
    decreases fuel, 1
    ensures var r := Insert(t, item, fuel);
      && (r.outcome == Stored ==> Bag(r.tree) == Bag(t) + multiset{item})
      && (r.outcome != Stored ==> Bag(r.tree) == Bag(t))
  {
    if !ContainsPoint(t.bounds, item.position) {
    } else if |t.points| < t.capacity && !t.children.Divided? {
      assert multiset(t.points + [item]) == multiset(t.points) + multiset{item};
    } else if fuel > 0 {
      var s := if t.children.Divided? then t else Subdivide(t, fuel);
      if !t.children.Divided? {
        SubdivideExact(t, fuel);
      }
      assert ChildrenValid(s) && s.points == [];
      InsertToChildrenCount(s, item, fuel);
    }
  }

  /** The children's stored items gain exactly the item when `insertToChildren` answers true. */
  lemma {:induction false} InsertToChildrenCount(t: Tree, item: Item, fuel: nat)
    requires ChildrenValid(t) && fuel >= 1
    decreases fuel, 0
    ensures var r := InsertToChildren(t, item, fuel);
      && (r.outcome == Stored ==> ChildBag(r.tree) == ChildBag(t) + multiset{item})
      && (r.outcome != Stored ==> ChildBag(r.tree) == ChildBag(t))
  {
    InsertToChildrenFirst(t, item, fuel);
    match FirstQuadrant(t.bounds, item.position)
    case None =>
    case Some(q) =>
      InsertCount(Child(t, q), item, fuel - 1);
      ReplaceCount(t, q, Insert(Child(t, q), item, fuel - 1), item);
  }

  /** A child that gained the item, or nothing, makes the children's items gain the same. */
  lemma ReplaceCount(t: Tree, q: Quadrant, c: InsertResult, item: Item)
    requires t.children.Divided?
    requires c.outcome == Stored ==> Bag(c.tree) == Bag(Child(t, q)) + multiset{item}
    requires c.outcome != Stored ==> Bag(c.tree) == Bag(Child(t, q))
    ensures c.outcome == Stored ==> ChildBag(WithChild(t, q, c.tree)) == ChildBag(t) + multiset{item}
    ensures c.outcome != Stored ==> ChildBag(WithChild(t, q, c.tree)) == ChildBag(t)
  {
    WithChildBag(t, q, c.tree);
    var extra := if c.outcome == Stored then multiset{item} else multiset{};
    Cancel(ChildBag(WithChild(t, q, c.tree)), Bag(Child(t, q)), ChildBag(t), extra);
  }

  lemma Cancel<T>(a: multiset<T>, b: multiset<T>, c: multiset<T>, d: multiset<T>)
    requires a + b == c + (b + d)
    ensures a == c + d
  {
    forall x
      ensures a[x] == (c + d)[x]
    {
      assert (a + b)[x] == (c + (b + d))[x];
    }
  }

  /** Replacing one child replaces exactly that child's items among the children's. */
  lemma {:induction false} WithChildBag(t: Tree, q: Quadrant, c: Tree)
    requires t.children.Divided?
    ensures ChildBag(WithChild(t, q, c)) + Bag(Child(t, q)) == ChildBag(t) + Bag(c)
  {
    var u := WithChild(t, q, c);
    var k := t.children;
    var a, b, d, e := Bag(k.northwest), Bag(k.northeast), Bag(k.southwest), Bag(k.southeast);
    var m := Bag(c);
    match q
    case NW =>
      assert ChildBag(u) == m + b + d + e;
      assert (m + b + d + e) + a == (a + b + d + e) + m;
    case NE =>
      assert ChildBag(u) == a + m + d + e;
      assert (a + m + d + e) + b == (a + b + d + e) + m;
    case SW =>
      assert ChildBag(u) == a + b + m + e;
      assert (a + b + m + e) + d == (a + b + d + e) + m;
    case SE =>
      assert ChildBag(u) == a + b + d + m;
      assert (a + b + d + m) + e == (a + b + d + e) + m;
  }

  /**
   * `subdivide` leaves four undivided children on the quadrant boxes, with
   * the node's capacity, each holding the node's former points whose first
   * quadrant it is, in their order; no point is lost or duplicated.
   */
  lemma SubdivideExact(t: Tree, fuel: nat)
    requires Valid(t) && !t.children.Divided? && fuel >= 1
    ensures var s := Subdivide(t, fuel);
      && (forall q :: Child(s, q) == Tree(QuadrantBox(t.bounds, q), t.capacity, InQuadrant(t.points, t.bounds, q), Undivided))
      && Bag(s) == Bag(t)
  {
    var kids := Divided(NewTree(QuadrantBox(t.bounds, NW), t.capacity), NewTree(QuadrantBox(t.bounds, NE), t.capacity),
                        NewTree(QuadrantBox(t.bounds, SW), t.capacity), NewTree(QuadrantBox(t.bounds, SE), t.capacity));
    var k := t.(children := kids);
    forall q
      ensures !Child(k, q).children.Divided? && |Child(k, q).points| + |InQuadrant(t.points, t.bounds, q)| <= t.capacity
    {
    }
    MoveToChildrenExact(k, t.points, fuel);
    var s := Subdivide(t, fuel);
    forall q
      ensures Child(s, q) == Tree(QuadrantBox(t.bounds, q), t.capacity, InQuadrant(t.points, t.bounds, q), Undivided)
    {
      assert [] + InQuadrant(t.points, t.bounds, q) == InQuadrant(t.points, t.bounds, q);
    }
    SubdivideCount(t, s);
  }

  lemma SubdivideCount(t: Tree, s: Tree)
    requires !t.children.Divided? && forall x :: x in t.points ==> ContainsPoint(t.bounds, x.position)
    requires s.children.Divided? && s.points == []
    requires forall q :: !Child(s, q).children.Divided? && Child(s, q).points == InQuadrant(t.points, t.bounds, q)
    ensures Bag(s) == Bag(t)
  {
    LeafBag(t);
    assert Bag(s) == Bag(Child(s, NW)) + Bag(Child(s, NE)) + Bag(Child(s, SW)) + Bag(Child(s, SE));
    LeafBag(Child(s, NW));
    LeafBag(Child(s, NE));
    LeafBag(Child(s, SW));
    LeafBag(Child(s, SE));
    QuadrantsPartition(t.points, t.bounds);
  }

  lemma LeafBag(c: Tree)
    requires !c.children.Divided?
    ensures Bag(c) == multiset(c.points)
  {
  }

  /** The bag of a tree is the multiset of its items in query order. */
  lemma {:induction false} BagIsElems(t: Tree)
    ensures Bag(t) == multiset(Elems(t))
    decreases t, 1
  {
    ChildBagIsElems(t);
  }

  lemma {:induction false} ChildBagIsElems(t: Tree)
    ensures ChildBag(t) == multiset(ChildElems(t))
    decreases t, 0
  {
    match t.children
    case Undivided =>
    case Divided(nw, ne, sw, se) =>
      BagIsElems(nw);
      BagIsElems(ne);
      BagIsElems(sw);
      BagIsElems(se);
      assert ChildElems(t) == Elems(nw) + Elems(ne) + Elems(sw) + Elems(se);
  }

  /**
   * A successful `insert` adds exactly one occurrence of the item to the
   * tree's stored items, in the order `query` sees them; any other answer
   * leaves their multiset unchanged.
   */
  lemma InsertKeepsItems(t: Tree, item: Item, fuel: nat)
    requires Valid(t)
    ensures var r := Insert(t, item, fuel);
      && (r.outcome == Stored ==> multiset(Elems(r.tree)) == multiset(Elems(t)) + multiset{item})
      && (r.outcome != Stored ==> multiset(Elems(r.tree)) == multiset(Elems(t)))
  {
    InsertCount(t, item, fuel);
    BagIsElems(t);
    BagIsElems(Insert(t, item, fuel).tree);
  }

  /**
   * `query(range, found)`: appends to `found`, in tree order, exactly the
   * stored items whose position lies in `range`; a node whose box misses
   * the range adds nothing and visits no child.
   */
  method Query(t: Tree, range: Box, found: seq<Item>) returns (r: seq<Item>)
    requires Valid(t)
    decreases t
    ensures r == found + InRange(Elems(t), range)
    ensures !IntersectsBox(t.bounds, range) ==> r == found
  {
    if !IntersectsBox(t.bounds, range) {
      ElemsInside(t);
      NothingInDisjointRange(Elems(t), t.bounds, range);
      return found;
    }
    r := CollectInRange(t.points, range, found);
    if t.children.Divided? {
      assert r == found;
      var nw, ne, sw, se := t.children.northwest, t.children.northeast, t.children.southwest, t.children.southeast;
      assert ChildrenValid(t);
      QueryOrder(t, range, found);
      r := Query(nw, range, found);
      r := Query(ne, range, r);
      r := Query(sw, range, r);
      r := Query(se, range, r);
    } else {
      assert Elems(t) == t.points;
    }
  }

  /** The `forEach` of `query` over a node's own points: appends those inside `range`, in order. */
  method CollectInRange(points: seq<Item>, range: Box, found: seq<Item>) returns (r: seq<Item>)
    ensures r == found + InRange(points, range)
  {
    r := found;
    var i := 0;
    while i < |points|
      invariant 0 <= i <= |points|
      invariant r == found + InRange(points[..i], range)
    {
      InRangeSnoc(points, i, range);
      if ContainsPoint(range, points[i].position) {
        r := r + [points[i]];
      }
      i := i + 1;
    }
    assert points[..|points|] == points;
  }

  /** `clear`: back to an undivided node with no points and no children, over the same box. */
  function Clear(t: Tree): (r: Tree)
    ensures Valid(r) && !r.children.Divided? && r.points == [] && Elems(r) == []
    ensures r.bounds == t.bounds && r.capacity == t.capacity
  {
    NewTree(t.bounds, t.capacity)
  }
}
