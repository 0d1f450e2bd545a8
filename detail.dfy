/**
 * What the level-of-detail machinery does to the network, as functions of
 * the network's state: rebuilding the spatial index from the node map,
 * clustering the nodes in view when the camera is far away, the simplified
 * and full-detail looks, choosing the level from the camera's height, and
 * the set of nodes inside the padded viewport.
 */
module Detail {
  import opened Wrappers
  import opened Planar
  import opened Text
  import opened Viewport
  import opened QuadTreeIndex
  import opened Clustering
  import opened NodeTree

  /** A cluster as the client stores it: its centre, its members' tags, and whether its sphere is shown. */
  datatype Cluster = Cluster(position: Point, members: seq<string>, visible: bool)

  /** The parts of the client's state the level-of-detail operations read and write. */
  datatype Scene = Scene(graph: Graph, visible: set<string>, clusters: map<string, Cluster>, lod: Level, index: Tree)

  /** The box `initQuadtree` indexes, and its cell capacity. */
  const World: Box := Box(Point(-1000.0, -1000.0), Point(1000.0, 1000.0))
  const CellCapacity: nat := 4

  /** How deep an insertion may split cells (the client has no limit). */
  const DepthBudget: nat := 32

  /** Groups with more members than this become clusters. */
  const ClusterThreshold: nat := 10

  // ----- updateQuadtree -----

  /** The items `updateQuadtree` inserts, in the map's iteration order: each node's position under its tag. */
  function ItemsOf(m: map<string, ClientNode>, order: seq<string>): (r: seq<Item>)
    ensures |r| <= |order|
  {
    if order == [] then []
    else
      var front := ItemsOf(m, order[..|order| - 1]);
      var t := order[|order| - 1];
      if t in m then front + [Item(m[t].position, t)] else front
  }

  /** Inserting `items` one after the other. */
  function InsertAll(t: Tree, items: seq<Item>): (r: Tree)
    requires Valid(t)
    ensures Valid(r) && r.bounds == t.bounds && r.capacity == t.capacity
  {
    if items == [] then t else Insert(InsertAll(t, items[..|items| - 1]), items[|items| - 1], DepthBudget).tree
  }

  /** The index `updateQuadtree` builds: every node's position inserted, in iteration order, into a fresh tree over the world box. */
  function IndexOf(g: Graph): (r: Tree)
    ensures Valid(r) && r.bounds == World
  {
    InsertAll(NewTree(World, CellCapacity), ItemsOf(g.nodes, g.order))
  }

  /** One insertion adds at most the inserted item. */
  lemma InsertBounded(t: Tree, x: Item)
    requires Valid(t)
    ensures multiset(Elems(Insert(t, x, DepthBudget).tree)) <= multiset(Elems(t)) + multiset{x}
  {
    InsertKeepsItems(t, x, DepthBudget);
  }

  /** Inserting never invents items: the tree holds at most the old items and the inserted ones. */
  lemma {:induction false} InsertAllItems(t: Tree, items: seq<Item>)
    requires Valid(t)
    ensures multiset(Elems(InsertAll(t, items))) <= multiset(Elems(t)) + multiset(items)
    decreases |items|
  {
    if items != [] {
      var front, x := items[..|items| - 1], items[|items| - 1];
      var before := InsertAll(t, front);
      InsertAllItems(t, front);
      InsertBounded(before, x);
      LastSplit(items);
      BagsAdd(multiset(Elems(InsertAll(t, items))), multiset(Elems(before)), multiset(Elems(t)), multiset(front), x);
    }
  }

  lemma LastSplit(items: seq<Item>)
    requires items != []
    ensures multiset(items) == multiset(items[..|items| - 1]) + multiset{items[|items| - 1]}
  {
    assert items == items[..|items| - 1] + [items[|items| - 1]];
  }

  lemma BagsAdd(after: multiset<Item>, before: multiset<Item>, start: multiset<Item>, front: multiset<Item>, x: Item)
    requires after <= before + multiset{x} && before <= start + front
    ensures after <= start + (front + multiset{x})
  {
  }

  /** Each item is a present node's position under that node's key. */
  lemma {:induction false} ItemsOfSound(m: map<string, ClientNode>, order: seq<string>)
    ensures forall x :: x in ItemsOf(m, order) ==> x.tag in order && x.tag in m && m[x.tag].position == x.position
    decreases |order|
  {
    if order != [] {
      ItemsOfSound(m, order[..|order| - 1]);
    }
  }

  /** Everything in the index is a node of the map, at that node's position, inside the world box. */
  lemma IndexSound(g: Graph)
    ensures forall x :: x in Elems(IndexOf(g)) ==>
      x.tag in g.nodes && g.nodes[x.tag].position == x.position && ContainsPoint(World, x.position)
  {
    var items := ItemsOf(g.nodes, g.order);
    InsertAllItems(NewTree(World, CellCapacity), items);
    ItemsOfSound(g.nodes, g.order);
    ElemsInside(IndexOf(g));
    forall x | x in Elems(IndexOf(g))
      ensures x in items
    {
      assert multiset(Elems(IndexOf(g)))[x] > 0;
    }
  }

  /** The answer `insert` gives to each item in turn; `updateQuadtree` discards them. */
  function Answers(t: Tree, items: seq<Item>): (r: seq<InsertOutcome>)
    requires Valid(t)
    ensures |r| == |items|
  {
    if items == [] then []
    else
      var front := items[..|items| - 1];
      Answers(t, front) + [Insert(InsertAll(t, front), items[|items| - 1], DepthBudget).outcome]
  }

  /** The items, in order, whose insertion answered `Stored`. */
  function StoredOf(items: seq<Item>, answers: seq<InsertOutcome>): (r: seq<Item>)
    requires |answers| == |items|
    ensures |r| <= |items|
  {
    if items == [] then []
    else
      var n := |items| - 1;
      StoredOf(items[..n], answers[..n]) + (if answers[n] == Stored then [items[n]] else [])
  }

  /** A run of insertions keeps the old items and adds exactly the inserted items that were stored, each once. */
  lemma {:induction false} InsertAllExact(t: Tree, items: seq<Item>)
    requires Valid(t)
    ensures multiset(Elems(InsertAll(t, items))) == multiset(Elems(t)) + multiset(StoredOf(items, Answers(t, items)))
    decreases |items|
  {
    if items != [] {
      var n := |items| - 1;
      var front, a := items[..n], Answers(t, items);
      var r := Insert(InsertAll(t, front), items[n], DepthBudget);
      assert a[..n] == Answers(t, front) && a[n] == r.outcome;
      var added := if r.outcome == Stored then [items[n]] else [];
      assert StoredOf(items, a) == StoredOf(front, Answers(t, front)) + added;
      InsertAllExact(t, front);
      InsertKeepsItems(InsertAll(t, front), items[n], DepthBudget);
      assert multiset(Elems(InsertAll(t, items))) == multiset(Elems(InsertAll(t, front))) + multiset(added);
      BagsStep(multiset(Elems(InsertAll(t, items))), multiset(Elems(InsertAll(t, front))), multiset(Elems(t)),
               StoredOf(front, Answers(t, front)), StoredOf(items, a), added);
    }
  }

  lemma BagsStep(after: multiset<Item>, before: multiset<Item>, start: multiset<Item>, front: seq<Item>, all: seq<Item>, added: seq<Item>)
    requires after == before + multiset(added) && before == start + multiset(front) && all == front + added
    ensures after == start + multiset(all)
  {
  }

  /** An insertion of the run answers `Rejected` exactly when its item lies outside the tree's box. */
  lemma {:induction false} AnswersRejected(t: Tree, items: seq<Item>)
    requires Valid(t)
    ensures forall i :: 0 <= i < |items| ==> (Answers(t, items)[i] == Rejected <==> !ContainsPoint(t.bounds, items[i].position))
    decreases |items|
  {
    if items != [] {
      var n := |items| - 1;
      var front, a := items[..n], Answers(t, items);
      var before := InsertAll(t, front);
      var r := Insert(before, items[n], DepthBudget);
      assert a == Answers(t, front) + [r.outcome];
      AnswersRejected(t, front);
      forall i | 0 <= i < |items|
        ensures a[i] == Rejected <==> !ContainsPoint(t.bounds, items[i].position)
      {
        if i < n {
          assert a[i] == Answers(t, front)[i] && items[i] == front[i];
        } else {
          assert a[i] == r.outcome;
          InsertOutcomes(before, items[n], DepthBudget);
        }
      }
    }
  }

  /** An insertion that does not run out of fuel stores the item exactly when it lies in the box. */
  lemma StoredIffInside(t: Tree, item: Item, fuel: nat)
    requires Valid(t) && Insert(t, item, fuel).outcome != OutOfFuel
    ensures Insert(t, item, fuel).outcome == Stored <==> ContainsPoint(t.bounds, item.position)
  {
    InsertOutcomes(t, item, fuel);
  }

  /** When no insertion runs out of depth budget, the stored items are exactly the inserted ones inside the box, in order. */
  lemma {:induction false} StoredInBox(t: Tree, items: seq<Item>)
    requires Valid(t)
    requires forall i :: 0 <= i < |items| ==> Answers(t, items)[i] != OutOfFuel
    ensures StoredOf(items, Answers(t, items)) == InRange(items, t.bounds)
    decreases |items|
  {
    if items != [] {
      var n := |items| - 1;
      var front, a := items[..n], Answers(t, items);
      var before := InsertAll(t, front);
      var r := Insert(before, items[n], DepthBudget);
      assert a == Answers(t, front) + [r.outcome];
      assert a[..n] == Answers(t, front);
      forall i | 0 <= i < n
        ensures Answers(t, front)[i] != OutOfFuel
      {
        assert Answers(t, front)[i] == a[i];
      }
      StoredInBox(t, front);
      assert r.outcome == a[n];
      StoredIffInside(before, items[n], DepthBudget);
      InRangeSnoc(items, n, t.bounds);
      assert items[..n + 1] == items;
    }
  }

  /** The answers of the insertions `updateQuadtree` makes. */
  function RebuildAnswers(g: Graph): seq<InsertOutcome>
  {
    Answers(NewTree(World, CellCapacity), ItemsOf(g.nodes, g.order))
  }

  /** No insertion of the rebuild reached the depth budget. */
  predicate WithinDepth(g: Graph)
  {
    forall i :: 0 <= i < |RebuildAnswers(g)| ==> RebuildAnswers(g)[i] != OutOfFuel
  }

  /**
   * The index holds exactly the inserted items whose insertion answered
   * `Stored`; within the depth budget, those are exactly the items inside
   * the world box.
   */
  lemma IndexExact(g: Graph)
    ensures multiset(Elems(IndexOf(g))) == multiset(StoredOf(ItemsOf(g.nodes, g.order), RebuildAnswers(g)))
    ensures WithinDepth(g) ==> multiset(Elems(IndexOf(g))) == multiset(InRange(ItemsOf(g.nodes, g.order), World))
  {
    var t0, items := NewTree(World, CellCapacity), ItemsOf(g.nodes, g.order);
    assert IndexOf(g) == InsertAll(t0, items) && RebuildAnswers(g) == Answers(t0, items);
    InsertAllExact(t0, items);
    if WithinDepth(g) {
      StoredInBox(t0, items);
    }
  }

  /** Every listed key of the map contributes its node's position under its tag. */
  lemma {:induction false} ItemsOfComplete(m: map<string, ClientNode>, order: seq<string>, t: string)
    requires t in order && t in m
    ensures Item(m[t].position, t) in ItemsOf(m, order)
    decreases |order|
  {
    if order[|order| - 1] != t {
      assert t in order[..|order| - 1];
      ItemsOfComplete(m, order[..|order| - 1], t);
    }
  }

  /** A duplicate-free order gives items with distinct tags. */
  lemma {:induction false} ItemsOfDistinct(m: map<string, ClientNode>, order: seq<string>)
    requires Distinct(order)
    ensures DistinctTags(ItemsOf(m, order))
    decreases |order|
  {
    if order != [] {
      var front, t := order[..|order| - 1], order[|order| - 1];
      ItemsOfDistinct(m, front);
      ItemsOfSound(m, front);
      if t in m {
        var f := ItemsOf(m, front);
        assert Tags(f) !! Tags([Item(m[t].position, t)]) by {
          forall x | x in f
            ensures x.tag != t
          {
          }
        }
        DistinctTagsAppend(f, [Item(m[t].position, t)]);
      }
    }
  }

  /** Items with distinct tags occur at most once each. */
  lemma {:induction false} DistinctOnce(s: seq<Item>, x: Item)
    requires DistinctTags(s)
    ensures multiset(s)[x] <= 1
    decreases |s|
  {
    if s != [] {
      var front := s[..|s| - 1];
      assert s == front + [s[|s| - 1]];
      DistinctOnce(front, x);
    }
  }

  /** The same item at two positions occurs at least twice. */
  lemma Twice(s: seq<Item>, i: nat, j: nat)
    requires i < j < |s| && s[i] == s[j]
    ensures multiset(s)[s[i]] >= 2
  {
    assert s == s[..j] + [s[j]] + s[j + 1..];
    assert s[i] in s[..j];
  }

  /** On a well-keyed graph no tag is indexed twice. */
  lemma IndexDistinct(g: Graph)
    requires WellKeyed(g)
    ensures DistinctTags(Elems(IndexOf(g)))
  {
    var e, items := Elems(IndexOf(g)), ItemsOf(g.nodes, g.order);
    IndexSound(g);
    InsertAllItems(NewTree(World, CellCapacity), items);
    ItemsOfDistinct(g.nodes, g.order);
    forall i, j | 0 <= i < j < |e|
      ensures e[i].tag != e[j].tag
    {
      if e[i].tag == e[j].tag {
        assert e[i] == e[j];
        Twice(e, i, j);
        DistinctOnce(items, e[i]);
        assert false;
      }
    }
  }

  /**
   * Within the depth budget, every node of a well-keyed graph inside the
   * world box is in the index, and exactly once.
   */
  lemma IndexComplete(g: Graph, t: string)
    requires WellKeyed(g) && WithinDepth(g) && t in g.nodes && ContainsPoint(World, g.nodes[t].position)
    ensures multiset(Elems(IndexOf(g)))[Item(g.nodes[t].position, t)] == 1
  {
    var x, items := Item(g.nodes[t].position, t), ItemsOf(g.nodes, g.order);
    WellKeyedMeaning(g);
    IndexExact(g);
    InRangeCount(items, World, x);
    ItemsOfComplete(g.nodes, g.order, t);
    ItemsOfDistinct(g.nodes, g.order);
    DistinctOnce(items, x);
  }

  // ----- applyClustering -----

  /** What `query(getViewportBounds())` returns on a freshly built index. */
  function InView(g: Graph, cam: Camera): seq<Item>
  {
    InRange(Elems(IndexOf(g)), ViewportBounds(cam))
  }

  /** Each item in view is a node of the map at its own position, inside the viewport. */
  lemma InViewSound(g: Graph, cam: Camera)
    ensures forall x :: x in InView(g, cam) ==>
      x.tag in g.nodes && g.nodes[x.tag].position == x.position && ContainsPoint(ViewportBounds(cam), x.position)
  {
    IndexSound(g);
    forall x | x in InView(g, cam)
      ensures x in Elems(IndexOf(g)) && ContainsPoint(ViewportBounds(cam), x.position)
    {
      InRangeCount(Elems(IndexOf(g)), ViewportBounds(cam), x);
      assert multiset(InView(g, cam))[x] > 0;
    }
  }

  /** The groups `groupNearbyNodes` forms from the nodes in view. */
  function Groups(g: Graph, cam: Camera): seq<seq<Item>>
  {
    Grouping(InView(g, cam))
  }

  /** Filtering by a box keeps tags distinct. */
  lemma {:induction false} InRangeDistinct(s: seq<Item>, b: Box)
    requires DistinctTags(s)
    ensures DistinctTags(InRange(s, b))
    decreases |s|
  {
    if s != [] {
      var head, rest := if ContainsPoint(b, s[0].position) then [s[0]] else [], InRange(s[1..], b);
      assert DistinctTags(s[1..]) by {
        forall i, j | 0 <= i < j < |s[1..]|
          ensures s[1..][i].tag != s[1..][j].tag
        {
          assert s[1..][i] == s[i + 1] && s[1..][j] == s[j + 1];
        }
      }
      InRangeDistinct(s[1..], b);
      assert Tags(head) !! Tags(rest) by {
        forall y | y in rest
          ensures y.tag != s[0].tag
        {
          InRangeCount(s[1..], b, y);
          assert multiset(rest)[y] > 0;
          var k :| 0 <= k < |s[1..]| && s[1..][k] == y;
          assert s[k + 1] == y;
        }
      }
      DistinctTagsAppend(head, rest);
    }
  }

  /** On a well-keyed graph the query never returns a tag twice, so the groups partition what it returns. */
  lemma InViewGrouped(g: Graph, cam: Camera)
    requires WellKeyed(g)
    ensures DistinctTags(InView(g, cam))
    ensures multiset(Flatten(Groups(g, cam))) == multiset(InView(g, cam))
  {
    IndexDistinct(g);
    InRangeDistinct(Elems(IndexOf(g)), ViewportBounds(cam));
    GroupingPartition(InView(g, cam));
  }

  /**
   * Within the depth budget, a node of a well-keyed graph that lies in the
   * world box and in the viewport is returned by the query once and lands
   * in exactly one group.
   */
  lemma InViewComplete(g: Graph, cam: Camera, t: string)
    requires WellKeyed(g) && WithinDepth(g) && t in g.nodes
    requires ContainsPoint(World, g.nodes[t].position) && ContainsPoint(ViewportBounds(cam), g.nodes[t].position)
    ensures multiset(InView(g, cam))[Item(g.nodes[t].position, t)] == 1
    ensures multiset(Flatten(Groups(g, cam)))[Item(g.nodes[t].position, t)] == 1
  {
    var x := Item(g.nodes[t].position, t);
    IndexComplete(g, t);
    InRangeCount(Elems(IndexOf(g)), ViewportBounds(cam), x);
    InViewGrouped(g, cam);
  }

  /** A member of one group is in the groups laid end to end. */
  lemma {:induction false} InFlatten(gs: seq<seq<Item>>, i: nat, x: Item)
    requires i < |gs| && x in gs[i]
    ensures x in Flatten(gs)
    decreases |gs|
  {
    if i < |gs| - 1 {
      InFlatten(gs[..|gs| - 1], i, x);
    }
  }

  /** Every key a group member carries is a key of the map. */
  predicate Known(m: map<string, ClientNode>, gs: seq<seq<Item>>)
  {
    forall i, k :: 0 <= i < |gs| && 0 <= k < |gs[i]| ==> gs[i][k].tag in m
  }

  /** Every member of every group is an item in view. */
  lemma GroupsSound(g: Graph, cam: Camera)
    ensures forall i, x :: 0 <= i < |Groups(g, cam)| && x in Groups(g, cam)[i] ==> x in InView(g, cam)
    ensures Known(g.nodes, Groups(g, cam))
  {
    var gs, items := Groups(g, cam), InView(g, cam);
    GroupPrefixMembers(items, |items|);
    InViewSound(g, cam);
    forall i, x | 0 <= i < |gs| && x in gs[i]
      ensures x in items
    {
      InFlatten(gs, i, x);
    }
    forall i, k | 0 <= i < |gs| && 0 <= k < |gs[i]|
      ensures gs[i][k].tag in g.nodes
    {
      assert gs[i][k] in gs[i];
    }
  }

  /** Groups with more members than the threshold become clusters. */
  predicate Big(group: seq<Item>)
  {
    |group| > ClusterThreshold
  }

  /** The key the cluster made from group `i` is stored under. */
  function ClusterKey(i: nat): string
  {
    "cluster-" + NatToString(i)
  }

  /** Different groups give different cluster keys. */
  lemma ClusterKeyInjective(i: nat, j: nat)
    ensures ClusterKey(i) == ClusterKey(j) ==> i == j
  {
    if ClusterKey(i) == ClusterKey(j) {
      assert ClusterKey(i)[8..] == NatToString(i);
      assert ClusterKey(j)[8..] == NatToString(j);
      NatToStringInjective(i, j);
    }
  }

  /** `group.map(item => this.nodes.get(item.tag))`. */
  function NodesOf(m: map<string, ClientNode>, group: seq<Item>): (r: seq<ClientNode>)
    requires forall k :: 0 <= k < |group| ==> group[k].tag in m
    ensures |r| == |group|
  {
    seq(|group|, k requires 0 <= k < |group| => m[group[k].tag])
  }

  function PositionsOf(ns: seq<ClientNode>): (r: seq<Point>)
    ensures |r| == |ns|
  {
    seq(|ns|, k requires 0 <= k < |ns| => ns[k].position)
  }

  function TagsOf(ns: seq<ClientNode>): (r: seq<string>)
    ensures |r| == |ns|
  {
    seq(|ns|, k requires 0 <= k < |ns| => ns[k].tag)
  }

  /** What `createCluster(nodes)` builds: a shown sphere at the mean position, listing the nodes' tags. */
  function ClusterFrom(ns: seq<ClientNode>): Cluster
    requires ns != []
  {
    Cluster(Centroid(PositionsOf(ns)), TagsOf(ns), true)
  }

  /** The clusters made from the groups `gs`, in the map `applyClustering` fills. */
  function ClusterMap(m: map<string, ClientNode>, gs: seq<seq<Item>>): map<string, Cluster>
    requires Known(m, gs)
  {
    if gs == [] then map[]
    else
      var front, g := gs[..|gs| - 1], gs[|gs| - 1];
      assert forall k :: 0 <= k < |g| ==> g[k].tag in m;
      var r := ClusterMap(m, front);
      if Big(g) then r[ClusterKey(|gs| - 1) := ClusterFrom(NodesOf(m, g))] else r
  }

  /** The tags of all members of big groups: the nodes clustering hides. */
  function BigTags(gs: seq<seq<Item>>): set<string>
  {
    if gs == [] then {} else BigTags(gs[..|gs| - 1]) + (if Big(gs[|gs| - 1]) then Tags(gs[|gs| - 1]) else {})
  }

  /** A connection line, if the node has one, shown or hidden. */
  function Showing(line: Option<bool>, shown: bool): Option<bool>
  {
    if line.Some? then Some(shown) else None
  }

  /** A clustered node: sphere, label and line hidden. */
  function Hide(l: Look): Look
  {
    l.(meshVisible := false, labelVisible := false, line := Showing(l.line, false))
  }

  /** The map with the nodes under `hs` hidden. */
  function HideTags(m: map<string, ClientNode>, hs: set<string>): map<string, ClientNode>
  {
    map t | t in m :: if t in hs then m[t].(look := Hide(m[t].look)) else m[t]
  }

  /**
   * `applyClustering`: drop the old clusters, rebuild the index, query it
   * with the viewport, group what it finds, and for every group with more
   * than ten members store a cluster under `cluster-<group index>` and hide
   * the members.
   */
  function AfterClustering(s: Scene, cam: Camera): Scene
  {
    var gs := Groups(s.graph, cam);
    GroupsSound(s.graph, cam);
    s.(graph := s.graph.(nodes := HideTags(s.graph.nodes, BigTags(gs))),
       clusters := ClusterMap(s.graph.nodes, gs),
       index := IndexOf(s.graph))
  }

  // ----- showSimplifiedNodes / showFullDetail -----

  /** The full-detail look: sphere shown at scale 1, label shown, line shown. */
  function FullLook(l: Look): Look
  {
    Look(true, 1.0, true, Showing(l.line, true))
  }

  /** The simplified look: sphere shown at scale 0.7, label hidden, line shown. */
  function SimpleLook(l: Look): Look
  {
    Look(true, 0.7, false, Showing(l.line, true))
  }

  function Restyle(m: map<string, ClientNode>, style: Look -> Look): map<string, ClientNode>
  {
    map t | t in m :: m[t].(look := style(m[t].look))
  }

  /** Every cluster's sphere and label hidden. */
  function HideClusters(c: map<string, Cluster>): map<string, Cluster>
  {
    map k | k in c :: c[k].(visible := false)
  }

  function AfterFullDetail(s: Scene): Scene
  {
    s.(graph := s.graph.(nodes := Restyle(s.graph.nodes, FullLook)), clusters := HideClusters(s.clusters))
  }

  function AfterSimplified(s: Scene): Scene
  {
    s.(graph := s.graph.(nodes := Restyle(s.graph.nodes, SimpleLook)), clusters := HideClusters(s.clusters))
  }

  // ----- updateLOD / applyLOD -----

  /** `applyLOD`: clustering when far, simplified at middle distance, full detail when close. */
  function AfterApplyLOD(s: Scene, cam: Camera): Scene
  {
    match s.lod
    case Low => AfterClustering(s, cam)
    case Medium => AfterSimplified(s)
    case Full => AfterFullDetail(s)
  }

  /** `updateLOD`: set the level from the camera's height and apply it only if it changed. */
  function AfterUpdateLOD(s: Scene, cam: Camera): Scene
  {
    var l := LevelFor(cam.z);
    if l == s.lod then s else AfterApplyLOD(s.(lod := l), cam)
  }

  // ----- updateVisibleNodes -----

  /** The tags of the nodes whose position lies in the padded viewport. */
  function VisibleIn(m: map<string, ClientNode>, cam: Camera): set<string>
  {
    set t | t in m && ContainsPoint(ViewportBounds(cam), m[t].position)
  }

  /**
   * `updateNodeVisibility` for one node at distance `d` from the camera's
   * foot point: the sphere and line follow the viewport test, the sphere
   * shrinks with distance down to 0.3, and the label shows only within
   * distance 10.
   */
  function NearLook(l: Look, shown: bool, d: real): Look
  {
    Look(shown, if shown then Max(0.3, 1.0 - d / 20.0) else l.meshScale, shown && d < 10.0, Showing(l.line, shown))
  }

  /** `dist` gives each node's distance from the camera's foot point (the client takes a square root). */
  predicate Distances(m: map<string, ClientNode>, cam: Camera, dist: map<string, real>)
  {
    forall t :: t in m ==> t in dist && dist[t] >= 0.0 && dist[t] * dist[t] == DistSq(m[t].position, Point(cam.x, cam.y))
  }

  function NodeVisibility(m: map<string, ClientNode>, visible: set<string>, dist: map<string, real>): map<string, ClientNode>
    requires forall t :: t in m ==> t in dist
  {
    map t | t in m :: m[t].(look := NearLook(m[t].look, t in visible, dist[t]))
  }

  /**
   * The part of `updateVisibleNodes` after the level update: recompute the
   * visible set and, at full detail, adjust every node to its distance.
   */
  function ShowVisible(s: Scene, cam: Camera, dist: map<string, real>): Scene
    requires forall t :: t in s.graph.nodes ==> t in dist
  {
    var v := VisibleIn(s.graph.nodes, cam);
    if s.lod == Full then s.(visible := v, graph := s.graph.(nodes := NodeVisibility(s.graph.nodes, v, dist)))
    else s.(visible := v)
  }

  /** `updateVisibleNodes`: update the level of detail, then `ShowVisible`. */
  function AfterVisibleUpdate(s: Scene, cam: Camera, dist: map<string, real>): Scene
    requires forall t :: t in s.graph.nodes ==> t in dist
  {
    LooksOnly(s, cam);
    ShowVisible(AfterUpdateLOD(s, cam), cam, dist)
  }

  // ----- properties -----

  /** Two maps with the same keys whose nodes differ at most in their look. */
  predicate SameButLooks(m1: map<string, ClientNode>, m2: map<string, ClientNode>)
  {
    m1.Keys == m2.Keys && forall t :: t in m1 ==> m2[t] == m1[t].(look := m2[t].look)
  }

  /** Changing only looks keeps a graph well keyed. */
  lemma SameButLooksKeyed(g: Graph, m: map<string, ClientNode>)
    requires WellKeyed(g) && SameButLooks(g.nodes, m)
    ensures WellKeyed(g.(nodes := m))
  {
    WellKeyedMeaning(g);
    WellKeyedMeaning(g.(nodes := m));
  }

  /** Only looks change: equal positions give equal visible sets for every camera. */
  lemma SameButLooksVisible(m1: map<string, ClientNode>, m2: map<string, ClientNode>, cam: Camera)
    requires SameButLooks(m1, m2)
    ensures VisibleIn(m1, cam) == VisibleIn(m2, cam)
  {
    assert forall t :: t in m1 ==> m2[t].position == m1[t].position;
  }

  /**
   * None of the level-of-detail operations adds, removes or moves a node,
   * or touches the order, the outlines or the visible set; they change
   * looks, clusters, the level and the index only.
   */
  lemma LooksOnly(s: Scene, cam: Camera)
    ensures var r := AfterUpdateLOD(s, cam);
      && SameButLooks(s.graph.nodes, r.graph.nodes)
      && r.graph.order == s.graph.order && r.graph.outlines == s.graph.outlines && r.visible == s.visible
      && r.lod == LevelFor(cam.z)
  {
  }

  /** Asking twice from the same camera changes nothing the second time. */
  lemma UpdateLODIdempotent(s: Scene, cam: Camera)
    ensures AfterUpdateLOD(AfterUpdateLOD(s, cam), cam) == AfterUpdateLOD(s, cam)
  {
  }

  /** Each style is idempotent, and showing either style undoes the hiding clustering did. */
  lemma LooksAbsorb(l: Look)
    ensures FullLook(FullLook(l)) == FullLook(l) && SimpleLook(SimpleLook(l)) == SimpleLook(l)
    ensures FullLook(Hide(l)) == FullLook(l) && SimpleLook(Hide(l)) == SimpleLook(l)
    ensures Hide(Hide(l)) == Hide(l)
    ensures FullLook(l).line.Some? == l.line.Some? && SimpleLook(l).line.Some? == l.line.Some? && Hide(l).line.Some? == l.line.Some?
  {
  }

  /** Going back to full detail after clustering shows every node exactly as full detail alone would, and hides every cluster. */
  lemma FullDetailAfterClustering(s: Scene, cam: Camera)
    ensures var r := AfterFullDetail(AfterClustering(s, cam));
      && r.graph == AfterFullDetail(s).graph
      && forall k :: k in r.clusters ==> !r.clusters[k].visible
  {
    var c := AfterClustering(s, cam);
    var hs := BigTags(Groups(s.graph, cam));
    forall t | t in s.graph.nodes
      ensures Restyle(c.graph.nodes, FullLook)[t] == Restyle(s.graph.nodes, FullLook)[t]
    {
      LooksAbsorb(s.graph.nodes[t].look);
    }
  }

  /** Membership in `BigTags`: the tag of a member of some big group. */
  lemma {:induction false} BigTagsMembers(gs: seq<seq<Item>>)
    ensures forall t :: t in BigTags(gs) <==> exists i, x :: 0 <= i < |gs| && Big(gs[i]) && x in gs[i] && x.tag == t
    decreases |gs|
  {
    if gs != [] {
      var front := gs[..|gs| - 1];
      BigTagsMembers(front);
      forall t | t in BigTags(gs)
        ensures exists i, x :: 0 <= i < |gs| && Big(gs[i]) && x in gs[i] && x.tag == t
      {
        if t in BigTags(front) {
          var i: int, x: Item :| 0 <= i < |front| && Big(front[i]) && x in front[i] && x.tag == t;
          assert gs[i] == front[i];
        } else {
          var x: Item :| x in gs[|gs| - 1] && x.tag == t;
          assert Big(gs[|gs| - 1]);
        }
      }
      forall t | exists i, x :: 0 <= i < |gs| && Big(gs[i]) && x in gs[i] && x.tag == t
        ensures t in BigTags(gs)
      {
        var i: int, x: Item :| 0 <= i < |gs| && Big(gs[i]) && x in gs[i] && x.tag == t;
        if i < |front| {
          assert front[i] == gs[i];
        }
      }
    }
  }

  /** A prefix of the groups keeps its members' keys known. */
  lemma KnownFront(m: map<string, ClientNode>, gs: seq<seq<Item>>)
    requires Known(m, gs) && gs != []
    ensures Known(m, gs[..|gs| - 1])
  {
    var front: seq<seq<Item>> := gs[..|gs| - 1];
    forall j: int, k: int | 0 <= j < |front| && 0 <= k < |front[j]|
      ensures front[j][k].tag in m
    {
      assert front[j] == gs[j];
    }
  }

  /** No cluster is stored under the key of a group not yet seen. */
  lemma {:induction false} ClusterMapBeyond(m: map<string, ClientNode>, gs: seq<seq<Item>>)
    requires Known(m, gs)
    ensures forall j: nat :: j >= |gs| ==> ClusterKey(j) !in ClusterMap(m, gs)
    decreases |gs|
  {
    if gs != [] {
      KnownFront(m, gs);
      ClusterMapBeyond(m, gs[..|gs| - 1]);
      forall j: nat | j >= |gs|
        ensures ClusterKey(j) != ClusterKey(|gs| - 1)
      {
        ClusterKeyInjective(j, |gs| - 1);
      }
    }
  }

  /** Where the clusters of `gs` are stored: exactly under the keys of the big groups. */
  lemma {:induction false} ClusterMapAt(m: map<string, ClientNode>, gs: seq<seq<Item>>, i: nat)
    requires Known(m, gs) && i < |gs|
    ensures ClusterKey(i) in ClusterMap(m, gs) <==> Big(gs[i])
    ensures Big(gs[i]) ==> ClusterMap(m, gs)[ClusterKey(i)] == ClusterFrom(NodesOf(m, gs[i]))
    decreases |gs|
  {
    var front := gs[..|gs| - 1];
    ClusterKeyInjective(i, |gs| - 1);
    KnownFront(m, gs);
    if i < |gs| - 1 {
      assert front[i] == gs[i];
      ClusterMapAt(m, front, i);
    } else {
      ClusterMapBeyond(m, front);
    }
  }

  /** Every stored cluster comes from a big group. */
  lemma {:induction false} ClusterMapKeys(m: map<string, ClientNode>, gs: seq<seq<Item>>, k: string)
    requires Known(m, gs) && k in ClusterMap(m, gs)
    ensures exists i :: 0 <= i < |gs| && k == ClusterKey(i) && Big(gs[i])
    decreases |gs|
  {
    var front := gs[..|gs| - 1];
    KnownFront(m, gs);
    if k != ClusterKey(|gs| - 1) || !Big(gs[|gs| - 1]) {
      ClusterMapKeys(m, front, k);
      var i :| 0 <= i < |front| && k == ClusterKey(i) && Big(front[i]);
      assert gs[i] == front[i];
    }
  }

  /** The clusters of `gs` are stored exactly under the keys of the big groups, each built from its group. */
  lemma ClusterMapFacts(m: map<string, ClientNode>, gs: seq<seq<Item>>)
    requires Known(m, gs)
    ensures var cm := ClusterMap(m, gs);
      && (forall i :: 0 <= i < |gs| ==> (ClusterKey(i) in cm <==> Big(gs[i])))
      && (forall i :: 0 <= i < |gs| && Big(gs[i]) ==> cm[ClusterKey(i)] == ClusterFrom(NodesOf(m, gs[i])))
      && (forall k :: k in cm ==> exists i :: 0 <= i < |gs| && k == ClusterKey(i) && Big(gs[i]))
  {
    var cm := ClusterMap(m, gs);
    forall i | 0 <= i < |gs|
      ensures ClusterKey(i) in cm <==> Big(gs[i])
      ensures Big(gs[i]) ==> cm[ClusterKey(i)] == ClusterFrom(NodesOf(m, gs[i]))
    {
      ClusterMapAt(m, gs, i);
    }
    forall k | k in cm
      ensures exists i :: 0 <= i < |gs| && k == ClusterKey(i) && Big(gs[i])
    {
      ClusterMapKeys(m, gs, k);
    }
  }

  /**
   * After clustering, group `i` of the groups in view has a cluster under
   * `cluster-i` exactly when it has more than ten members, built by
   * `createCluster` from those members' nodes, and there are no other
   * clusters.
   */
  lemma ClustersStored(s: Scene, cam: Camera)
    ensures var gs := Groups(s.graph, cam);
      && Known(s.graph.nodes, gs)
      && AfterClustering(s, cam).clusters == ClusterMap(s.graph.nodes, gs)
  {
    GroupsSound(s.graph, cam);
  }

  /**
   * A cluster made from a big group in view is shown, lists its members'
   * tags in group order (more than ten of them), and sits at their mean
   * position, which lies inside the viewport.
   */
  lemma ClusterPlacement(s: Scene, cam: Camera, i: nat)
    requires WellKeyed(s.graph)
    requires i < |Groups(s.graph, cam)| && Big(Groups(s.graph, cam)[i])
    ensures var gs := Groups(s.graph, cam);
      && Known(s.graph.nodes, gs)
      && (var c := ClusterFrom(NodesOf(s.graph.nodes, gs[i]));
          && c.visible && |c.members| > ClusterThreshold
          && (forall k :: 0 <= k < |gs[i]| ==> c.members[k] == gs[i][k].tag)
          && ContainsPoint(ViewportBounds(cam), c.position))
  {
    var gs := Groups(s.graph, cam);
    var m := s.graph.nodes;
    GroupsSound(s.graph, cam);
    InViewSound(s.graph, cam);
    var ns := NodesOf(m, gs[i]);
    var ps := PositionsOf(ns);
    forall k | 0 <= k < |gs[i]|
      ensures ContainsPoint(ViewportBounds(cam), ps[k])
      ensures ns[k].tag == gs[i][k].tag
    {
      assert gs[i][k] in gs[i];
      WellKeyedKey(s.graph, gs[i][k].tag);
    }
    CentroidInBox(ps, ViewportBounds(cam));
  }

  /** Clustering hides exactly the members of big groups and changes nothing else about any node. */
  lemma ClusteringHides(s: Scene, cam: Camera)
    ensures var r := AfterClustering(s, cam); var m := s.graph.nodes;
      && SameButLooks(m, r.graph.nodes)
      && (forall t :: t in m ==> r.graph.nodes[t].look == if t in BigTags(Groups(s.graph, cam)) then Hide(m[t].look) else m[t].look)
      && r.graph.order == s.graph.order && r.graph.outlines == s.graph.outlines
  {
  }

  /** The distance test on labels is the squared-distance test `DistSq < 100`. */
  lemma LabelWithinTen(d: real, sq: real)
    requires d >= 0.0 && d * d == sq
    ensures d < 10.0 <==> sq < 100.0
  {
    if d < 10.0 {
      assert d * d <= d * 10.0;
      assert d * 10.0 < 100.0;
    } else {
      assert d * d >= 10.0 * d;
      assert 10.0 * d >= 100.0;
    }
  }

  /**
   * `updateNodeVisibility` shows exactly the nodes in the viewport, and a
   * node's label exactly when it is in the viewport and less than 10 from
   * the camera's foot point; it changes nothing but looks.
   */
  lemma NodeVisibilityEffect(m: map<string, ClientNode>, cam: Camera, dist: map<string, real>)
    requires Distances(m, cam, dist)
    ensures var r := NodeVisibility(m, VisibleIn(m, cam), dist);
      && SameButLooks(m, r)
      && forall t :: t in m ==>
            && (r[t].look.meshVisible <==> ContainsPoint(ViewportBounds(cam), m[t].position))
            && (r[t].look.labelVisible <==>
                  ContainsPoint(ViewportBounds(cam), m[t].position) && DistSq(m[t].position, Point(cam.x, cam.y)) < 100.0)
  {
    var b, v := ViewportBounds(cam), VisibleIn(m, cam);
    forall t | t in m
      ensures var r := NodeVisibility(m, v, dist);
        && (r[t].look.meshVisible <==> ContainsPoint(b, m[t].position))
        && (r[t].look.labelVisible <==> ContainsPoint(b, m[t].position) && DistSq(m[t].position, Point(cam.x, cam.y)) < 100.0)
    {
      NodeVisibilityAt(m, b, v, dist, t, DistSq(m[t].position, Point(cam.x, cam.y)));
    }
  }

  /** One node of `updateNodeVisibility`, for any box deciding the visible set. */
  lemma NodeVisibilityAt(m: map<string, ClientNode>, b: Box, v: set<string>, dist: map<string, real>, t: string, sq: real)
    requires forall x :: x in m ==> x in dist
    requires t in m && (t in v <==> ContainsPoint(b, m[t].position))
    requires dist[t] >= 0.0 && dist[t] * dist[t] == sq
    ensures var r := NodeVisibility(m, v, dist);
      && (r[t].look.meshVisible <==> ContainsPoint(b, m[t].position))
      && (r[t].look.labelVisible <==> ContainsPoint(b, m[t].position) && sq < 100.0)
  {
    LabelWithinTen(dist[t], sq);
  }

  /** Positions alone decide the distances. */
  lemma DistancesSameButLooks(m1: map<string, ClientNode>, m2: map<string, ClientNode>, cam: Camera, dist: map<string, real>)
    requires SameButLooks(m1, m2) && Distances(m1, cam, dist)
    ensures Distances(m2, cam, dist)
  {
    assert forall t :: t in m2 ==> t in m1 && m2[t].position == m1[t].position;
  }

  /**
   * After the level update, the visible set holds exactly the nodes in the
   * viewport, the level is kept, and only looks change: at full detail as
   * `updateNodeVisibility` says, below it not at all.
   */
  lemma ShowVisibleEffect(s: Scene, cam: Camera, dist: map<string, real>)
    requires Distances(s.graph.nodes, cam, dist)
    ensures var r := ShowVisible(s, cam, dist); var m := s.graph.nodes;
      && r.visible == VisibleIn(m, cam)
      && r.lod == s.lod && r.clusters == s.clusters && r.index == s.index
      && r.graph.order == s.graph.order && r.graph.outlines == s.graph.outlines
      && SameButLooks(m, r.graph.nodes)
      && (s.lod != Full ==> r.graph.nodes == m)
      && (s.lod == Full ==> forall t :: t in m ==>
            && (r.graph.nodes[t].look.meshVisible <==> t in r.visible)
            && (r.graph.nodes[t].look.labelVisible <==>
                  t in r.visible && DistSq(m[t].position, Point(cam.x, cam.y)) < 100.0))
  {
    NodeVisibilityEffect(s.graph.nodes, cam, dist);
  }

  /**
   * `updateVisibleNodes` as a whole: the level follows the camera's height,
   * the visible set holds exactly the nodes in the viewport, and nothing but
   * looks, clusters and the index changes.
   */
  lemma VisibleUpdateEffect(s: Scene, cam: Camera, dist: map<string, real>)
    requires Distances(s.graph.nodes, cam, dist)
    ensures var r := AfterVisibleUpdate(s, cam, dist);
      && r.visible == VisibleIn(s.graph.nodes, cam)
      && r.lod == LevelFor(cam.z)
      && SameButLooks(s.graph.nodes, r.graph.nodes)
      && r.graph.order == s.graph.order && r.graph.outlines == s.graph.outlines
  {
    var s1 := AfterUpdateLOD(s, cam);
    LooksOnly(s, cam);
    SameButLooksVisible(s.graph.nodes, s1.graph.nodes, cam);
    DistancesSameButLooks(s.graph.nodes, s1.graph.nodes, cam, dist);
    ShowVisibleEffect(s1, cam, dist);
    SameButLooksTransitive(s.graph.nodes, s1.graph.nodes, AfterVisibleUpdate(s, cam, dist).graph.nodes);
  }

  lemma SameButLooksTransitive(m1: map<string, ClientNode>, m2: map<string, ClientNode>, m3: map<string, ClientNode>)
    requires SameButLooks(m1, m2) && SameButLooks(m2, m3)
    ensures SameButLooks(m1, m3)
  {
  }

  /** Raising the camera (same place, same lens) never makes a node leave the visible set. */
  lemma VisibleGrowsWithHeight(m: map<string, ClientNode>, cam: Camera, z2: real)
    requires cam.tanHalfFov >= 0.0 && cam.aspect >= 0.0 && Abs(cam.z) <= Abs(z2)
    ensures VisibleIn(m, cam) <= VisibleIn(m, cam.(z := z2))
  {
    forall t | t in VisibleIn(m, cam)
      ensures t in VisibleIn(m, cam.(z := z2))
    {
      ViewportGrowsWithHeight(cam, z2, m[t].position);
    }
  }

  // ----- steps of the client's loops -----

  lemma KnownTake(m: map<string, ClientNode>, gs: seq<seq<Item>>, i: nat)
    requires Known(m, gs) && i <= |gs|
    ensures Known(m, gs[..i])
  {
    var front: seq<seq<Item>> := gs[..i];
    forall j: int, k: int | 0 <= j < |front| && 0 <= k < |front[j]|
      ensures front[j][k].tag in m
    {
      assert front[j] == gs[j];
    }
  }

  /** One more group: its cluster is stored if it is big, and its members join the hidden tags. */
  lemma ClusteringStep(m: map<string, ClientNode>, gs: seq<seq<Item>>, i: nat)
    requires Known(m, gs) && i < |gs|
    ensures Known(m, gs[..i]) && Known(m, gs[..i + 1])
    ensures BigTags(gs[..i + 1]) == BigTags(gs[..i]) + if Big(gs[i]) then Tags(gs[i]) else {}
    ensures ClusterMap(m, gs[..i + 1]) ==
      if Big(gs[i]) then ClusterMap(m, gs[..i])[ClusterKey(i) := ClusterFrom(NodesOf(m, gs[i]))] else ClusterMap(m, gs[..i])
  {
    KnownTake(m, gs, i);
    KnownTake(m, gs, i + 1);
    assert gs[..i + 1][..i] == gs[..i];
  }

  lemma TagsTake(s: seq<Item>, j: nat)
    requires j < |s|
    ensures Tags(s[..j + 1]) == Tags(s[..j]) + {s[j].tag}
  {
    assert s[..j + 1] == s[..j] + [s[j]];
  }

  /** Hiding one more present node. */
  lemma HideOne(m: map<string, ClientNode>, hs: set<string>, t: string)
    requires t in m
    ensures var h := HideTags(m, hs); h[t := h[t].(look := Hide(h[t].look))] == HideTags(m, hs + {t})
  {
    LooksAbsorb(m[t].look);
  }

  /** Nodes that differ only in looks give the same cluster. */
  lemma ClusterFromLooks(m1: map<string, ClientNode>, m2: map<string, ClientNode>, group: seq<Item>)
    requires SameButLooks(m1, m2) && group != []
    requires forall k :: 0 <= k < |group| ==> group[k].tag in m1
    ensures ClusterFrom(NodesOf(m1, group)) == ClusterFrom(NodesOf(m2, group))
  {
    assert PositionsOf(NodesOf(m1, group)) == PositionsOf(NodesOf(m2, group));
    assert TagsOf(NodesOf(m1, group)) == TagsOf(NodesOf(m2, group));
  }

  /** Styling twice is styling once. */
  lemma NearLookIdempotent(l: Look, shown: bool, d: real)
    ensures NearLook(NearLook(l, shown, d), shown, d) == NearLook(l, shown, d)
  {
  }

  /**
   * A loop over `order` rewriting each node into `target` has done the first
   * `i` tags: those hold their target, the rest their old value.
   */
  predicate DoneUpTo(m0: map<string, ClientNode>, cur: map<string, ClientNode>, target: map<string, ClientNode>, order: seq<string>, i: nat)
    requires i <= |order|
  {
    && cur.Keys == m0.Keys && target.Keys == m0.Keys
    && forall t :: t in m0 ==> cur[t] == if t in order[..i] then target[t] else m0[t]
  }

  lemma DoneStep(m0: map<string, ClientNode>, cur: map<string, ClientNode>, target: map<string, ClientNode>, order: seq<string>, i: nat)
    requires i < |order| && order[i] in m0 && DoneUpTo(m0, cur, target, order, i)
    ensures DoneUpTo(m0, cur[order[i] := target[order[i]]], target, order, i + 1)
  {
    assert order[..i + 1] == order[..i] + [order[i]];
  }

  lemma DoneAll(m0: map<string, ClientNode>, cur: map<string, ClientNode>, target: map<string, ClientNode>, order: seq<string>)
    requires DoneUpTo(m0, cur, target, order, |order|)
    requires forall t :: t in m0 ==> t in order
    ensures cur == target
  {
    assert order[..|order|] == order;
  }

  /** One more tag of the iteration order inserted into the index. */
  lemma IndexStep(m: map<string, ClientNode>, order: seq<string>, i: nat)
    requires i < |order|
    ensures var before := InsertAll(NewTree(World, CellCapacity), ItemsOf(m, order[..i]));
      InsertAll(NewTree(World, CellCapacity), ItemsOf(m, order[..i + 1])) ==
        if order[i] in m then Insert(before, Item(m[order[i]].position, order[i]), DepthBudget).tree else before
  {
    assert order[..i + 1][..i] == order[..i];
  }

  /** One more tag of the iteration order checked against the viewport. */
  lemma VisibleStep(m: map<string, ClientNode>, order: seq<string>, i: nat, b: Box)
    requires i < |order| && order[i] in m
    ensures (set t | t in order[..i + 1] && t in m && ContainsPoint(b, m[t].position)) ==
      (set t | t in order[..i] && t in m && ContainsPoint(b, m[t].position)) + (if ContainsPoint(b, m[order[i]].position) then {order[i]} else {})
  {
    assert order[..i + 1] == order[..i] + [order[i]];
  }

  lemma VisibleAll(m: map<string, ClientNode>, order: seq<string>, cam: Camera)
    requires forall t :: t in m ==> t in order
    ensures (set t | t in order[..|order|] && t in m && ContainsPoint(ViewportBounds(cam), m[t].position)) == VisibleIn(m, cam)
  {
    assert order[..|order|] == order;
  }

  /** One more node restyled by an idempotent style: the loop has done one more tag of the order. */
  lemma RestyleStep(m0: map<string, ClientNode>, cur: map<string, ClientNode>, order: seq<string>, i: nat, style: Look -> Look)
    requires i < |order| && order[i] in m0
    requires DoneUpTo(m0, cur, Restyle(m0, style), order, i)
    requires style(style(m0[order[i]].look)) == style(m0[order[i]].look)
    ensures var t := order[i];
      DoneUpTo(m0, cur[t := cur[t].(look := style(cur[t].look))], Restyle(m0, style), order, i + 1)
  {
    DoneStep(m0, cur, Restyle(m0, style), order, i);
  }

  lemma RestyleKeyed(g: Graph, style: Look -> Look)
    requires WellKeyed(g)
    ensures WellKeyed(g.(nodes := Restyle(g.nodes, style)))
  {
    SameButLooksKeyed(g, Restyle(g.nodes, style));
  }

  /** One more node adjusted to its distance: the loop has done one more tag of the order. */
  lemma VisibilityStep(m0: map<string, ClientNode>, cur: map<string, ClientNode>, visible: set<string>, dist: map<string, real>, order: seq<string>, i: nat)
    requires forall t :: t in m0 ==> t in dist
    requires i < |order| && order[i] in m0
    requires DoneUpTo(m0, cur, NodeVisibility(m0, visible, dist), order, i)
    ensures var t := order[i];
      DoneUpTo(m0, cur[t := cur[t].(look := NearLook(cur[t].look, t in visible, dist[t]))], NodeVisibility(m0, visible, dist), order, i + 1)
  {
    var t := order[i];
    NearLookIdempotent(m0[t].look, t in visible, dist[t]);
    DoneStep(m0, cur, NodeVisibility(m0, visible, dist), order, i);
  }

  lemma NodeVisibilityKeyed(g: Graph, visible: set<string>, dist: map<string, real>)
    requires WellKeyed(g) && forall t :: t in g.nodes ==> t in dist
    ensures WellKeyed(g.(nodes := NodeVisibility(g.nodes, visible, dist)))
  {
    SameButLooksKeyed(g, NodeVisibility(g.nodes, visible, dist));
  }

  lemma HideTagsLooks(m: map<string, ClientNode>, hs: set<string>)
    ensures SameButLooks(m, HideTags(m, hs))
  {
  }
}
