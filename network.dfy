/**
 * The client's network object: the node map with its iteration order, the
 * parents that own an outline, the visible set, the clusters, the level of
 * detail and the spatial index, updated in place by its methods. Each
 * method is proved against the function that says what it leaves behind
 * (`NodeTree`, `Hierarchy` and `Detail`); what those functions guarantee
 * is proved there.
 *
 * The scene graph, the camera object and the server are not fields: the
 * camera is passed to the methods that read it, and drawing is reduced to
 * the `Look` flags of each node and the `visible` flag of each cluster.
 */
module Network {
  import opened Wrappers
  import opened Planar
  import opened Text
  import opened Viewport
  import opened QuadTreeIndex
  import opened Clustering
  import opened NodeTree
  import opened Hierarchy
  import opened Detail

  class VSMNetwork {
    var nodes: map<string, ClientNode>
    /** The keys of `nodes` in the order a `Map` iterates them. */
    var order: seq<string>
    /** The parents whose polygon outline is drawn. */
    var outlines: set<string>
    var visibleNodes: set<string>
    var clusters: map<string, Cluster>
    var currentLOD: Level
    var quadtree: Tree

    function Snapshot(): Graph
      reads this
    {
      Graph(nodes, order, outlines)
    }

    function State(): Scene
      reads this
    {
      Scene(Snapshot(), visibleNodes, clusters, currentLOD, quadtree)
    }

    /** The order lists exactly the keys, once each, every node is stored under its own tag, and the index is well formed. */
    predicate Consistent()
      reads this
    {
      WellKeyed(Snapshot()) && Valid(quadtree)
    }

    /** An empty network at full detail with an empty index over the world box. */
    constructor ()
      ensures State() == Scene(Graph(map[], [], {}), {}, map[], Full, NewTree(World, CellCapacity))
      ensures Consistent()
    {
      nodes, order, outlines := map[], [], {};
      visibleNodes, clusters := {}, map[];
      currentLOD := Full;
      quadtree := NewTree(World, CellCapacity);
    }

    // ----- the spatial index -----

    method InitQuadtree()
      modifies this`quadtree
      ensures quadtree == NewTree(World, CellCapacity)
    {
      quadtree := NewTree(World, CellCapacity);
    }

    /** A fresh index holding every node's position under its tag, in iteration order. */
    method UpdateQuadtree()
      modifies this`quadtree
      ensures quadtree == IndexOf(Snapshot())
      ensures multiset(Elems(quadtree)) == multiset(StoredOf(ItemsOf(nodes, order), RebuildAnswers(Snapshot())))
      ensures WithinDepth(Snapshot()) ==> multiset(Elems(quadtree)) == multiset(InRange(ItemsOf(nodes, order), World))
    {
      InitQuadtree();
      var tree := quadtree;
      var i := 0;
      while i < |order|
        invariant 0 <= i <= |order|
        invariant tree == InsertAll(NewTree(World, CellCapacity), ItemsOf(nodes, order[..i]))
      {
        var t := order[i];
        IndexStep(nodes, order, i);
        if t in nodes {
          tree := Insert(tree, Item(nodes[t].position, t), DepthBudget).tree;
        }
        i := i + 1;
      }
      assert order[..i] == order;
      quadtree := tree;
      IndexExact(Snapshot());
    }

    // ----- clustering -----

    /** `createCluster`: the mean of the nodes' positions, summed in order, and their tags. */
    method CreateCluster(ns: seq<ClientNode>) returns (c: Cluster)
      requires ns != []
      ensures c == ClusterFrom(ns)
    {
      var sx, sy := 0.0, 0.0;
      var tags: seq<string> := [];
      ghost var ps := PositionsOf(ns);
      var k := 0;
      while k < |ns|
        invariant 0 <= k <= |ns|
        invariant sx == SumX(ps[..k]) && sy == SumY(ps[..k])
        invariant tags == TagsOf(ns)[..k]
      {
        assert ps[..k + 1][..k] == ps[..k];
        sx := sx + ns[k].position.x;
        sy := sy + ns[k].position.y;
        tags := tags + [ns[k].tag];
        k := k + 1;
      }
      assert ps[..k] == ps;
      assert tags == TagsOf(ns);
      c := Cluster(Point(sx / |ns| as real, sy / |ns| as real), tags, true);
    }

    /** Hide every member of `group`, on top of the tags `hs` already hidden. */
    method HideGroup(group: seq<Item>, ghost m0: map<string, ClientNode>, ghost hs: set<string>)
      modifies this`nodes
      requires forall k :: 0 <= k < |group| ==> group[k].tag in m0
      requires nodes == HideTags(m0, hs)
      ensures nodes == HideTags(m0, hs + Tags(group))
    {
      var m := nodes;
      var j := 0;
      assert hs + Tags(group[..0]) == hs;
      while j < |group|
        invariant 0 <= j <= |group|
        invariant m == HideTags(m0, hs + Tags(group[..j]))
      {
        var t := group[j].tag;
        HideOne(m0, hs + Tags(group[..j]), t);
        TagsTake(group, j);
        m := m[t := m[t].(look := Hide(m[t].look))];
        j := j + 1;
      }
      assert group[..j] == group;
      nodes := m;
    }

    /** One big group: its cluster stored under `key`, then its members hidden. */
    method ClusterGroup(key: string, group: seq<Item>, ghost m0: map<string, ClientNode>, ghost hs: set<string>)
      modifies this`nodes, this`clusters
      requires group != [] && forall k :: 0 <= k < |group| ==> group[k].tag in m0
      requires nodes == HideTags(m0, hs)
      ensures clusters == old(clusters)[key := ClusterFrom(NodesOf(m0, group))]
      ensures nodes == HideTags(m0, hs + Tags(group))
    {
      var m := nodes;
      HideTagsLooks(m0, hs);
      ClusterFromLooks(m0, m, group);
      var members := seq(|group|, k requires 0 <= k < |group| => m[group[k].tag]);
      assert members == NodesOf(m, group);
      var cluster := CreateCluster(members);
      clusters := clusters[key := cluster];
      HideGroup(group, m0, hs);
    }

    /** `groups.forEach`: a cluster under `cluster-<index>` for every group of more than ten, whose members are hidden. */
    method ClusterGroups(groups: seq<seq<Item>>, ghost m0: map<string, ClientNode>)
      modifies this`nodes, this`clusters
      requires Known(m0, groups) && nodes == m0 && clusters == map[]
      ensures nodes == HideTags(m0, BigTags(groups))
      ensures clusters == ClusterMap(m0, groups)
    {
      KnownTake(m0, groups, 0);
      assert HideTags(m0, {}) == m0;
      var i := 0;
      while i < |groups|
        invariant 0 <= i <= |groups|
        invariant Known(m0, groups[..i])
        invariant nodes == HideTags(m0, BigTags(groups[..i]))
        invariant clusters == ClusterMap(m0, groups[..i])
      {
        ClusteringStep(m0, groups, i);
        if |groups[i]| > ClusterThreshold {
          ClusterGroup(ClusterKey(i), groups[i], m0, BigTags(groups[..i]));
        }
        i := i + 1;
      }
      assert groups[..i] == groups;
    }

    method ApplyClustering(cam: Camera)
      modifies this
      requires Consistent()
      ensures State() == AfterClustering(old(State()), cam)
      ensures Consistent()
    {
      ghost var s0 := State();
      clusters := map[];
      UpdateQuadtree();
      ghost var s1 := State();
      assert s1 == s0.(clusters := map[], index := IndexOf(s0.graph));
      ClusterInView(cam);
      assert AfterClustering(s1, cam) == AfterClustering(s0, cam);
    }

    /** The rest of `applyClustering` on a freshly rebuilt index: query the viewport, group the result, cluster the big groups. */
    method ClusterInView(cam: Camera)
      modifies this`nodes, this`clusters
      requires Consistent() && clusters == map[] && quadtree == IndexOf(Snapshot())
      ensures State() == AfterClustering(old(State()), cam)
      ensures Consistent()
    {
      ghost var s0 := State();
      var inView := Query(quadtree, ViewportBounds(cam), []);
      assert inView == InView(s0.graph, cam);
      var groups := GroupNearbyNodes(inView);
      GroupsSound(s0.graph, cam);
      ClusterGroups(groups, s0.graph.nodes);
      HideTagsLooks(s0.graph.nodes, BigTags(groups));
      SameButLooksKeyed(s0.graph, nodes);
      assert State() == s0.(graph := s0.graph.(nodes := nodes), clusters := clusters, index := quadtree);
    }

    // ----- simplified and full detail -----

    /** Every node restyled by `style`, which gives the same look when applied twice. */
    method RestyleNodes(style: Look -> Look)
      modifies this`nodes
      requires WellKeyed(Snapshot())
      requires forall l :: style(style(l)) == style(l)
      ensures nodes == Restyle(old(nodes), style)
      ensures WellKeyed(Snapshot())
    {
      ghost var g0 := Snapshot();
      WellKeyedMeaning(g0);
      var m := nodes;
      var i := 0;
      while i < |order|
        invariant 0 <= i <= |order|
        invariant DoneUpTo(g0.nodes, m, Restyle(g0.nodes, style), order, i)
      {
        var t := order[i];
        RestyleStep(g0.nodes, m, order, i, style);
        m := m[t := m[t].(look := style(m[t].look))];
        i := i + 1;
      }
      DoneAll(g0.nodes, m, Restyle(g0.nodes, style), order);
      RestyleKeyed(g0, style);
      nodes := m;
    }

    /** Every cluster's sphere and label hidden. */
    method HideAllClusters()
      modifies this`clusters
      ensures clusters == HideClusters(old(clusters))
    {
      var c := clusters;
      var keys := c.Keys;
      while keys != {}
        invariant keys <= clusters.Keys && c.Keys == clusters.Keys
        invariant forall k :: k in clusters ==> c[k] == if k in keys then clusters[k] else clusters[k].(visible := false)
        decreases |keys|
      {
        var k :| k in keys;
        c := c[k := c[k].(visible := false)];
        keys := keys - {k};
      }
      assert c == HideClusters(clusters);
      clusters := c;
    }

    method ShowSimplifiedNodes()
      modifies this
      requires Consistent()
      ensures State() == AfterSimplified(old(State()))
      ensures Consistent()
    {
      forall l: Look
        ensures SimpleLook(SimpleLook(l)) == SimpleLook(l)
      {
        LooksAbsorb(l);
      }
      RestyleNodes(SimpleLook);
      HideAllClusters();
    }

    method ShowFullDetail()
      modifies this
      requires Consistent()
      ensures State() == AfterFullDetail(old(State()))
      ensures Consistent()
    {
      forall l: Look
        ensures FullLook(FullLook(l)) == FullLook(l)
      {
        LooksAbsorb(l);
      }
      RestyleNodes(FullLook);
      HideAllClusters();
    }

    // ----- level of detail -----

    method ApplyLOD(cam: Camera)
      modifies this
      requires Consistent()
      ensures State() == AfterApplyLOD(old(State()), cam)
      ensures Consistent()
    {
      match currentLOD
      case Low => ApplyClustering(cam);
      case Medium => ShowSimplifiedNodes();
      case Full => ShowFullDetail();
    }

    method UpdateLOD(cam: Camera)
      modifies this
      requires Consistent()
      ensures State() == AfterUpdateLOD(old(State()), cam)
      ensures Consistent()
    {
      var previous := currentLOD;
      if cam.z > LowAbove {
        currentLOD := Low;
      } else if cam.z > MediumAbove {
        currentLOD := Medium;
      } else {
        currentLOD := Full;
      }
      if previous != currentLOD {
        ApplyLOD(cam);
      }
    }

    // ----- visibility -----

    /** `updateNodeVisibility`, with `dist` giving each node's distance from the camera's foot point. */
    method UpdateNodeVisibility(dist: map<string, real>)
      modifies this`nodes
      requires WellKeyed(Snapshot()) && forall t :: t in nodes ==> t in dist
      ensures nodes == NodeVisibility(old(nodes), visibleNodes, dist)
      ensures WellKeyed(Snapshot())
    {
      WellKeyedMeaning(Snapshot());
      NodeVisibilityKeyed(Snapshot(), visibleNodes, dist);
      nodes := AdjustEach(nodes, order, visibleNodes, dist);
    }

    /** The containment part of `updateVisibleNodes`: the tags whose position is inside the viewport. */
    method CollectVisible(cam: Camera)
      modifies this`visibleNodes
      requires WellKeyed(Snapshot())
      ensures visibleNodes == VisibleIn(nodes, cam)
    {
      var v: set<string> := {};
      var bounds := ViewportBounds(cam);
      WellKeyedMeaning(Snapshot());
      var i := 0;
      while i < |order|
        invariant 0 <= i <= |order|
        invariant v == set t | t in order[..i] && t in nodes && ContainsPoint(bounds, nodes[t].position)
      {
        var t := order[i];
        VisibleStep(nodes, order, i, bounds);
        if ContainsPoint(bounds, nodes[t].position) {
          v := v + {t};
        }
        i := i + 1;
      }
      VisibleAll(nodes, order, cam);
      visibleNodes := v;
    }

    method UpdateVisibleNodes(cam: Camera, dist: map<string, real>)
      modifies this
      requires Consistent() && Distances(nodes, cam, dist)
      ensures State() == AfterVisibleUpdate(old(State()), cam, dist)
      ensures Consistent()
    {
      ghost var s0 := State();
      UpdateLOD(cam);
      LooksOnly(s0, cam);
      DistancesSameButLooks(s0.graph.nodes, nodes, cam, dist);
      CollectVisible(cam);
      if currentLOD == Full {
        UpdateNodeVisibility(dist);
      }
    }

    // ----- creating nodes -----

    /** `createNodeFromData(d)`: store the node, then draw a line if its parent is present. */
    method CreateNodeFromData(d: NodeData) returns (n: ClientNode)
      modifies this`nodes, this`order
      requires Consistent()
      ensures Snapshot() == CreateIn(old(Snapshot()), d)
      ensures n == MakeNode(d, LineDrawn(old(Snapshot()), d))
      ensures Consistent()
      ensures TreeShaped(old(nodes)) && FitsShape(old(nodes), d) ==> TreeShaped(nodes)
    {
      ghost var g0 := Snapshot();
      if TreeShaped(nodes) && FitsShape(nodes, d) {
        CreateShaped(g0, d);
      }
      n := MakeNode(d, false);
      if d.tag !in nodes {
        order := order + [d.tag];
      }
      nodes := nodes[d.tag := n];
      if HasParent(d.parent) && d.parent.value in nodes {
        n := n.(look := n.look.(line := Some(true)));
        nodes := nodes[d.tag := n];
      }
      assert Snapshot() == CreateIn(g0, d);
      CreateKeyed(g0, d);
    }

    /** One iteration of `addChildNodes`: create child `i` of the batch and push its tag onto the parent's children. */
    method AddChild(p: string, d: NodeData, ghost b: Batch, ghost i: nat) returns (node: ClientNode)
      modifies this`nodes, this`order
      requires Consistent() && BatchOk(b)
      requires b.parent == p && p in nodes && i < |b.tags| && i < |b.vertices| && d == ChildData(b, i)
      ensures Snapshot() == AddStep(old(Snapshot()), b, i)
      ensures node == ChildNode(b, i)
      ensures Consistent()
    {
      AddStepEffect(Snapshot(), b, i);
      node := CreateNodeFromData(d);
      var par := nodes[p];
      nodes := nodes[p := par.(children := par.children + [d.tag])];
    }

    /**
     * `addChildNodes(p, count)` with `vertices` the polygon `generatePolygon`
     * returns for `count`: for each `i` create child `p-(i+1)` at vertex `i`
     * and append its tag to the parent's children, then store the outline,
     * which fails when there are no vertices.
     */
    method AddChildNodes(p: string, count: int, vertices: seq<Point>) returns (out: AddOutcome)
      modifies this`nodes, this`order, this`outlines
      requires Consistent() && PolygonFor(count, vertices)
      ensures Snapshot() == AfterAdd(old(Snapshot()), p, count, vertices)
      ensures out == AddResult(old(Snapshot()), p, count, vertices)
      ensures Consistent()
      ensures TreeShaped(old(nodes)) ==> TreeShaped(nodes)
    {
      if TreeShaped(nodes) {
        AddShaped(Snapshot(), p, count, vertices);
      }
      if p !in nodes {
        return NoParent;
      }
      ghost var b := BatchFor(Snapshot(), p, count, vertices);
      var created := AddBatch(p, count, vertices, b);
      if count <= 0 {
        return Thrown;
      }
      outlines := outlines + {p};
      return Added(created);
    }

    /** The loop of `addChildNodes`: children `p-1` … `p-count` created in turn, each pushed onto the parent's children. */
    method AddBatch(p: string, count: int, vertices: seq<Point>, ghost b: Batch) returns (created: seq<ClientNode>)
      modifies this`nodes, this`order
      requires Consistent() && p in nodes && PolygonFor(count, vertices) && b == BatchFor(Snapshot(), p, count, vertices)
      ensures Snapshot() == AddFrom(old(Snapshot()), b, 0, |vertices|)
      ensures Consistent()
      ensures created == seq(|vertices|, k requires 0 <= k < |vertices| => ChildNode(b, k))
    {
      ghost var g0 := Snapshot();
      var parent := nodes[p];
      created := [];
      var i := 0;
      while i < count
        invariant 0 <= i <= |vertices|
        invariant p in nodes && Consistent()
        invariant AddFrom(Snapshot(), b, i, |vertices|) == AddFrom(g0, b, 0, |vertices|)
        invariant |created| == i && forall k :: 0 <= k < i ==> created[k] == ChildNode(b, k)
      {
        var node := AddNext(p, count, vertices, parent.layer, b, i, g0);
        CreatedSnoc(b, created, node);
        created := created + [node];
        i := i + 1;
      }
    }

    /** Iteration `i` of the loop of `addChildNodes`, with `layer` the parent's layer read before the loop. */
    method AddNext(p: string, count: int, vertices: seq<Point>, layer: int, ghost b: Batch, i: nat, ghost g0: Graph)
        returns (node: ClientNode)
      modifies this`nodes, this`order
      requires p in g0.nodes && PolygonFor(count, vertices) && b == BatchFor(g0, p, count, vertices)
      requires layer == g0.nodes[p].layer && i < |vertices| && p in nodes && Consistent()
      requires AddFrom(Snapshot(), b, i, |vertices|) == AddFrom(g0, b, 0, |vertices|)
      ensures p in nodes && AddFrom(Snapshot(), b, i + 1, |vertices|) == AddFrom(g0, b, 0, |vertices|)
      ensures Consistent()
      ensures node == ChildNode(b, i)
    {
      var tag := p + "-" + NatToString(i + 1);
      BatchChild(g0, p, count, vertices, i);
      node := AddChild(p, NodeData(tag, vertices[i], layer + 1, count, Some(p), tag, []), b, i);
    }

    // ----- search and ancestry -----

    /** `searchNodes(term)`: the nodes whose tag or name contains the term, ignoring case, in iteration order. */
    method SearchNodes(term: string) returns (results: seq<ClientNode>)
      ensures results == Search(Snapshot(), term)
    {
      results := [];
      var i := 0;
      while i < |order|
        invariant 0 <= i <= |order|
        invariant results == SearchOver(nodes, order[..i], term)
      {
        var t := order[i];
        if t in nodes {
          var n := nodes[t];
          if Includes(ToLower(t), ToLower(term)) || Includes(ToLower(n.name), ToLower(term)) {
            results := results + [n];
          }
        }
        assert order[..i + 1][..i] == order[..i];
        i := i + 1;
      }
      assert order[..i] == order;
    }

    /** `isDescendantOf(child, parent)`: walk the parent links from `child` looking for `parent`. */
    method IsDescendantOf(child: string, parent: string) returns (b: bool)
      requires ParentsLayered(nodes)
      ensures b == Descends(nodes, child, parent)
    {
      var current := child;
      while current in nodes && HasParent(nodes[current].parent)
        invariant Descends(nodes, child, parent) == Descends(nodes, current, parent)
        decreases if current in nodes then nodes[current].layer + 1 else 0
      {
        var q := nodes[current].parent.value;
        if q == parent {
          return true;
        }
        current := q;
      }
      return false;
    }

    // ----- removing nodes -----

    /** `removeNodeAndChildren(tag)`: delete the node and, first, the trees under each of its children. */
    method RemoveNodeAndChildren(tag: string)
      modifies this`nodes, this`order, this`outlines
      requires Consistent() && Layered(nodes)
      ensures Snapshot() == Delete(old(Snapshot()), Descendants(old(nodes), tag))
      ensures Consistent()
      ensures Layered(nodes) && (ChildrenNamed(old(nodes)) ==> ChildrenNamed(nodes))
    {
      SubMapKeeps(Delete(Snapshot(), Descendants(nodes, tag)).nodes, nodes, LayerCeil(nodes));
      DeleteKeyed(Snapshot(), Descendants(nodes, tag));
      RemoveTree(tag, LayerCeil(nodes));
    }

    method RemoveTree(tag: string, ghost bound: nat)
      modifies this`nodes, this`order, this`outlines
      requires Layered(nodes) && Bounded(nodes, bound)
      ensures Snapshot() == Delete(old(Snapshot()), Subtree(old(nodes), tag, bound))
      decreases if tag in nodes && nodes[tag].layer <= bound then bound - nodes[tag].layer + 1 else 0, 2
    {
      if tag !in nodes {
        WithoutNothing(order, {});
        return;
      }
      ghost var g0 := Snapshot();
      var node := nodes[tag];
      RemoveEach(node.children, node.layer, bound);
      ghost var f := Forest(g0.nodes, node.children, node.layer, bound);
      if tag in f {
        ForestInside(g0.nodes, node.children, node.layer, bound, tag);
      }
      outlines := outlines - {tag};
      nodes := nodes - {tag};
      order := Without(order, {tag});
      DeleteTwice(g0, f, {tag});
      assert f + {tag} == Subtree(g0.nodes, tag, bound);
    }

    /** The trees under each of `cs`, children of a node on layer `above`, removed one after the other. */
    method RemoveEach(cs: seq<string>, ghost above: nat, ghost bound: nat)
      modifies this`nodes, this`order, this`outlines
      requires Layered(nodes) && Bounded(nodes, bound) && above <= bound
      requires forall c :: c in cs && c in nodes ==> above < nodes[c].layer
      ensures Snapshot() == Delete(old(Snapshot()), Forest(old(nodes), cs, above, bound))
      decreases bound - above + 1, 1
    {
      ghost var g0 := Snapshot();
      WithoutNothing(order, {});
      var i := 0;
      while i < |cs|
        invariant 0 <= i <= |cs|
        invariant Snapshot() == Delete(g0, Forest(g0.nodes, cs[..i], above, bound))
      {
        RemoveNext(cs, i, above, bound, g0);
        i := i + 1;
      }
      assert cs[..i] == cs;
    }

    /** One iteration of `RemoveEach`: the tree under `cs[i]` removed after those under `cs[..i]`. */
    method RemoveNext(cs: seq<string>, i: nat, ghost above: nat, ghost bound: nat, ghost g0: Graph)
      modifies this`nodes, this`order, this`outlines
      requires Layered(g0.nodes) && Bounded(g0.nodes, bound) && above <= bound && i < |cs|
      requires forall c :: c in cs && c in g0.nodes ==> above < g0.nodes[c].layer
      requires Snapshot() == Delete(g0, Forest(g0.nodes, cs[..i], above, bound))
      ensures Snapshot() == Delete(g0, Forest(g0.nodes, cs[..i + 1], above, bound))
      decreases bound - above + 1, 0
    {
      ghost var m0 := g0.nodes;
      ghost var f := Forest(m0, cs[..i], above, bound);
      var c := cs[i];
      SubMapKeeps(nodes, m0, bound);
      ForestClosed(m0, cs[..i], above, bound);
      RemoveTree(c, bound);
      SubtreeShrink(m0, f, c, bound);
      DeleteTwice(g0, f, Subtree(m0, c, bound) - f);
      assert cs[..i + 1] == cs[..i] + [c];
      ForestSnoc(m0, cs[..i], c, above, bound);
      assert Branch(m0, c, above, bound) == Subtree(m0, c, bound);
      assert f + (Subtree(m0, c, bound) - f) == f + Branch(m0, c, above, bound);
    }

    /**
     * `setChildCount(p, count)`: remove the trees under the parent's current
     * children (each listed child once), drop its outline, empty its
     * children, and add `count` new children.
     */
    method SetChildCount(p: string, count: int, vertices: seq<Point>)
      modifies this`nodes, this`order, this`outlines
      requires Consistent() && Layered(nodes) && PolygonFor(count, vertices)
      ensures Snapshot() == AfterSetChildCount(old(Snapshot()), p, count, vertices)
      ensures Consistent()
      ensures ChildrenNamed(old(nodes)) ==> TreeShaped(nodes)
    {
      if ChildrenNamed(nodes) {
        SetChildCountShaped(Snapshot(), p, count, vertices);
      }
      if p !in nodes {
        return;
      }
      ClearChildren(p);
      var _ := AddChildNodes(p, count, vertices);
    }

    /** The first half of `setChildCount`: the trees under the parent's children go, then its outline and its list of children. */
    method ClearChildren(p: string)
      modifies this`nodes, this`order, this`outlines
      requires Consistent() && Layered(nodes) && p in nodes
      ensures var par := old(nodes[p]);
        var cleared := Delete(old(Snapshot()), Forest(old(nodes), Unique(par.children), par.layer, LayerCeil(old(nodes))));
        p in cleared.nodes && Snapshot() == Reset(cleared, p)
      ensures Consistent()
    {
      ghost var g0 := Snapshot();
      var parent := nodes[p];
      ghost var cleared := Delete(g0, Forest(g0.nodes, Unique(parent.children), parent.layer, LayerCeil(g0.nodes)));
      RemoveEach(Unique(parent.children), parent.layer, LayerCeil(nodes));
      ClearedKeyed(g0, p);
      assert Snapshot() == cleared && cleared.nodes[p] == parent;
      ResetParent(p, parent);
    }

    /** Drop the parent's outline and empty its list of children. */
    method ResetParent(p: string, parent: ClientNode)
      modifies this`nodes, this`outlines
      requires p in nodes && nodes[p] == parent
      ensures Snapshot() == Reset(old(Snapshot()), p)
    {
      outlines := outlines - {p};
      nodes := nodes[p := parent.(children := [])];
    }
  }

  /** The loop of `updateNodeVisibility`: each node of the iteration order adjusted to its visibility and distance. */
  method AdjustEach(m0: map<string, ClientNode>, order: seq<string>, visible: set<string>, dist: map<string, real>)
    returns (m: map<string, ClientNode>)
    requires forall t :: t in m0 ==> t in order && t in dist
    requires forall t :: t in order ==> t in m0
    ensures m == NodeVisibility(m0, visible, dist)
  {
    m := m0;
    var i := 0;
    while i < |order|
      invariant 0 <= i <= |order|
      invariant DoneUpTo(m0, m, NodeVisibility(m0, visible, dist), order, i)
    {
      var t := order[i];
      VisibilityStep(m0, m, visible, dist, order, i);
      m := m[t := m[t].(look := NearLook(m[t].look, t in visible, dist[t]))];
      i := i + 1;
    }
    DoneAll(m0, m, NodeVisibility(m0, visible, dist), order);
  }
}
