/**
 * The client's node tree, as values: the `nodes` map with its key order
 * (a JavaScript `Map` iterates in insertion order, and setting an existing
 * key keeps its place), the tags that own a polygon outline, and the pure
 * definitions that specify how `createNodeFromData`, `addChildNodes` and
 * `searchNodes` change or read them (removal and the parent chain are in
 * `Hierarchy`).
 *
 * Only the parts of a node's drawing that the client switches on and off are
 * kept: whether its sphere is shown and at what scale, whether its label is
 * shown, and whether it has a line to its parent and whether that is shown.
 */
module NodeTree {
  import opened Wrappers
  import opened Planar
  import opened Text

  /** The switchable drawing state of a node; `line` is `None` when the node has no connection line. */
  datatype Look = Look(meshVisible: bool, meshScale: real, labelVisible: bool, line: Option<bool>)

  /** A node as the client keeps it in its `nodes` map. */
  datatype ClientNode = ClientNode(
    tag: string, position: Point, layer: nat, polyOrder: int, parent: Option<string>,
    name: string, children: seq<string>, look: Look)

  /** The plain record `createNodeFromData` is given. */
  datatype NodeData = NodeData(
    tag: string, position: Point, layer: nat, polyOrder: int, parent: Option<string>,
    name: string, children: seq<string>)

  /** The node map, its iteration order, and the tags that own an outline. */
  datatype Graph = Graph(nodes: map<string, ClientNode>, order: seq<string>, outlines: set<string>)

  /** JavaScript truthiness of a `parent` field: absent, `null` and the empty string all count as no parent. */
  predicate HasParent(parent: Option<string>)
  {
    parent.Some? && parent.value != []
  }

  predicate Distinct(s: seq<string>)
  {
    s == [] || (s[|s| - 1] !in s[..|s| - 1] && Distinct(s[..|s| - 1]))
  }

  /** Every tag of `order` is a key of `nodes` whose node carries that tag. */
  predicate Indexed(order: seq<string>, nodes: map<string, ClientNode>)
  {
    order == [] ||
    (var t := order[|order| - 1]; t in nodes && nodes[t].tag == t && Indexed(order[..|order| - 1], nodes))
  }

  /**
   * The order lists every key exactly once, and every node is stored under
   * its own tag. Stated without quantifiers (a duplicate-free order of
   * present keys that is as long as the map is every key); the quantified
   * reading is `WellKeyedMeaning`.
   */
  predicate WellKeyed(g: Graph)
  {
    Distinct(g.order) && Indexed(g.order, g.nodes) && |g.nodes| == |g.order|
  }

  lemma {:induction false} IndexedIn(order: seq<string>, nodes: map<string, ClientNode>, t: string)
    requires Indexed(order, nodes) && t in order
    ensures t in nodes && nodes[t].tag == t
    decreases |order|
  {
    if order[|order| - 1] != t {
      assert t in order[..|order| - 1];
      IndexedIn(order[..|order| - 1], nodes, t);
    }
  }

  lemma {:induction false} IndexedAll(order: seq<string>, nodes: map<string, ClientNode>)
    requires forall t :: t in order ==> t in nodes && nodes[t].tag == t
    ensures Indexed(order, nodes)
    decreases |order|
  {
    if order != [] {
      var front := order[..|order| - 1];
      assert forall t :: t in front ==> t in order;
      IndexedAll(front, nodes);
    }
  }

  /** Storing a node under its own tag keeps every listed key indexed. */
  lemma {:induction false} IndexedUpdate(order: seq<string>, nodes: map<string, ClientNode>, n: ClientNode)
    requires Indexed(order, nodes)
    ensures Indexed(order, nodes[n.tag := n])
    decreases |order|
  {
    if order != [] {
      IndexedUpdate(order[..|order| - 1], nodes, n);
    }
  }

  lemma {:induction false} DistinctCard(s: seq<string>)
    requires Distinct(s)
    ensures |(set t | t in s)| == |s|
    decreases |s|
  {
    if s != [] {
      var front := s[..|s| - 1];
      DistinctCard(front);
      assert (set t | t in s) == (set t | t in front) + {s[|s| - 1]};
    }
  }

  lemma {:induction false} DistinctIndices(s: seq<string>, i: int, j: int)
    requires Distinct(s) && 0 <= i < j < |s|
    ensures s[i] != s[j]
    decreases |s|
  {
    var front := s[..|s| - 1];
    if j < |s| - 1 {
      DistinctIndices(front, i, j);
    } else {
      assert s[i] == front[i];
    }
  }

  lemma {:induction false} DistinctFromIndices(s: seq<string>)
    requires forall i, j :: 0 <= i < j < |s| ==> s[i] != s[j]
    ensures Distinct(s)
    decreases |s|
  {
    if s != [] {
      var front := s[..|s| - 1];
      DistinctFromIndices(front);
      forall i | 0 <= i < |front|
        ensures front[i] != s[|s| - 1]
      {
        assert front[i] == s[i];
      }
    }
  }

  /** `Distinct` means no two positions hold the same tag. */
  lemma DistinctMeaning(s: seq<string>)
    ensures Distinct(s) <==> forall i, j :: 0 <= i < j < |s| ==> s[i] != s[j]
  {
    if Distinct(s) {
      forall i, j | 0 <= i < j < |s|
        ensures s[i] != s[j]
      {
        DistinctIndices(s, i, j);
      }
    }
    if forall i, j :: 0 <= i < j < |s| ==> s[i] != s[j] {
      DistinctFromIndices(s);
    }
  }

  /** Appending a tag not yet listed keeps a sequence duplicate-free. */
  lemma DistinctSnoc(s: seq<string>, t: string)
    requires Distinct(s) && t !in s
    ensures Distinct(s + [t])
  {
    assert (s + [t])[..|s|] == s;
  }

  /** `WellKeyed`, read with quantifiers: the order is duplicate-free, lists exactly the keys, and every node carries its key as tag. */
  lemma WellKeyedMeaning(g: Graph)
    ensures WellKeyed(g) <==>
      && Distinct(g.order)
      && (forall t :: t in g.order ==> t in g.nodes)
      && (forall t :: t in g.nodes ==> t in g.order)
      && (forall t :: t in g.nodes ==> g.nodes[t].tag == t)
  {
    var listed := set t | t in g.order;
    if WellKeyed(g) {
      forall t | t in g.order
        ensures t in g.nodes && g.nodes[t].tag == t
      {
        IndexedIn(g.order, g.nodes, t);
      }
      DistinctCard(g.order);
      assert listed <= g.nodes.Keys;
      SubsetSameSize(listed, g.nodes.Keys);
    }
    if
      && Distinct(g.order)
      && (forall t :: t in g.order ==> t in g.nodes)
      && (forall t :: t in g.nodes ==> t in g.order)
      && (forall t :: t in g.nodes ==> g.nodes[t].tag == t)
    {
      IndexedAll(g.order, g.nodes);
      DistinctCard(g.order);
      assert listed == g.nodes.Keys;
    }
  }

  /** A subset as large as a finite set is the whole set. */
  lemma SubsetSameSize(a: set<string>, b: set<string>)
    requires a <= b && |a| == |b|
    ensures a == b
  {
    var rest := b - a;
    assert b == a + rest && a * rest == {};
    assert |b| == |a| + |rest|;
    assert rest == {};
  }

  /** What a well-keyed graph says about one key. */
  lemma WellKeyedKey(g: Graph, t: string)
    requires WellKeyed(g)
    ensures t in g.nodes <==> t in g.order
    ensures t in g.nodes ==> g.nodes[t].tag == t
  {
    WellKeyedMeaning(g);
  }

  // ----- createNodeFromData -----

  /**
   * The node built from `d`: sphere shown at scale 1, label shown only for a root, and a shown line if one is drawn.
   */
  function MakeNode(d: NodeData, withLine: bool): ClientNode
  {
    ClientNode(d.tag, d.position, d.layer, d.polyOrder, d.parent, d.name, d.children,
               Look(true, 1.0, !HasParent(d.parent), if withLine then Some(true) else None))
  }

  /** `Map.prototype.set`: a new key goes last, an existing key keeps its place and gets the new value. */
  function Put(g: Graph, n: ClientNode): Graph
  {
    Graph(g.nodes[n.tag := n], if n.tag in g.nodes then g.order else g.order + [n.tag], g.outlines)
  }

  /** Whether `createNodeFromData` draws a line: the node has a parent that is in the map once the node itself is. */
  predicate LineDrawn(g: Graph, d: NodeData)
  {
    HasParent(d.parent) && (d.parent.value == d.tag || d.parent.value in g.nodes)
  }

  /** The graph after `createNodeFromData(d)`. */
  function CreateIn(g: Graph, d: NodeData): Graph
  {
    Put(g, MakeNode(d, LineDrawn(g, d)))
  }

  /** Creating a node keeps the graph well keyed. */
  lemma CreateKeyed(g: Graph, d: NodeData)
    requires WellKeyed(g)
    ensures WellKeyed(CreateIn(g, d))
  {
    PutWellKeyed(g, MakeNode(d, LineDrawn(g, d)));
  }

  /** Storing a node keeps the map well keyed, only appends to the order, and changes no other entry. */
  lemma PutWellKeyed(g: Graph, n: ClientNode)
    requires WellKeyed(g)
    ensures var r := Put(g, n);
      && WellKeyed(r)
      && |g.order| <= |r.order| && r.order[..|g.order|] == g.order
      && r.nodes.Keys == g.nodes.Keys + {n.tag}
      && r.nodes[n.tag] == n
      && (forall t :: t in g.nodes && t != n.tag ==> r.nodes[t] == g.nodes[t])
      && r.outlines == g.outlines
  {
    var r := Put(g, n);
    IndexedUpdate(g.order, g.nodes, n);
    WellKeyedKey(g, n.tag);
    if n.tag !in g.nodes {
      DistinctSnoc(g.order, n.tag);
      assert r.order[..|g.order|] == g.order;
    }
  }

  /**
   * `createNodeFromData(d)` stores the node under its tag with the data's
   * fields, its sphere shown at scale 1, its label hidden exactly when it
   * has a parent, and a line exactly when that parent is present; every other
   * entry, the order of existing keys and the outlines stay as they were.
   */
  lemma CreateEffect(g: Graph, d: NodeData)
    requires WellKeyed(g)
    ensures var r := CreateIn(g, d); var n := r.nodes[d.tag];
      && WellKeyed(r)
      && r.nodes.Keys == g.nodes.Keys + {d.tag}
      && (forall t :: t in g.nodes && t != d.tag ==> r.nodes[t] == g.nodes[t])
      && r.order[..|g.order|] == g.order && r.outlines == g.outlines
      && n.tag == d.tag && n.position == d.position && n.layer == d.layer && n.polyOrder == d.polyOrder
      && n.parent == d.parent && n.name == d.name && n.children == d.children
      && n.look.meshVisible && n.look.meshScale == 1.0
      && (n.look.labelVisible <==> !HasParent(d.parent))
      && (n.look.line.Some? <==> HasParent(d.parent) && d.parent.value in r.nodes)
      && (n.look.line.Some? ==> n.look.line.value)
  {
    PutWellKeyed(g, MakeNode(d, LineDrawn(g, d)));
  }

  // ----- addChildNodes -----

  /** The tag of the `i`-th child of `p`, counting from 1. */
  function ChildTag(p: string, i: nat): string
  {
    p + "-" + NatToString(i)
  }

  /** A child's tag is never its parent's, and different counters give different tags. */
  lemma ChildTagDistinct(p: string, i: nat, j: nat)
    ensures ChildTag(p, i) != p
    ensures i != j ==> ChildTag(p, i) != ChildTag(p, j)
  {
    assert |ChildTag(p, i)| > |p|;
    if ChildTag(p, i) == ChildTag(p, j) {
      assert ChildTag(p, i)[|p| + 1..] == NatToString(i);
      assert ChildTag(p, j)[|p| + 1..] == NatToString(j);
      NatToStringInjective(i, j);
    }
  }

  /** `parentTag-1` … `parentTag-n`. */
  function ChildTags(p: string, n: nat): (r: seq<string>)
    ensures |r| == n
  {
    seq(n, i requires 0 <= i < n => ChildTag(p, i + 1))
  }

  /** The generated tags are all different and none is the parent's. */
  lemma ChildTagsDistinct(p: string, n: nat)
    ensures Distinct(ChildTags(p, n)) && p !in ChildTags(p, n)
  {
    var ks := ChildTags(p, n);
    forall i, j | 0 <= i < j < n
      ensures ks[i] != ks[j]
    {
      ChildTagDistinct(p, i + 1, j + 1);
    }
    forall i | 0 <= i < n
      ensures ks[i] != p
    {
      ChildTagDistinct(p, i + 1, i + 1);
    }
    DistinctMeaning(ks);
  }

  /** `c` is named as a child of `x`: `x`, a `-`, and a suffix without `-`. */
  predicate NamedUnder(c: string, x: string)
  {
    |x| < |c| && c[..|x|] == x && c[|x|] == '-' && forall k :: |x| < k < |c| ==> c[k] != '-'
  }

  /** Every child a node lists is named under that node, as both programs name the children they create. */
  predicate ChildrenNamed(m: map<string, ClientNode>)
  {
    forall x, c :: x in m && c in m[x].children ==> NamedUnder(c, x)
  }

  /** The tags `addChildNodes` generates are named under the parent. */
  lemma ChildTagNamed(p: string, i: nat)
    ensures NamedUnder(ChildTag(p, i), p)
  {
    var c := ChildTag(p, i);
    var digits := NatToString(i);
    assert c[..|p|] == p;
    forall k | |p| < k < |c|
      ensures c[k] != '-'
    {
      assert c[k] == digits[k - |p| - 1];
      assert IsDigit(digits[k - |p| - 1]);
    }
  }

  /** Every tag of a batch is named under the parent. */
  lemma ChildTagsNamed(p: string, n: nat)
    ensures forall k :: 0 <= k < n ==> NamedUnder(ChildTags(p, n)[k], p)
  {
    forall k | 0 <= k < n
      ensures NamedUnder(ChildTags(p, n)[k], p)
    {
      ChildTagNamed(p, k + 1);
    }
  }

  /** A tag is named under at most one node: the one whose tag precedes its last `-`. */
  lemma NamedUnique(c: string, x: string, y: string)
    requires NamedUnder(c, x) && NamedUnder(c, y)
    ensures x == y
  {
  }

  /**
   * One call of `addChildNodes`: the parent's tag and layer (read once from
   * the parent object), the requested count, the child tags and the polygon
   * vertices the children are placed on.
   */
  datatype Batch = Batch(parent: string, layer: nat, count: int, tags: seq<string>, vertices: seq<Point>)

  /** One tag per vertex, all different and different from the parent's. */
  predicate BatchOk(b: Batch)
  {
    |b.tags| == |b.vertices| && Distinct(b.tags) && b.parent !in b.tags
  }

  /** The record built for the `i`-th new child (from 0): one layer down, `polyOrder` the count, named by its tag. */
  function ChildData(b: Batch, i: nat): NodeData
    requires i < |b.tags| && i < |b.vertices|
  {
    NodeData(b.tags[i], b.vertices[i], b.layer + 1, b.count, Some(b.parent), b.tags[i], [])
  }

  /** The node `createNodeFromData` builds for that child: its parent is present, so it gets a line unless the parent's tag is empty. */
  function ChildNode(b: Batch, i: nat): ClientNode
    requires i < |b.tags| && i < |b.vertices|
  {
    MakeNode(ChildData(b, i), b.parent != [])
  }

  /** One iteration of the loop: create child `i` and push its tag onto the parent's children. */
  function AddStep(g: Graph, b: Batch, i: nat): (r: Graph)
    requires b.parent in g.nodes && i < |b.tags| && i < |b.vertices|
    ensures b.parent in r.nodes
  {
    var d := ChildData(b, i);
    var g1 := CreateIn(g, d);
    var par := g1.nodes[b.parent];
    g1.(nodes := g1.nodes[b.parent := par.(children := par.children + [d.tag])])
  }

  /** Appending the node of child `|created|` extends a prefix of the batch's nodes by one. */
  lemma CreatedSnoc(b: Batch, created: seq<ClientNode>, node: ClientNode)
    requires |created| < |b.tags| && |created| < |b.vertices|
    requires forall k :: 0 <= k < |created| ==> created[k] == ChildNode(b, k)
    requires node == ChildNode(b, |created|)
    ensures forall k :: 0 <= k < |created| + 1 ==> (created + [node])[k] == ChildNode(b, k)
  {
  }

  /** The graph after iterations `i` … `n - 1` of the loop, run from `g`. */
  function AddFrom(g: Graph, b: Batch, i: nat, n: nat): (r: Graph)
    requires b.parent in g.nodes && i <= n <= |b.tags| && n <= |b.vertices|
    ensures b.parent in r.nodes
    decreases n - i
  {
    if i == n then g else AddFrom(AddStep(g, b, i), b, i + 1, n)
  }

  /** What `addChildNodes` resolves to: nothing for an unknown parent, an error for no children, or the new nodes. */
  datatype AddOutcome = NoParent | Thrown | Added(created: seq<ClientNode>)

  /**
   * `vertices` is what `generatePolygon` returns for `count`: one vertex per
   * child, none when `count` is not positive.
   */
  predicate PolygonFor(count: int, vertices: seq<Point>)
  {
    |vertices| == if count > 0 then count else 0
  }

  /** The batch `addChildNodes(p, count)` works through on a known parent. */
  function BatchFor(g: Graph, p: string, count: int, vertices: seq<Point>): (b: Batch)
    requires p in g.nodes
    ensures PolygonFor(count, vertices) ==> BatchOk(b)
  {
    ChildTagsDistinct(p, |vertices|);
    Batch(p, g.nodes[p].layer, count, ChildTags(p, |vertices|), vertices)
  }

  /** The `i`-th child of a batch: tag `p-(i+1)`, at vertex `i`, one layer below the parent. */
  lemma BatchChild(g: Graph, p: string, count: int, vertices: seq<Point>, i: nat)
    requires p in g.nodes && PolygonFor(count, vertices) && i < |vertices|
    ensures var b := BatchFor(g, p, count, vertices); var tag := p + "-" + NatToString(i + 1);
      && b.tags[i] == tag
      && ChildData(b, i) == NodeData(tag, vertices[i], g.nodes[p].layer + 1, count, Some(p), tag, [])
  {
  }

  /**
   * The graph after `addChildNodes(p, count)`. With no children the loop does
   * nothing and building the outline from `vertices[0]` throws before the
   * outline is stored.
   */
  function AfterAdd(g: Graph, p: string, count: int, vertices: seq<Point>): Graph
    requires PolygonFor(count, vertices)
  {
    if p !in g.nodes || count <= 0 then g
    else
      var r := AddFrom(g, BatchFor(g, p, count, vertices), 0, count);
      r.(outlines := r.outlines + {p})
  }

  function AddResult(g: Graph, p: string, count: int, vertices: seq<Point>): AddOutcome
    requires PolygonFor(count, vertices)
  {
    if p !in g.nodes then NoParent
    else if count <= 0 then Thrown
    else Added(seq(count, i requires 0 <= i < count => ChildNode(BatchFor(g, p, count, vertices), i)))
  }

  /** One step: the child is stored, the parent gains its tag, and nothing else changes. */
  lemma AddStepEffect(s: Graph, b: Batch, i: nat)
    requires WellKeyed(s) && BatchOk(b) && b.parent in s.nodes && i < |b.tags|
    ensures var r := AddStep(s, b, i); var tag := b.tags[i];
      && WellKeyed(r)
      && r.nodes.Keys == s.nodes.Keys + {tag}
      && r.nodes[tag] == ChildNode(b, i)
      && r.nodes[b.parent] == s.nodes[b.parent].(children := s.nodes[b.parent].children + [tag])
      && (forall t :: t in s.nodes && t != tag && t != b.parent ==> r.nodes[t] == s.nodes[t])
      && |s.order| <= |r.order| && r.order[..|s.order|] == s.order
      && r.outlines == s.outlines
  {
    var d := ChildData(b, i);
    assert d.tag in b.tags;
    CreateEffect(s, d);
    var g1 := CreateIn(s, d);
    assert LineDrawn(s, d) == (b.parent != []);
    var par := g1.nodes[b.parent];
    WellKeyedKey(g1, b.parent);
    IndexedUpdate(g1.order, g1.nodes, par.(children := par.children + [d.tag]));
  }

  /** Running steps `i` … `n - 1` keeps the graph well keyed, only appends to its order and leaves the outlines alone. */
  lemma {:induction false} AddFromKeyed(g: Graph, b: Batch, i: nat, n: nat)
    requires WellKeyed(g) && BatchOk(b) && b.parent in g.nodes && i <= n <= |b.tags|
    ensures var r := AddFrom(g, b, i, n);
      && WellKeyed(r)
      && |g.order| <= |r.order| && r.order[..|g.order|] == g.order
      && r.outlines == g.outlines
    decreases n - i
  {
    if i < n {
      var s := AddStep(g, b, i);
      AddStepEffect(g, b, i);
      AddFromKeyed(s, b, i + 1, n);
      var r := AddFrom(g, b, i, n);
      assert r.order[..|g.order|] == r.order[..|s.order|][..|g.order|];
    }
  }

  /** Running steps `i` … `n - 1` adds exactly their tags to the keys. */
  lemma {:induction false} AddFromKeys(g: Graph, b: Batch, i: nat, n: nat)
    requires WellKeyed(g) && BatchOk(b) && b.parent in g.nodes && i <= n <= |b.tags|
    ensures AddFrom(g, b, i, n).nodes.Keys == g.nodes.Keys + (set t | t in b.tags[i..n])
    decreases n - i
  {
    if i < n {
      var s := AddStep(g, b, i);
      AddStepEffect(g, b, i);
      AddFromKeys(s, b, i + 1, n);
      SetOfCons(b.tags[i..n]);
      assert b.tags[i..n][1..] == b.tags[i + 1..n];
    }
  }

  /** The tags of a non-empty sequence are its first tag and the tags of the rest. */
  lemma SetOfCons(s: seq<string>)
    requires s != []
    ensures (set t | t in s) == {s[0]} + (set t | t in s[1..])
  {
    assert forall t :: t in s <==> t == s[0] || t in s[1..];
  }

  /** Steps `i` … `n - 1` append exactly their tags, in order, to the parent's children and change nothing else about it. */
  lemma {:induction false} AddFromParent(g: Graph, b: Batch, i: nat, n: nat)
    requires WellKeyed(g) && BatchOk(b) && b.parent in g.nodes && i <= n <= |b.tags|
    ensures AddFrom(g, b, i, n).nodes[b.parent] == g.nodes[b.parent].(children := g.nodes[b.parent].children + b.tags[i..n])
    decreases n - i
  {
    if i < n {
      AddStepEffect(g, b, i);
      AddFromParent(AddStep(g, b, i), b, i + 1, n);
      assert b.tags[i..n] == [b.tags[i]] + b.tags[i + 1..n];
    }
  }

  /** Steps `i` … `n - 1` leave every node other than the parent and their own children as it was. */
  lemma {:induction false} AddFromOthers(g: Graph, b: Batch, i: nat, n: nat, t: string)
    requires WellKeyed(g) && BatchOk(b) && b.parent in g.nodes && i <= n <= |b.tags|
    requires t in g.nodes && t != b.parent && t !in b.tags[i..n]
    ensures t in AddFrom(g, b, i, n).nodes && AddFrom(g, b, i, n).nodes[t] == g.nodes[t]
    decreases n - i
  {
    if i < n {
      assert b.tags[i] in b.tags[i..n];
      assert forall u :: u in b.tags[i + 1..n] ==> u in b.tags[i..n];
      AddStepEffect(g, b, i);
      AddFromOthers(AddStep(g, b, i), b, i + 1, n, t);
    }
  }

  /** Tag `k` does not occur after position `k` of a distinct sequence. */
  lemma TagNotLater(tags: seq<string>, k: nat, n: nat)
    requires Distinct(tags) && k < n <= |tags|
    ensures tags[k] !in tags[k + 1..n]
  {
    DistinctMeaning(tags);
  }

  /** After steps `i` … `n - 1` each of their children is stored as the node built for it. */
  lemma {:induction false} AddFromChild(g: Graph, b: Batch, i: nat, n: nat, k: nat)
    requires WellKeyed(g) && BatchOk(b) && b.parent in g.nodes && i <= k < n <= |b.tags|
    ensures var r := AddFrom(g, b, i, n); b.tags[k] in r.nodes && r.nodes[b.tags[k]] == ChildNode(b, k)
    decreases n - i
  {
    var s := AddStep(g, b, i);
    AddStepEffect(g, b, i);
    if k == i {
      assert b.tags[k] in b.tags;
      TagNotLater(b.tags, k, n);
      AddFromOthers(s, b, i + 1, n, b.tags[k]);
    } else {
      AddFromChild(s, b, i + 1, n, k);
    }
  }

  /**
   * `addChildNodes(p, count)` on a known parent with `count > 0`: the parent's
   * children gain `p-1` … `p-count` in order; each child sits at its vertex,
   * one layer below the parent, with `polyOrder == count`, parent `p`, its tag
   * as name, no children, a hidden label and a shown line; the parent owns an
   * outline; every other node and the place of every existing key are kept.
   */
  lemma AddChildrenEffect(g: Graph, p: string, count: int, vertices: seq<Point>)
    requires WellKeyed(g) && p in g.nodes && count > 0 && PolygonFor(count, vertices)
    ensures var r := AfterAdd(g, p, count, vertices); var par := g.nodes[p]; var kids := ChildTags(p, count);
      && WellKeyed(r)
      && r.nodes.Keys == g.nodes.Keys + (set t | t in kids)
      && r.nodes[p] == par.(children := par.children + kids)
      && (forall i :: 0 <= i < count ==>
            && kids[i] in r.nodes
            && r.nodes[kids[i]] == MakeNode(NodeData(kids[i], vertices[i], par.layer + 1, count, Some(p), kids[i], []), p != []))
      && (forall t :: t in g.nodes && t != p && t !in kids ==> r.nodes[t] == g.nodes[t])
      && |g.order| <= |r.order| && r.order[..|g.order|] == g.order
      && r.outlines == g.outlines + {p}
  {
    var b := BatchFor(g, p, count, vertices);
    AddFromKeyed(g, b, 0, count);
    AddFromKeys(g, b, 0, count);
    AddFromParent(g, b, 0, count);
    assert b.tags[0..count] == b.tags;
    forall i | 0 <= i < count
      ensures var r := AddFrom(g, b, 0, count); b.tags[i] in r.nodes && r.nodes[b.tags[i]] == ChildNode(b, i)
    {
      AddFromChild(g, b, 0, count, i);
    }
    forall t | t in g.nodes && t != p && t !in b.tags
      ensures AddFrom(g, b, 0, count).nodes[t] == g.nodes[t]
    {
      AddFromOthers(g, b, 0, count, t);
    }
  }

  /** The outcome: the created nodes are the children now stored, in order; otherwise nothing changed. */
  lemma AddResultStored(g: Graph, p: string, count: int, vertices: seq<Point>)
    requires WellKeyed(g) && PolygonFor(count, vertices)
    ensures var out := AddResult(g, p, count, vertices); var r := AfterAdd(g, p, count, vertices);
      && (out == NoParent <==> p !in g.nodes)
      && (out == Thrown <==> p in g.nodes && count <= 0)
      && (!out.Added? ==> r == g)
      && (out.Added? ==>
            && |out.created| == count
            && forall i :: 0 <= i < count ==> ChildTags(p, count)[i] in r.nodes && out.created[i] == r.nodes[ChildTags(p, count)[i]])
  {
    if p in g.nodes && count > 0 {
      AddChildrenEffect(g, p, count, vertices);
    }
  }

  // ----- searchNodes -----

  /** The search test: the term occurs in the tag or in the name, both lower-cased. */
  predicate Matches(tag: string, n: ClientNode, term: string)
  {
    Includes(ToLower(tag), ToLower(term)) || Includes(ToLower(n.name), ToLower(term))
  }

  /** The matching nodes among the tags of `order`, in that order. */
  function SearchOver(m: map<string, ClientNode>, order: seq<string>, term: string): (r: seq<ClientNode>)
    ensures |r| <= |order|
  {
    if order == [] then []
    else
      var front := SearchOver(m, order[..|order| - 1], term);
      var t := order[|order| - 1];
      if t in m && Matches(t, m[t], term) then front + [m[t]] else front
  }

  /** What `searchNodes(term)` returns: the matching nodes in the map's iteration order. */
  function Search(g: Graph, term: string): seq<ClientNode>
  {
    SearchOver(g.nodes, g.order, term)
  }

  lemma {:induction false} SearchOverMembers(m: map<string, ClientNode>, order: seq<string>, term: string)
    ensures forall n :: n in SearchOver(m, order, term) <==>
      exists t :: t in order && t in m && m[t] == n && Matches(t, n, term)
    decreases |order|
  {
    if order != [] {
      var front := order[..|order| - 1];
      SearchOverMembers(m, front, term);
      assert order == front + [order[|order| - 1]];
    }
  }

  /**
   * In a well-keyed graph a node is found exactly when its tag or name
   * contains the term, ignoring ASCII case.
   */
  lemma SearchFinds(g: Graph, term: string)
    requires WellKeyed(g)
    ensures forall t :: t in g.nodes ==> (g.nodes[t] in Search(g, term) <==> Matches(t, g.nodes[t], term))
    ensures forall n :: n in Search(g, term) ==> n.tag in g.nodes && g.nodes[n.tag] == n && Matches(n.tag, n, term)
  {
    WellKeyedMeaning(g);
    SearchOverMembers(g.nodes, g.order, term);
  }

  lemma {:induction false} SearchOverAll(m: map<string, ClientNode>, order: seq<string>)
    requires forall t :: t in order ==> t in m
    ensures SearchOver(m, order, []) == seq(|order|, i requires 0 <= i < |order| => m[order[i]])
    decreases |order|
  {
    if order != [] {
      var front := order[..|order| - 1];
      assert forall t :: t in front ==> t in order;
      SearchOverAll(m, front);
      var t := order[|order| - 1];
      IncludesBasics(ToLower(t), [], []);
    }
  }

  /** The empty term matches every node: the search lists the whole map in order. */
  lemma SearchEmptyTerm(g: Graph)
    requires forall t :: t in g.order ==> t in g.nodes
    ensures Search(g, []) == seq(|g.order|, i requires 0 <= i < |g.order| => g.nodes[g.order[i]])
  {
    SearchOverAll(g.nodes, g.order);
  }

  /** The case of the term does not matter. */
  lemma {:induction false} SearchOverCase(m: map<string, ClientNode>, order: seq<string>, term: string)
    ensures SearchOver(m, order, ToLower(term)) == SearchOver(m, order, term)
    decreases |order|
  {
    ToLowerIdempotent(term);
    if order != [] {
      SearchOverCase(m, order[..|order| - 1], term);
    }
  }
}
