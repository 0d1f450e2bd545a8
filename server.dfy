/**
 * The Flask server: a node manager holding a dictionary from tag to node,
 * seeded with the root node `0/0/1`, that adds numbered children under a
 * parent and answers look-ups with the nodes' dictionaries. The HTTP layer
 * is reduced to the two path decodings of the routes and the reading of the
 * `count` field of the request body; JSON is a datatype.
 */
module Server {
  import opened Wrappers
  import opened Text
  import NodeTree

  /** The JSON values the server produces and reads. */
  datatype Json = JNull | JInt(num: int) | JStr(str: string) | JList(items: seq<Json>) | JObject(fields: map<string, Json>)

  /** A `Node` of the server: `position` is the list `[x, y]`, `parent` is `None` for the root. */
  datatype ServerNode = ServerNode(
    tag: string, position: seq<int>, layer: int, polyOrder: int,
    parent: Option<string>, name: string, children: seq<string>)

  /** The default `poly_order` of `Node`. */
  const DefaultPolyOrder := 6

  /** The count `add_children` uses when the request body has none. */
  const DefaultCount := 6

  const SeedTag := "0/0/1"

  const ParentMissing := JObject(map["error" := JStr("Parent node not found")])

  /** `Node(tag, position, layer, poly_order, parent, name)`: an absent or empty name falls back to the tag, and there are no children yet. */
  function NewNode(tag: string, position: seq<int>, layer: int, polyOrder: int, parent: Option<string>, name: Option<string>): ServerNode
  {
    ServerNode(tag, position, layer, polyOrder, parent, if name.Some? && name.value != [] then name.value else tag, [])
  }

  /** The node `create_seed_node` stores: the root at the origin on layer 0. */
  function Seed(): ServerNode
  {
    NewNode(SeedTag, [0, 0], 0, DefaultPolyOrder, None, None)
  }

  /** The seed: tag `0/0/1` at `[0, 0]` on layer 0, no parent, no children, named by its tag, default `poly_order`. */
  lemma SeedFields()
    ensures var n := Seed();
      && n.tag == SeedTag && n.position == [0, 0] && n.layer == 0 && n.parent == None
      && n.children == [] && n.name == n.tag && n.polyOrder == DefaultPolyOrder
  {
  }

  // ----- to_dict and its inverse -----

  function IntsJson(xs: seq<int>): (r: seq<Json>)
    ensures |r| == |xs|
  {
    seq(|xs|, i requires 0 <= i < |xs| => JInt(xs[i]))
  }

  function StrsJson(ss: seq<string>): (r: seq<Json>)
    ensures |r| == |ss|
  {
    seq(|ss|, i requires 0 <= i < |ss| => JStr(ss[i]))
  }

  /** The seven keys of a node's dictionary. */
  const NodeKeys: set<string> := {"tag", "position", "layer", "polyOrder", "parent", "name", "children"}

  /** `Node.to_dict`: the fields under camel-case keys, `None` as `null`. */
  function ToDict(n: ServerNode): (j: Json)
    ensures j.JObject? && j.fields.Keys == NodeKeys
  {
    JObject(map[
      "tag" := JStr(n.tag),
      "position" := JList(IntsJson(n.position)),
      "layer" := JInt(n.layer),
      "polyOrder" := JInt(n.polyOrder),
      "parent" := (if n.parent.Some? then JStr(n.parent.value) else JNull),
      "name" := JStr(n.name),
      "children" := JList(StrsJson(n.children))])
  }

  function JsonInts(js: seq<Json>): Option<seq<int>>
  {
    if js == [] then Some([])
    else match JsonInts(js[..|js| - 1])
      case None => None
      case Some(front) => if js[|js| - 1].JInt? then Some(front + [js[|js| - 1].num]) else None
  }

  function JsonStrs(js: seq<Json>): Option<seq<string>>
  {
    if js == [] then Some([])
    else match JsonStrs(js[..|js| - 1])
      case None => None
      case Some(front) => if js[|js| - 1].JStr? then Some(front + [js[|js| - 1].str]) else None
  }

  /** Reading a node back from its dictionary, as the client does with the fields it uses. */
  function FromDict(j: Json): Option<ServerNode>
  {
    if !j.JObject? || !(NodeKeys <= j.fields.Keys) then None
    else
      var f := j.fields;
      if !f["tag"].JStr? || !f["position"].JList? || !f["layer"].JInt? || !f["polyOrder"].JInt?
         || !(f["parent"].JStr? || f["parent"].JNull?) || !f["name"].JStr? || !f["children"].JList? then None
      else match (JsonInts(f["position"].items), JsonStrs(f["children"].items))
        case (Some(position), Some(children)) =>
          Some(ServerNode(f["tag"].str, position, f["layer"].num, f["polyOrder"].num,
                          if f["parent"].JStr? then Some(f["parent"].str) else None, f["name"].str, children))
        case _ => None
  }

  lemma {:induction false} IntsRoundTrip(xs: seq<int>)
    ensures JsonInts(IntsJson(xs)) == Some(xs)
    decreases |xs|
  {
    if xs != [] {
      var front := xs[..|xs| - 1];
      IntsRoundTrip(front);
      assert IntsJson(xs)[..|xs| - 1] == IntsJson(front);
      assert front + [xs[|xs| - 1]] == xs;
    }
  }

  lemma {:induction false} StrsRoundTrip(ss: seq<string>)
    ensures JsonStrs(StrsJson(ss)) == Some(ss)
    decreases |ss|
  {
    if ss != [] {
      var front := ss[..|ss| - 1];
      StrsRoundTrip(front);
      assert StrsJson(ss)[..|ss| - 1] == StrsJson(front);
      assert front + [ss[|ss| - 1]] == ss;
    }
  }

  /** Each field sits under its own key, `poly_order` under `polyOrder`. */
  lemma ToDictFields(n: ServerNode)
    ensures var f := ToDict(n).fields;
      && f["tag"] == JStr(n.tag) && f["layer"] == JInt(n.layer) && f["polyOrder"] == JInt(n.polyOrder)
      && f["name"] == JStr(n.name) && f["parent"] == (if n.parent.Some? then JStr(n.parent.value) else JNull)
      && f["position"] == JList(IntsJson(n.position)) && f["children"] == JList(StrsJson(n.children))
  {
  }

  /** A node's dictionary reads back as the node: `to_dict` loses nothing. */
  lemma DictRoundTrip(n: ServerNode)
    ensures FromDict(ToDict(n)) == Some(n)
  {
    IntsRoundTrip(n.position);
    StrsRoundTrip(n.children);
  }

  /** Different nodes have different dictionaries. */
  lemma ToDictInjective(n1: ServerNode, n2: ServerNode)
    ensures ToDict(n1) == ToDict(n2) ==> n1 == n2
  {
    DictRoundTrip(n1);
    DictRoundTrip(n2);
  }

  // ----- add_child_nodes -----

  /** The `i`-th new child (from 0) of `p`, whose layer is `layer`: at the origin, one layer down, default `poly_order`, named by its tag. */
  function ChildOf(p: string, layer: int, i: nat): ServerNode
  {
    NewNode(NodeTree.ChildTag(p, i + 1), [0, 0], layer + 1, DefaultPolyOrder, Some(p), None)
  }

  /** How many children `range(count)` produces. */
  function Runs(count: int): nat
  {
    if count > 0 then count else 0
  }

  /** The dictionary after the first `k` iterations of the loop: child `i` stored, then its tag pushed onto the parent's children. */
  function AddUpTo(m: map<string, ServerNode>, p: string, layer: int, k: nat): (r: map<string, ServerNode>)
    requires p in m
    ensures p in r
  {
    if k == 0 then m
    else
      var before := AddUpTo(m, p, layer, k - 1);
      var child := ChildOf(p, layer, k - 1);
      NodeTree.ChildTagDistinct(p, k, k);
      var stored := before[child.tag := child];
      stored[p := stored[p].(children := stored[p].children + [child.tag])]
  }

  /** The dictionary after `add_child_nodes(p, count)`: unchanged for an unknown parent. */
  function AfterAddChildren(m: map<string, ServerNode>, p: string, count: int): map<string, ServerNode>
  {
    if p !in m then m else AddUpTo(m, p, m[p].layer, Runs(count))
  }

  /** What `add_child_nodes(p, count)` returns: the error object, or the new nodes' dictionaries in order. */
  function AddChildrenResult(m: map<string, ServerNode>, p: string, count: int): Json
  {
    if p !in m then ParentMissing
    else JList(Listed(p, m[p].layer, Runs(count)))
  }

  /** The dictionaries of the first `n` new children, in order. */
  function Listed(p: string, layer: int, n: nat): (r: seq<Json>)
    ensures |r| == n
  {
    seq(n, i requires 0 <= i < n => ToDict(ChildOf(p, layer, i)))
  }

  lemma ListedSnoc(p: string, layer: int, n: nat)
    ensures Listed(p, layer, n + 1) == Listed(p, layer, n) + [ToDict(ChildOf(p, layer, n))]
  {
  }

  lemma ChildTagsSnoc(p: string, k: nat)
    requires k > 0
    ensures NodeTree.ChildTags(p, k) == NodeTree.ChildTags(p, k - 1) + [NodeTree.ChildTag(p, k)]
  {
  }

  /** After `k` iterations the keys are the old ones and the `k` new tags. */
  lemma {:induction false} AddUpToKeys(m: map<string, ServerNode>, p: string, layer: int, k: nat)
    requires p in m
    ensures AddUpTo(m, p, layer, k).Keys == m.Keys + (set t | t in NodeTree.ChildTags(p, k))
  {
    if k > 0 {
      AddUpToKeys(m, p, layer, k - 1);
      ChildTagsSnoc(p, k);
    }
  }

  /** After `k` iterations the parent's children gained `p-1` … `p-k`, and nothing else of it changed. */
  lemma {:induction false} AddUpToParent(m: map<string, ServerNode>, p: string, layer: int, k: nat)
    requires p in m
    ensures AddUpTo(m, p, layer, k)[p] == m[p].(children := m[p].children + NodeTree.ChildTags(p, k))
  {
    if k > 0 {
      AddUpToParent(m, p, layer, k - 1);
      NodeTree.ChildTagDistinct(p, k, k);
      ChildTagsSnoc(p, k);
    }
  }

  /** Child `i` sits under its tag once it is created, and later iterations do not touch it. */
  lemma {:induction false} AddUpToChild(m: map<string, ServerNode>, p: string, layer: int, k: nat, i: nat)
    requires p in m && i < k
    ensures var r := AddUpTo(m, p, layer, k); NodeTree.ChildTag(p, i + 1) in r && r[NodeTree.ChildTag(p, i + 1)] == ChildOf(p, layer, i)
  {
    NodeTree.ChildTagDistinct(p, i + 1, k);
    NodeTree.ChildTagDistinct(p, k, k);
    if i < k - 1 {
      AddUpToChild(m, p, layer, k - 1, i);
    }
  }

  /** An entry that is neither the parent nor one of the new tags is never written. */
  lemma {:induction false} AddUpToOthers(m: map<string, ServerNode>, p: string, layer: int, k: nat, t: string)
    requires p in m && t in m && t != p && t !in NodeTree.ChildTags(p, k)
    ensures t in AddUpTo(m, p, layer, k) && AddUpTo(m, p, layer, k)[t] == m[t]
  {
    if k > 0 {
      ChildTagsSnoc(p, k);
      AddUpToOthers(m, p, layer, k - 1, t);
    }
  }

  /**
   * The `i`-th listed dictionary reads back as the node stored under
   * `p-(i+1)`: a child of `p` one layer down, with the default `poly_order`,
   * named by its tag and without children.
   */
  predicate NewChildListed(m: map<string, ServerNode>, p: string, after: map<string, ServerNode>, items: seq<Json>, i: nat)
    requires p in m && i < |items|
  {
    var tag := NodeTree.ChildTag(p, i + 1);
    && tag in after
    && FromDict(items[i]) == Some(after[tag])
    && after[tag].parent == Some(p) && after[tag].layer == m[p].layer + 1
    && after[tag].polyOrder == DefaultPolyOrder && after[tag].name == tag && after[tag].children == []
  }

  /**
   * `add_child_nodes(p, count)`: an unknown parent gives the error object and
   * changes nothing; otherwise the result lists `max(count, 0)` nodes, the
   * `i`-th a child of `p` tagged `p-(i+1)` with `polyOrder` 6, each stored
   * under its tag, and the parent's children gained those tags in order.
   */
  lemma AddChildrenOutcome(m: map<string, ServerNode>, p: string, count: int)
    ensures var r := AddChildrenResult(m, p, count); var after := AfterAddChildren(m, p, count);
      && (r == ParentMissing <==> p !in m)
      && (p !in m ==> after == m)
      && (p in m ==>
            && r.JList? && |r.items| == Runs(count)
            && after[p].children == m[p].children + NodeTree.ChildTags(p, Runs(count))
            && forall i :: 0 <= i < |r.items| ==> NewChildListed(m, p, after, r.items, i))
  {
    if p in m {
      var n := Runs(count);
      var layer := m[p].layer;
      var after := AddUpTo(m, p, layer, n);
      assert AfterAddChildren(m, p, count) == after;
      AddUpToParent(m, p, layer, n);
      var r := AddChildrenResult(m, p, count);
      forall i | 0 <= i < |r.items|
        ensures NewChildListed(m, p, after, r.items, i)
      {
        AddUpToChild(m, p, layer, n, i);
        DictRoundTrip(ChildOf(p, layer, i));
      }
      assert r != ParentMissing by {
        assert r.JList?;
      }
    }
  }

  /** The dictionary after `add_child_nodes(p, count)` on a known parent: the old keys and the new tags; every other entry kept. */
  lemma AddChildrenStored(m: map<string, ServerNode>, p: string, count: int)
    requires p in m
    ensures var after := AfterAddChildren(m, p, count); var tags := NodeTree.ChildTags(p, Runs(count));
      && after.Keys == m.Keys + (set t | t in tags)
      && forall t :: t in m && t != p && t !in tags ==> t in after && after[t] == m[t]
  {
    var tags := NodeTree.ChildTags(p, Runs(count));
    AddUpToKeys(m, p, m[p].layer, Runs(count));
    forall t | t in m && t != p && t !in tags
      ensures t in AddUpTo(m, p, m[p].layer, Runs(count)) && AddUpTo(m, p, m[p].layer, Runs(count))[t] == m[t]
    {
      AddUpToOthers(m, p, m[p].layer, Runs(count), t);
    }
  }

  // ----- tags in URLs -----

  /** The client's `tag.replace(/\//g, '|')`, which keeps the tag in one path segment. */
  function EncodeTag(tag: string): string
  {
    ReplaceChar(tag, '/', '|')
  }

  /** The routes' `tag.replace('|', '/')`. */
  function DecodeTag(path: string): string
  {
    ReplaceChar(path, '|', '/')
  }

  /** Decoding undoes the client's encoding for every tag without a `|`, and the encoding has no `/`. */
  lemma TagRoundTrip(tag: string)
    requires '|' !in tag
    ensures '/' !in EncodeTag(tag)
    ensures DecodeTag(EncodeTag(tag)) == tag
  {
    ReplaceCharEffect(tag, '/', '|');
    ReplaceCharInverse(tag, '/', '|');
  }

  /** The routes' decoding leaves no `|` and keeps every other character. */
  lemma DecodeRemovesBars(path: string)
    ensures '|' !in DecodeTag(path)
    ensures |DecodeTag(path)| == |path|
    ensures forall i :: 0 <= i < |path| && path[i] != '|' ==> DecodeTag(path)[i] == path[i]
  {
    ReplaceCharEffect(path, '|', '/');
  }

  /**
   * No path decodes to a tag that contains `|`, so `GET /nodes/<path>` never
   * answers the node stored under such a tag, whatever path the client sends.
   */
  lemma BarTagNotAddressable(t: string, path: string)
    requires '|' in t
    ensures DecodeTag(path) != t
  {
    DecodeRemovesBars(path);
  }

  /** Every tag the two programs generate, the seed's and its descendants', has no `|`, so it survives the round trip. */
  lemma ChildTagNoBar(p: string, i: nat)
    requires '|' !in p
    ensures '|' !in NodeTree.ChildTag(p, i)
  {
    var s := NatToString(i);
    assert forall k :: 0 <= k < |s| ==> IsDigit(s[k]);
    assert NodeTree.ChildTag(p, i) == p + "-" + s;
  }

  lemma SeedNoBar()
    ensures '|' !in SeedTag
  {
  }

  // ----- the node manager -----

  class NodeManager {
    var nodes: map<string, ServerNode>

    /** A manager holding only the seed node. */
    constructor ()
      ensures nodes == map[SeedTag := Seed()]
    {
      nodes := map[];
      new;
      var _ := CreateSeedNode();
    }

    /** `create_seed_node`: store the root under `0/0/1` and return its dictionary. */
    method CreateSeedNode() returns (d: Json)
      modifies this`nodes
      ensures nodes == old(nodes)[SeedTag := Seed()]
      ensures FromDict(d) == Some(Seed())
    {
      var seed := NewNode(SeedTag, [0, 0], 0, DefaultPolyOrder, None, None);
      nodes := nodes[seed.tag := seed];
      d := ToDict(seed);
      DictRoundTrip(seed);
    }

    /**
     * `add_child_nodes(parent_tag, count)`, with `count` whatever the request
     * held: an unknown parent gives the error object before `count` is used;
     * otherwise `range(count)` raises (`None`) when it is not an integer,
     * before anything is stored.
     */
    method AddChildNodes(parentTag: string, count: Json) returns (r: Option<Json>)
      modifies this`nodes
      ensures parentTag !in old(nodes) ==> r == Some(ParentMissing) && nodes == old(nodes)
      ensures parentTag in old(nodes) && !count.JInt? ==> r.None? && nodes == old(nodes)
      ensures count.JInt? ==>
        && nodes == AfterAddChildren(old(nodes), parentTag, count.num)
        && r == Some(AddChildrenResult(old(nodes), parentTag, count.num))
    {
      if parentTag !in nodes {
        return Some(ParentMissing);
      }
      if !count.JInt? {
        return None;
      }
      var n := count.num;
      var parent := nodes[parentTag];
      ghost var m0 := nodes;
      var m := nodes;
      var newNodes: seq<Json> := [];
      var i := 0;
      while i < n
        invariant 0 <= i <= Runs(n)
        invariant parentTag in m && m == AddUpTo(m0, parentTag, parent.layer, i)
        invariant newNodes == Listed(parentTag, parent.layer, i)
      {
        var tag := parentTag + "-" + NatToString(i + 1);
        var node := NewNode(tag, [0, 0], parent.layer + 1, DefaultPolyOrder, Some(parentTag), None);
        assert node == ChildOf(parentTag, parent.layer, i);
        m := m[tag := node];
        m := m[parentTag := m[parentTag].(children := m[parentTag].children + [tag])];
        ListedSnoc(parentTag, parent.layer, i);
        newNodes := newNodes + [ToDict(node)];
        i := i + 1;
      }
      nodes := m;
      return Some(JList(newNodes));
    }

    /** `get_node(tag)`: the stored node's dictionary, or `None`. */
    function GetNode(tag: string): (r: Option<Json>)
      reads this
      ensures r.Some? <==> tag in nodes
      ensures r.Some? ==> FromDict(r.value) == Some(nodes[tag])
    {
      DictRoundTrip(if tag in nodes then nodes[tag] else Seed());
      if tag in nodes then Some(ToDict(nodes[tag])) else None
    }

    /** `get_all_nodes`: every tag mapped to its node's dictionary. */
    function GetAllNodes(): (r: map<string, Json>)
      reads this
      ensures r.Keys == nodes.Keys
      ensures forall t :: t in r ==> FromDict(r[t]) == Some(nodes[t])
    {
      forall t | t in nodes
        ensures FromDict(ToDict(nodes[t])) == Some(nodes[t])
      {
        DictRoundTrip(nodes[t]);
      }
      map t | t in nodes :: ToDict(nodes[t])
    }
  }

  // ----- routes -----

  /** What a route answers: a JSON body, a 404, or a server error when the request body cannot be read. */
  datatype Response = Ok(body: Json) | NotFound | ServerError

  /** `GET /nodes`. */
  function GetNodesRoute(m: NodeManager): (r: Response)
    reads m
    ensures r.Ok? && r.body.JObject? && r.body.fields.Keys == m.nodes.Keys
  {
    Ok(JObject(m.GetAllNodes()))
  }

  /** `GET /nodes/<tag>`: decode the path, then the node's dictionary or 404. */
  function GetNodeRoute(m: NodeManager, path: string): (r: Response)
    reads m
    ensures r.Ok? <==> DecodeTag(path) in m.nodes
    ensures r.NotFound? <==> DecodeTag(path) !in m.nodes
    ensures r.Ok? ==> FromDict(r.body) == Some(m.nodes[DecodeTag(path)])
  {
    match m.GetNode(DecodeTag(path))
    case Some(d) => Ok(d)
    case None => NotFound
  }

  /**
   * `data.get('count', 6)` on the request body: the default when the key is
   * absent, otherwise whatever value the body holds there, unchecked; nothing
   * (the handler fails) when the body is not an object and so has no `get`.
   */
  function CountOf(body: Json): (c: Option<Json>)
    ensures c.None? <==> !body.JObject?
    ensures body.JObject? && "count" !in body.fields ==> c == Some(JInt(DefaultCount))
    ensures body.JObject? && "count" in body.fields ==> c == Some(body.fields["count"])
  {
    if !body.JObject? then None
    else if "count" in body.fields then Some(body.fields["count"])
    else Some(JInt(DefaultCount))
  }

  /**
   * `POST /nodes/children/<tag>`: decode the path, read the count, call
   * `add_child_nodes`. A body that is not an object, or a count that is not
   * an integer for a known parent, is a server error and changes nothing;
   * an unknown parent answers the error object whatever the count.
   */
  method AddChildrenRoute(m: NodeManager, path: string, body: Json) returns (r: Response)
    modifies m
    ensures !body.JObject? ==> r == ServerError && m.nodes == old(m.nodes)
    ensures body.JObject? && DecodeTag(path) !in old(m.nodes) ==> r == Ok(ParentMissing) && m.nodes == old(m.nodes)
    ensures body.JObject? && DecodeTag(path) in old(m.nodes) && !CountOf(body).value.JInt? ==>
      r == ServerError && m.nodes == old(m.nodes)
    ensures body.JObject? && CountOf(body).value.JInt? ==>
      var n := CountOf(body).value.num;
      && m.nodes == AfterAddChildren(old(m.nodes), DecodeTag(path), n)
      && r == Ok(AddChildrenResult(old(m.nodes), DecodeTag(path), n))
  {
    var tag := DecodeTag(path);
    var count := CountOf(body);
    if count.None? {
      return ServerError;
    }
    var result := m.AddChildNodes(tag, count.value);
    if result.None? {
      return ServerError;
    }
    return Ok(result.value);
  }
}
