/**
 * The parent/child structure of the client's node map: the set of tags
 * `removeNodeAndChildren` deletes (a node and, recursively, every child it
 * lists that is still present), what that deletion does to the iteration
 * order, and the parent chain `isDescendantOf` walks.
 *
 * Both walks recurse without a visited set, so the client relies on the
 * structure having no cycles. The model expresses this through layers: a
 * listed child that is present sits on a deeper layer than its parent
 * (`Layered`), and a present parent sits on a shallower layer than its
 * child (`ParentsLayered`). `Layered`, together with the rule that a child's
 * tag is its parent's tag followed by `-` and a suffix (`ChildrenNamed`), is
 * kept by `addChildNodes`, `setChildCount` and every deletion, and by
 * `createNodeFromData` for a record that fits (`TreeShaped` and the lemmas
 * after it). `ParentsLayered` is assumed where the parent chain is walked.
 */
module Hierarchy {
  import opened Wrappers
  import opened Planar
  import opened NodeTree

  /** Every present child a node lists is on a deeper layer. */
  predicate Layered(m: map<string, ClientNode>)
  {
    forall x, c :: x in m && c in m[x].children && c in m ==> m[x].layer < m[c].layer
  }

  /** No layer exceeds `bound`. */
  predicate Bounded(m: map<string, ClientNode>, bound: nat)
  {
    forall x :: x in m ==> m[x].layer <= bound
  }

  /** A submap that keeps the values: what deleting keys leaves. */
  predicate SubMap(small: map<string, ClientNode>, big: map<string, ClientNode>)
  {
    forall x :: x in small ==> x in big && small[x] == big[x]
  }

  lemma SubMapKeeps(small: map<string, ClientNode>, big: map<string, ClientNode>, bound: nat)
    requires SubMap(small, big) && Layered(big) && Bounded(big, bound)
    ensures Layered(small) && Bounded(small, bound)
  {
  }

  /**
   * The tags `removeNodeAndChildren(t)` deletes: `t` if present, and the
   * subtrees of its listed children. Only edges into a deeper layer are
   * followed, which keeps the definition total; in a `Layered` map that is
   * every edge.
   */
  function Subtree(m: map<string, ClientNode>, t: string, bound: nat): set<string>
    decreases if t in m && m[t].layer <= bound then bound - m[t].layer else 0, 1
  {
    if t in m && m[t].layer <= bound then {t} + Forest(m, m[t].children, m[t].layer, bound) else {}
  }

  /** The union of the subtrees of the children `cs` of a node on layer `above`. */
  function Forest(m: map<string, ClientNode>, cs: seq<string>, above: nat, bound: nat): set<string>
    decreases if above <= bound then bound - above else 0, 0, |cs|
  {
    if cs == [] then {}
    else
      var c := cs[|cs| - 1];
      Forest(m, cs[..|cs| - 1], above, bound) + Branch(m, c, above, bound)
  }

  /** Whether the walk from a node on layer `above` follows its listed child `c`. */
  predicate Deeper(m: map<string, ClientNode>, c: string, above: nat, bound: nat)
  {
    c in m && above < m[c].layer <= bound
  }

  /** The part of `Forest` contributed by one child. */
  function Branch(m: map<string, ClientNode>, c: string, above: nat, bound: nat): set<string>
    decreases if above <= bound then bound - above else 0, 0, 0
  {
    if Deeper(m, c, above, bound) then Subtree(m, c, bound) else {}
  }

  /** The largest layer in the map (0 for an empty map). */
  ghost function LayerCeil(m: map<string, ClientNode>): (b: nat)
    ensures Bounded(m, b)
    decreases |m.Keys|
  {
    if m.Keys == {} then 0
    else
      var k :| k in m.Keys;
      var rest := m - {k};
      assert |rest.Keys| < |m.Keys| by {
        assert rest.Keys == m.Keys - {k};
      }
      var b := LayerCeil(rest);
      var r := if m[k].layer < b then b else m[k].layer;
      assert forall x :: x in m ==> x == k || x in rest;
      r
  }

  /** Every tag `removeNodeAndChildren(t)` deletes from `m`. */
  ghost function Descendants(m: map<string, ClientNode>, t: string): set<string>
  {
    Subtree(m, t, LayerCeil(m))
  }

  /** A set of tags that contains every present, deeper child of each of its present members. */
  predicate Closed(m: map<string, ClientNode>, s: set<string>)
  {
    forall x, c :: x in s && x in m && c in m[x].children && c in m && m[x].layer < m[c].layer ==> c in s
  }

  /** Adding the children of `c` appended to a list: `Forest` over a longer list is the old union plus one branch. */
  lemma ForestSnoc(m: map<string, ClientNode>, cs: seq<string>, c: string, above: nat, bound: nat)
    ensures Forest(m, cs + [c], above, bound) == Forest(m, cs, above, bound) + Branch(m, c, above, bound)
  {
    assert (cs + [c])[..|cs|] == cs;
  }

  /** Only present tags are deleted, and only ones at least as deep as where the walk starts. */
  lemma {:induction false} SubtreeInside(m: map<string, ClientNode>, t: string, bound: nat, x: string)
    requires x in Subtree(m, t, bound)
    ensures x in m && t in m && m[t].layer <= m[x].layer
    decreases if t in m && m[t].layer <= bound then bound - m[t].layer else 0, 1
  {
    if x != t {
      ForestInside(m, m[t].children, m[t].layer, bound, x);
    }
  }

  lemma {:induction false} ForestInside(m: map<string, ClientNode>, cs: seq<string>, above: nat, bound: nat, x: string)
    requires x in Forest(m, cs, above, bound)
    ensures x in m && above < m[x].layer
    decreases if above <= bound then bound - above else 0, 0, |cs|
  {
    var c := cs[|cs| - 1];
    if x in Forest(m, cs[..|cs| - 1], above, bound) {
      ForestInside(m, cs[..|cs| - 1], above, bound, x);
    } else {
      SubtreeInside(m, c, bound, x);
    }
  }

  /** A walk's own result is closed: every deeper present child of a deleted node is deleted too. */
  lemma {:induction false} SubtreeClosed(m: map<string, ClientNode>, t: string, bound: nat)
    requires Bounded(m, bound)
    ensures Closed(m, Subtree(m, t, bound))
    decreases if t in m && m[t].layer <= bound then bound - m[t].layer else 0, 1
  {
    if t in m {
      var cs := m[t].children;
      ForestClosed(m, cs, m[t].layer, bound);
      forall c | c in cs && c in m && m[t].layer < m[c].layer
        ensures c in Subtree(m, t, bound)
      {
        ForestHasChild(m, cs, m[t].layer, bound, c);
      }
    }
  }

  lemma {:induction false} ForestClosed(m: map<string, ClientNode>, cs: seq<string>, above: nat, bound: nat)
    requires Bounded(m, bound)
    ensures Closed(m, Forest(m, cs, above, bound))
    decreases if above <= bound then bound - above else 0, 0, |cs|
  {
    if cs != [] {
      var c := cs[|cs| - 1];
      ForestClosed(m, cs[..|cs| - 1], above, bound);
      if Deeper(m, c, above, bound) {
        SubtreeClosed(m, c, bound);
      }
    }
  }

  /** A deeper child that is listed and present is deleted with its parent's forest. */
  lemma {:induction false} ForestHasChild(m: map<string, ClientNode>, cs: seq<string>, above: nat, bound: nat, c: string)
    requires Bounded(m, bound) && c in cs && c in m && above < m[c].layer
    ensures c in Forest(m, cs, above, bound)
    decreases |cs|
  {
    var last := cs[|cs| - 1];
    if c != last {
      assert c in cs[..|cs| - 1];
      ForestHasChild(m, cs[..|cs| - 1], above, bound, c);
    } else {
      assert Deeper(m, c, above, bound);
      assert c in Subtree(m, c, bound);
    }
  }

  /** Any closed set containing a present `t` contains everything deleted with it. */
  lemma {:induction false} SubtreeLeast(m: map<string, ClientNode>, t: string, bound: nat, s: set<string>)
    requires Closed(m, s) && (t in m ==> t in s)
    ensures Subtree(m, t, bound) <= s
    decreases if t in m && m[t].layer <= bound then bound - m[t].layer else 0, 1
  {
    if t in m && m[t].layer <= bound {
      ForestLeast(m, t, m[t].children, bound, s);
    }
  }

  lemma {:induction false} ForestLeast(m: map<string, ClientNode>, t: string, cs: seq<string>, bound: nat, s: set<string>)
    requires Closed(m, s) && t in s && t in m && m[t].layer <= bound
    requires forall c :: c in cs ==> c in m[t].children
    ensures Forest(m, cs, m[t].layer, bound) <= s
    decreases bound - m[t].layer, 0, |cs|
  {
    if cs != [] {
      var c := cs[|cs| - 1];
      ForestLeast(m, t, cs[..|cs| - 1], bound, s);
      if Deeper(m, c, m[t].layer, bound) {
        SubtreeLeast(m, c, bound, s);
      }
    }
  }

  /**
   * `removeNodeAndChildren(t)` deletes `t` (when present) and is closed under
   * children, and it is the smallest such set: exactly the present part of
   * the tree under `t`.
   */
  lemma DescendantsCharacterised(m: map<string, ClientNode>, t: string, s: set<string>)
    ensures t in m <==> t in Descendants(m, t)
    ensures Descendants(m, t) <= m.Keys
    ensures Closed(m, Descendants(m, t))
    ensures Closed(m, s) && (t in m ==> t in s) ==> Descendants(m, t) <= s
  {
    var b := LayerCeil(m);
    forall x | x in Descendants(m, t)
      ensures x in m
    {
      SubtreeInside(m, t, b, x);
    }
    SubtreeClosed(m, t, b);
    if Closed(m, s) && (t in m ==> t in s) {
      SubtreeLeast(m, t, b, s);
    }
  }

  /** A closed set stays closed after more tags are added that are themselves closed. */
  lemma ClosedUnion(m: map<string, ClientNode>, s1: set<string>, s2: set<string>)
    requires Closed(m, s1) && Closed(m, s2)
    ensures Closed(m, s1 + s2)
  {
  }

  /**
   * Walking the map after a closed set `s` has been deleted deletes what the
   * walk on the full map deletes, less `s`: deleting one child's subtree does
   * not disturb the walk through the next one.
   */
  lemma {:induction false} SubtreeShrink(m: map<string, ClientNode>, s: set<string>, t: string, bound: nat)
    requires Closed(m, s) && Bounded(m, bound)
    ensures Subtree(m - s, t, bound) == Subtree(m, t, bound) - s
    decreases if t in m && m[t].layer <= bound then bound - m[t].layer else 0, 1
  {
    if t in m {
      if t in s {
        SubtreeLeast(m, t, bound, s);
      } else {
        assert (m - s)[t] == m[t];
        ForestShrink(m, s, m[t].children, m[t].layer, bound);
      }
    }
  }

  lemma {:induction false} ForestShrink(m: map<string, ClientNode>, s: set<string>, cs: seq<string>, above: nat, bound: nat)
    requires Closed(m, s) && Bounded(m, bound) && above <= bound
    ensures Forest(m - s, cs, above, bound) == Forest(m, cs, above, bound) - s
    decreases bound - above, 0, |cs|
  {
    if cs != [] {
      var c := cs[|cs| - 1];
      ForestShrink(m, s, cs[..|cs| - 1], above, bound);
      assert Deeper(m - s, c, above, bound) <==> Deeper(m, c, above, bound) && c !in s;
      if Deeper(m, c, above, bound) {
        SubtreeShrink(m, s, c, bound);
        if c in s {
          SubtreeLeast(m, c, bound, s);
        }
      }
    }
  }

  // ----- the iteration order after deletions -----

  /** `order` without the tags in `s`, the rest in their old order: what `Map.prototype.delete` does to iteration. */
  function Without(order: seq<string>, s: set<string>): (r: seq<string>)
    ensures |r| <= |order|
  {
    if order == [] then []
    else
      var front := Without(order[..|order| - 1], s);
      if order[|order| - 1] in s then front else front + [order[|order| - 1]]
  }

  /** Exactly the tags of `order` outside `s` remain. */
  lemma {:induction false} WithoutMembers(order: seq<string>, s: set<string>)
    ensures forall t :: t in Without(order, s) <==> t in order && t !in s
    decreases |order|
  {
    if order != [] {
      var front := order[..|order| - 1];
      WithoutMembers(front, s);
      assert order == front + [order[|order| - 1]];
    }
  }

  /** Deleting keeps a duplicate-free order duplicate-free. */
  lemma {:induction false} WithoutDistinct(order: seq<string>, s: set<string>)
    requires Distinct(order)
    ensures Distinct(Without(order, s))
    decreases |order|
  {
    if order != [] {
      var front := order[..|order| - 1];
      WithoutDistinct(front, s);
      WithoutMembers(front, s);
      if order[|order| - 1] !in s {
        DistinctSnoc(Without(front, s), order[|order| - 1]);
      }
    }
  }

  /** Deleting `s1` and then `s2` leaves the order deleting both at once leaves. */
  lemma {:induction false} WithoutTwice(order: seq<string>, s1: set<string>, s2: set<string>)
    ensures Without(Without(order, s1), s2) == Without(order, s1 + s2)
    decreases |order|
  {
    if order != [] {
      var front := order[..|order| - 1];
      var last := order[|order| - 1];
      WithoutTwice(front, s1, s2);
      var w := Without(front, s1);
      if last !in s1 {
        assert (w + [last])[..|w|] == w;
      }
    }
  }

  /** An order none of whose tags is in `s` is unchanged. */
  lemma {:induction false} WithoutNothing(order: seq<string>, s: set<string>)
    requires forall t :: t in order ==> t !in s
    ensures Without(order, s) == order
    decreases |order|
  {
    if order != [] {
      var front := order[..|order| - 1];
      assert forall t :: t in front ==> t in order;
      WithoutNothing(front, s);
    }
  }

  /** The graph with the tags in `s` deleted from the map, the order and the outlines. */
  function Delete(g: Graph, s: set<string>): Graph
  {
    Graph(g.nodes - s, Without(g.order, s), g.outlines - s)
  }

  /** Deleting any set of tags keeps the graph well keyed, and deleting twice is deleting the union. */
  lemma DeleteKeyed(g: Graph, s: set<string>)
    requires WellKeyed(g)
    ensures WellKeyed(Delete(g, s))
  {
    var r := Delete(g, s);
    WellKeyedMeaning(g);
    WithoutMembers(g.order, s);
    WithoutDistinct(g.order, s);
    forall t | t in r.nodes
      ensures t in r.order && r.nodes[t].tag == t
    {
      assert t in g.nodes && t !in s;
    }
    WellKeyedMeaning(r);
  }

  lemma DeleteTwice(g: Graph, s: set<string>, s2: set<string>)
    ensures Delete(Delete(g, s), s2) == Delete(g, s + s2)
  {
    WithoutTwice(g.order, s, s2);
    assert g.nodes - s - s2 == g.nodes - (s + s2);
  }

  /**
   * `removeNodeAndChildren(t)` on a well-keyed graph: `t` and exactly its
   * descendants leave the map, the order and the outlines; every remaining
   * entry, the lists of children that still name a deleted tag included, is
   * kept as it was; an unknown tag changes nothing.
   */
  lemma RemoveEffect(g: Graph, t: string)
    requires WellKeyed(g)
    ensures var d := Descendants(g.nodes, t); var r := Delete(g, d);
      && WellKeyed(r)
      && t !in r.nodes
      && (forall x :: x in g.nodes ==> (x in r.nodes <==> x !in d))
      && (forall x :: x in r.nodes ==> r.nodes[x] == g.nodes[x])
      && r.outlines == g.outlines - d
      && (t !in g.nodes ==> r == g)
  {
    var d := Descendants(g.nodes, t);
    DescendantsCharacterised(g.nodes, t, {});
    DeleteKeyed(g, d);
    if t !in g.nodes {
      assert d == {} by {
        DescendantsCharacterised(g.nodes, t, {});
      }
      WithoutNothing(g.order, d);
      assert g.nodes - d == g.nodes;
      assert g.outlines - d == g.outlines;
    }
  }

  // ----- the parent chain -----

  /** Every present parent is on a shallower layer than its child. */
  predicate ParentsLayered(m: map<string, ClientNode>)
  {
    forall x :: x in m && HasParent(m[x].parent) && m[x].parent.value in m ==>
      m[m[x].parent.value].layer < m[x].layer
  }

  /**
   * `isDescendantOf(t, p)`: following `parent` links from the node stored
   * under `t` reaches a node whose parent is `p`. A link into a layer that is
   * not shallower is not followed, which keeps the definition total; under
   * `ParentsLayered` every link is followed.
   */
  predicate Descends(m: map<string, ClientNode>, t: string, p: string)
    decreases if t in m then m[t].layer + 1 else 0
  {
    t in m && HasParent(m[t].parent) &&
    (var q := m[t].parent.value;
     q == p || (q in m && m[q].layer < m[t].layer && Descends(m, q, p)))
  }

  /** A node's own parent makes it a descendant. */
  lemma DescendsParent(m: map<string, ClientNode>, t: string)
    requires t in m && HasParent(m[t].parent)
    ensures Descends(m, t, m[t].parent.value)
  {
  }

  /** A present ancestor is on a shallower layer, so nothing is its own descendant. */
  lemma {:induction false} DescendsLayer(m: map<string, ClientNode>, t: string, p: string)
    requires ParentsLayered(m) && Descends(m, t, p)
    ensures p in m ==> m[p].layer < m[t].layer
    ensures t != p
    decreases m[t].layer
  {
    var q := m[t].parent.value;
    if q != p {
      DescendsLayer(m, q, p);
    }
  }

  /** A descendant of a descendant of `p` is a descendant of `p`. */
  lemma {:induction false} DescendsTransitive(m: map<string, ClientNode>, a: string, b: string, c: string)
    requires ParentsLayered(m) && Descends(m, a, b) && Descends(m, b, c)
    ensures Descends(m, a, c)
    decreases m[a].layer
  {
    var q := m[a].parent.value;
    if q != b {
      DescendsTransitive(m, q, b, c);
    }
  }

  // ----- setChildCount -----

  /** `new Set(cs)` iterated: each tag once, at its first occurrence. */
  function Unique(cs: seq<string>): (r: seq<string>)
    ensures forall c :: c in r <==> c in cs
    ensures Distinct(r)
  {
    if cs == [] then []
    else
      var u := Unique(cs[..|cs| - 1]);
      var c := cs[|cs| - 1];
      assert forall x :: x in cs <==> x in cs[..|cs| - 1] || x == c;
      if c in u then u else DistinctSnoc(u, c); u + [c]
  }

  /** A forest holds exactly what the branches of its listed children hold. */
  lemma {:induction false} ForestMembers(m: map<string, ClientNode>, cs: seq<string>, above: nat, bound: nat)
    ensures forall x :: x in Forest(m, cs, above, bound) <==> exists c :: c in cs && x in Branch(m, c, above, bound)
    decreases |cs|
  {
    if cs != [] {
      var front, last := cs[..|cs| - 1], cs[|cs| - 1];
      ForestMembers(m, front, above, bound);
      assert Forest(m, cs, above, bound) == Forest(m, front, above, bound) + Branch(m, last, above, bound);
      forall x | x in Forest(m, cs, above, bound)
        ensures exists c :: c in cs && x in Branch(m, c, above, bound)
      {
        if x in Branch(m, last, above, bound) {
          assert last in cs;
        } else {
          assert x in Forest(m, front, above, bound);
          var c :| c in front && x in Branch(m, c, above, bound);
          assert c in cs;
        }
      }
      forall x | exists c :: c in cs && x in Branch(m, c, above, bound)
        ensures x in Forest(m, cs, above, bound)
      {
        var c :| c in cs && x in Branch(m, c, above, bound);
        if c != last {
          assert c in front;
        }
      }
    }
  }

  /** Repeated children do not change what is deleted. */
  lemma ForestUnique(m: map<string, ClientNode>, cs: seq<string>, above: nat, bound: nat)
    ensures Forest(m, Unique(cs), above, bound) == Forest(m, cs, above, bound)
  {
    ForestMembers(m, cs, above, bound);
    ForestMembers(m, Unique(cs), above, bound);
  }

  /** `parent.children = []` and the parent's outline dropped. */
  function Reset(g: Graph, p: string): Graph
    requires p in g.nodes
  {
    Graph(g.nodes[p := g.nodes[p].(children := [])], g.order, g.outlines - {p})
  }

  /**
   * The graph after `setChildCount(p, count)`: the subtrees of the parent's
   * current children are deleted, the parent is left childless without an
   * outline, and then `addChildNodes(p, count)` runs (its failure for
   * `count <= 0` is caught and leaves that state).
   */
  ghost function AfterSetChildCount(g: Graph, p: string, count: int, vertices: seq<Point>): Graph
    requires PolygonFor(count, vertices)
  {
    if p !in g.nodes then g
    else
      var par := g.nodes[p];
      var cleared := Delete(g, Forest(g.nodes, Unique(par.children), par.layer, LayerCeil(g.nodes)));
      if p in cleared.nodes then AfterAdd(Reset(cleared, p), p, count, vertices) else cleared
  }

  /** Resetting an existing key keeps the graph well keyed. */
  lemma ResetKeyed(g: Graph, p: string)
    requires WellKeyed(g) && p in g.nodes
    ensures WellKeyed(Reset(g, p))
  {
    WellKeyedKey(g, p);
    IndexedUpdate(g.order, g.nodes, g.nodes[p].(children := []));
  }

  /** Deleting the trees under the parent's children keeps the parent, and resetting it keeps the graph well keyed. */
  lemma ClearedKeyed(g: Graph, p: string)
    requires WellKeyed(g) && p in g.nodes
    ensures var par := g.nodes[p];
      var cleared := Delete(g, Forest(g.nodes, Unique(par.children), par.layer, LayerCeil(g.nodes)));
      p in cleared.nodes && WellKeyed(Reset(cleared, p))
  {
    var par := g.nodes[p];
    var f := Forest(g.nodes, Unique(par.children), par.layer, LayerCeil(g.nodes));
    ChildForest(g.nodes, p);
    DeleteKeyed(g, f);
    ResetKeyed(Delete(g, f), p);
  }

  /** The tags deleted with the parent's children are the parent's descendants other than itself. */
  lemma ChildForest(m: map<string, ClientNode>, p: string)
    requires p in m
    ensures var b := LayerCeil(m);
      && Forest(m, Unique(m[p].children), m[p].layer, b) == Descendants(m, p) - {p}
      && p !in Forest(m, Unique(m[p].children), m[p].layer, b)
  {
    var b := LayerCeil(m);
    var f := Forest(m, m[p].children, m[p].layer, b);
    ForestUnique(m, m[p].children, m[p].layer, b);
    if p in f {
      ForestInside(m, m[p].children, m[p].layer, b, p);
    }
  }

  /**
   * On a present parent, `setChildCount(p, count)` leaves the map well keyed
   * and the parent in place: for `count > 0` its children are exactly
   * `p-1` … `p-count` and it owns an outline; otherwise it has no children
   * and no outline.
   */
  lemma SetChildCountParent(g: Graph, p: string, count: int, vertices: seq<Point>)
    requires WellKeyed(g) && p in g.nodes && PolygonFor(count, vertices)
    ensures var r := AfterSetChildCount(g, p, count, vertices);
      && WellKeyed(r) && p in r.nodes
      && (count > 0 ==> r.nodes[p] == g.nodes[p].(children := ChildTags(p, count)) && p in r.outlines)
      && (count <= 0 ==> r.nodes[p] == g.nodes[p].(children := []) && p !in r.outlines)
  {
    var par := g.nodes[p];
    var cleared := Delete(g, Forest(g.nodes, Unique(par.children), par.layer, LayerCeil(g.nodes)));
    ClearedParent(g, p);
    if count > 0 {
      AddKeepsParent(Reset(cleared, p), p, count, vertices);
    }
  }

  /** An old descendant of the parent that is not one of the new children is gone. */
  lemma SetChildCountGone(g: Graph, p: string, count: int, vertices: seq<Point>, t: string)
    requires WellKeyed(g) && p in g.nodes && PolygonFor(count, vertices)
    requires t in Descendants(g.nodes, p) && t != p && t !in ChildTags(p, |vertices|)
    ensures t !in AfterSetChildCount(g, p, count, vertices).nodes
  {
    var par := g.nodes[p];
    var f := Forest(g.nodes, Unique(par.children), par.layer, LayerCeil(g.nodes));
    ChildForest(g.nodes, p);
    var cleared := Delete(g, f);
    ClearedKeyed(g, p);
    if count > 0 {
      AddChildrenEffect(Reset(cleared, p), p, count, vertices);
    }
  }

  /** After the clearing half of `setChildCount`, the parent is present, childless and without an outline. */
  lemma ClearedParent(g: Graph, p: string)
    requires WellKeyed(g) && p in g.nodes
    ensures var par := g.nodes[p];
      var cleared := Delete(g, Forest(g.nodes, Unique(par.children), par.layer, LayerCeil(g.nodes)));
      && p in cleared.nodes && WellKeyed(Reset(cleared, p))
      && Reset(cleared, p).nodes[p] == par.(children := []) && p !in Reset(cleared, p).outlines
  {
    ClearedKeyed(g, p);
  }

  /** What `addChildNodes` does to a present parent: its children are extended and it owns an outline. */
  lemma AddKeepsParent(g: Graph, p: string, count: int, vertices: seq<Point>)
    requires WellKeyed(g) && p in g.nodes && count > 0 && PolygonFor(count, vertices)
    ensures var r := AfterAdd(g, p, count, vertices);
      && WellKeyed(r) && p in r.nodes && p in r.outlines
      && r.nodes[p] == g.nodes[p].(children := g.nodes[p].children + ChildTags(p, count))
  {
    AddChildrenEffect(g, p, count, vertices);
  }

  /** A node outside the parent's old subtree that is not a new child is kept as it was. */
  lemma SetChildCountKept(g: Graph, p: string, count: int, vertices: seq<Point>, t: string)
    requires WellKeyed(g) && p in g.nodes && PolygonFor(count, vertices)
    requires t !in ChildTags(p, |vertices|) && t in g.nodes && t !in Descendants(g.nodes, p)
    ensures var r := AfterSetChildCount(g, p, count, vertices);
      t in r.nodes && r.nodes[t] == g.nodes[t]
  {
    var par := g.nodes[p];
    var f := Forest(g.nodes, Unique(par.children), par.layer, LayerCeil(g.nodes));
    ChildForest(g.nodes, p);
    DescendantsCharacterised(g.nodes, p, {});
    var cleared := Delete(g, f);
    DeleteKeyed(g, f);
    ResetKeyed(cleared, p);
    if count > 0 {
      AddChildrenEffect(Reset(cleared, p), p, count, vertices);
    }
  }

  // ----- the shape the operations keep -----

  /** The shape both programs build: every listed child is named under its lister, and a present one sits deeper. */
  predicate TreeShaped(m: map<string, ClientNode>)
  {
    Layered(m) && ChildrenNamed(m)
  }

  /** Deleting any set of tags keeps the shape. */
  lemma DeleteShaped(g: Graph, s: set<string>)
    requires TreeShaped(g.nodes)
    ensures TreeShaped(Delete(g, s).nodes)
  {
    SubMapKeeps(Delete(g, s).nodes, g.nodes, LayerCeil(g.nodes));
  }

  /** Emptying a node's list of children keeps the shape. */
  lemma ResetShaped(g: Graph, p: string)
    requires TreeShaped(g.nodes) && p in g.nodes
    ensures TreeShaped(Reset(g, p).nodes)
  {
  }

  /**
   * A record `createNodeFromData` can store without breaking the shape: its
   * children are named under it and sit deeper, and a node that lists it
   * sits shallower.
   */
  predicate FitsShape(m: map<string, ClientNode>, d: NodeData)
  {
    && (forall c :: c in d.children ==> NamedUnder(c, d.tag) && (c in m ==> d.layer < m[c].layer))
    && (forall x :: x in m && x != d.tag && d.tag in m[x].children ==> m[x].layer < d.layer)
  }

  /** Storing a fitting record keeps the shape. */
  lemma CreateShaped(g: Graph, d: NodeData)
    requires TreeShaped(g.nodes) && FitsShape(g.nodes, d)
    ensures TreeShaped(CreateIn(g, d).nodes)
  {
    var r := CreateIn(g, d).nodes;
    forall x, c | x in r && c in r[x].children
      ensures NamedUnder(c, x) && (c in r ==> r[x].layer < r[c].layer)
    {
      if x == d.tag {
        assert c in d.children;
        assert c != d.tag;
      }
    }
  }

  /**
   * `addChildNodes` keeps the shape. Only the parent lists the new tags,
   * because a tag is named under one node alone, so overwriting an old node
   * stored under one of them breaks no other edge.
   */
  lemma AddShaped(g: Graph, p: string, count: int, vertices: seq<Point>)
    requires WellKeyed(g) && PolygonFor(count, vertices) && TreeShaped(g.nodes)
    ensures TreeShaped(AfterAdd(g, p, count, vertices).nodes)
  {
    if p in g.nodes && count > 0 {
      var r := AfterAdd(g, p, count, vertices).nodes;
      forall x, c | x in r && c in r[x].children
        ensures NamedUnder(c, x) && (c in r ==> r[x].layer < r[c].layer)
      {
        KidEdge(g, p, count, vertices, x, c);
      }
    }
  }

  /** One edge of the map `addChildNodes` leaves. */
  lemma KidEdge(g: Graph, p: string, count: int, vertices: seq<Point>, x: string, c: string)
    requires WellKeyed(g) && PolygonFor(count, vertices) && TreeShaped(g.nodes) && p in g.nodes && count > 0
    requires var r := AfterAdd(g, p, count, vertices).nodes; x in r && c in r[x].children
    ensures var r := AfterAdd(g, p, count, vertices).nodes;
      NamedUnder(c, x) && (c in r ==> r[x].layer < r[c].layer)
  {
    AddChildrenEffect(g, p, count, vertices);
    var r := AfterAdd(g, p, count, vertices).nodes;
    var kids := ChildTags(p, count);
    forall t | t in kids
      ensures t in r && r[t].children == [] && r[t].layer == g.nodes[p].layer + 1
    {
      var i :| 0 <= i < count && kids[i] == t;
    }
    ChildTagsNamed(p, count);
    KidEdgeFrom(g.nodes, r, p, kids, x, c);
  }

  /**
   * The same edge, by where its ends come from, in any map that adds
   * childless nodes `kids` one layer below `p` and appends them to its
   * children.
   */
  lemma KidEdgeFrom(m: map<string, ClientNode>, r: map<string, ClientNode>, p: string, kids: seq<string>,
                    x: string, c: string)
    requires TreeShaped(m) && p in m && p in r
    requires forall k :: 0 <= k < |kids| ==> NamedUnder(kids[k], p)
    requires forall t :: t in r ==> t in m || t in kids
    requires r[p].children == m[p].children + kids && r[p].layer == m[p].layer
    requires forall t :: t in kids ==> t in r && r[t].children == [] && r[t].layer == m[p].layer + 1
    requires forall t :: t in m && t != p && t !in kids ==> t in r && r[t] == m[t]
    requires x in r && c in r[x].children
    ensures NamedUnder(c, x) && (c in r ==> r[x].layer < r[c].layer)
  {
    if x !in kids {
      if x == p {
        if c !in kids {
          assert c in m[p].children;
        }
      } else {
        assert c in m[x].children;
        if c in kids {
          NamedUnique(c, x, p);
        }
      }
    }
  }

  /** `setChildCount` keeps the shape: clearing and resetting do, and so does the `addChildNodes` after them. */
  lemma SetChildCountShaped(g: Graph, p: string, count: int, vertices: seq<Point>)
    requires WellKeyed(g) && PolygonFor(count, vertices) && TreeShaped(g.nodes)
    ensures TreeShaped(AfterSetChildCount(g, p, count, vertices).nodes)
  {
    if p in g.nodes {
      var par := g.nodes[p];
      var cleared := Delete(g, Forest(g.nodes, Unique(par.children), par.layer, LayerCeil(g.nodes)));
      DeleteShaped(g, Forest(g.nodes, Unique(par.children), par.layer, LayerCeil(g.nodes)));
      if p in cleared.nodes {
        ClearedKeyed(g, p);
        ResetShaped(cleared, p);
        AddShaped(Reset(cleared, p), p, count, vertices);
      }
    }
  }
}
