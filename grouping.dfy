/**
 * The greedy grouping behind clustering (`groupNearbyNodes`) and the
 * centroid of a cluster (`createCluster`).
 *
 * Grouping walks the items in order. Each item whose tag has not been
 * processed yet becomes a seed; a second pass over all items collects, in
 * order, every item not yet processed that lies within distance 2 of the
 * seed, marking each as processed as it is taken. Distances are compared
 * squared (`DistSq <= 4`), which is the same test as `distanceTo <= 2`.
 */
module Clustering {
  import opened Planar
  import opened QuadTreeIndex

  /** The clustering radius, squared. */
  const RadiusSq: real := 4.0

  predicate Near(center: Point, p: Point)
  {
    DistSq(center, p) <= RadiusSq
  }

  /** The state of the inner pass: the group so far and the tags processed so far. */
  datatype Gathered = Gathered(group: seq<Item>, processed: set<string>)

  /** The inner pass around `center` after it has looked at `items`, starting from `processed`. */
  function Gather(center: Point, items: seq<Item>, processed: set<string>): Gathered
    decreases |items|
  {
    if items == [] then Gathered([], processed)
    else
      var g := Gather(center, items[..|items| - 1], processed);
      var x := items[|items| - 1];
      if x.tag !in g.processed && Near(center, x.position) then Gathered(g.group + [x], g.processed + {x.tag})
      else g
  }

  /** The state of the outer pass: the groups so far, the tags processed, and the index of each group's seed. */
  datatype Grouped = Grouped(groups: seq<seq<Item>>, processed: set<string>, seeds: seq<nat>)

  /** The outer pass after it has looked at the first `n` items. */
  function GroupPrefix(items: seq<Item>, n: nat): Grouped
    requires n <= |items|
  {
    if n == 0 then Grouped([], {}, [])
    else
      var s := GroupPrefix(items, n - 1);
      var seed := items[n - 1];
      if seed.tag in s.processed then s
      else
        var g := Gather(seed.position, items, s.processed);
        if |g.group| > 0 then Grouped(s.groups + [g.group], g.processed, s.seeds + [n - 1])
        else Grouped(s.groups, g.processed, s.seeds)
  }

  function Grouping(items: seq<Item>): seq<seq<Item>>
  {
    GroupPrefix(items, |items|).groups
  }

  /** `groupNearbyNodes`: the two nested loops over the items, with the `processed` set. */
  method GroupNearbyNodes(items: seq<Item>) returns (groups: seq<seq<Item>>)
    ensures groups == Grouping(items)
  {
    groups := [];
    var processed: set<string> := {};
    var i := 0;
    while i < |items|
      invariant 0 <= i <= |items|
      invariant groups == GroupPrefix(items, i).groups && processed == GroupPrefix(items, i).processed
    {
      var seed := items[i];
      if seed.tag !in processed {
        ghost var before := processed;
        var group: seq<Item> := [];
        var j := 0;
        while j < |items|
          invariant 0 <= j <= |items|
          invariant Gather(seed.position, items[..j], before) == Gathered(group, processed)
        {
          var other := items[j];
          assert items[..j + 1][..j] == items[..j];
          if other.tag !in processed && Near(seed.position, other.position) {
            group := group + [other];
            processed := processed + {other.tag};
          }
          j := j + 1;
        }
        assert items[..|items|] == items;
        if |group| > 0 {
          groups := groups + [group];
        }
      }
      i := i + 1;
    }
  }

  // ----- Reference definitions -----

  function Tags(s: seq<Item>): set<string>
  {
    set x | x in s :: x.tag
  }

  predicate DistinctTags(s: seq<Item>)
  {
    forall i, j :: 0 <= i < j < |s| ==> s[i].tag != s[j].tag
  }

  /** The groups laid end to end. */
  function Flatten(gs: seq<seq<Item>>): seq<Item>
  {
    if gs == [] then [] else Flatten(gs[..|gs| - 1]) + gs[|gs| - 1]
  }

  /** The items, in order, whose tag is not in `taken` and that lie near `center`. */
  function Select(items: seq<Item>, taken: set<string>, center: Point): seq<Item>
  {
    if items == [] then []
    else
      var x := items[|items| - 1];
      Select(items[..|items| - 1], taken, center) + (if x.tag !in taken && Near(center, x.position) then [x] else [])
  }

  // ----- The inner pass -----

  lemma TagsSnoc(s: seq<Item>, x: Item)
    ensures Tags(s + [x]) == Tags(s) + {x.tag}
  {
    assert forall y :: y in s + [x] <==> y in s || y == x;
  }

  /** The inner pass marks exactly the tags it takes, none of which was processed before. */
  lemma {:induction false} GatherMarks(c: Point, s: seq<Item>, P: set<string>)
    ensures var g := Gather(c, s, P); g.processed == P + Tags(g.group) && Tags(g.group) !! P
    decreases |s|
  {
    if s != [] {
      var g' := Gather(c, s[..|s| - 1], P);
      GatherMarks(c, s[..|s| - 1], P);
      TagsSnoc(g'.group, s[|s| - 1]);
    }
  }

  /** The inner pass takes at most one item per tag. */
  lemma {:induction false} GatherDistinct(c: Point, s: seq<Item>, P: set<string>)
    ensures DistinctTags(Gather(c, s, P).group)
    decreases |s|
  {
    if s != [] {
      var x := s[|s| - 1];
      var g' := Gather(c, s[..|s| - 1], P);
      GatherDistinct(c, s[..|s| - 1], P);
      GatherMarks(c, s[..|s| - 1], P);
      if x.tag !in g'.processed && Near(c, x.position) {
        var grp := g'.group + [x];
        forall i, j | 0 <= i < j < |grp|
          ensures grp[i].tag != grp[j].tag
        {
          if j == |grp| - 1 {
            assert grp[i] in g'.group;
          }
        }
      }
    }
  }

  /** The inner pass takes only input items that lie near the centre. */
  lemma {:induction false} GatherMembers(c: Point, s: seq<Item>, P: set<string>)
    ensures forall x :: x in Gather(c, s, P).group ==> x in s && Near(c, x.position)
    decreases |s|
  {
    if s != [] {
      var s' := s[..|s| - 1];
      GatherMembers(c, s', P);
      assert forall x :: x in s' ==> x in s;
    }
  }

  /** After the inner pass no item near the centre is left unprocessed, and nothing processed before is forgotten. */
  lemma {:induction false} GatherComplete(c: Point, s: seq<Item>, P: set<string>)
    ensures P <= Gather(c, s, P).processed
    ensures forall x :: x in s && Near(c, x.position) ==> x.tag in Gather(c, s, P).processed
    decreases |s|
  {
    if s != [] {
      var s' := s[..|s| - 1];
      GatherComplete(c, s', P);
      assert s == s' + [s[|s| - 1]];
    }
  }

  /** The inner pass takes nothing while every item it meets is already processed. */
  lemma {:induction false} GatherUntouched(c: Point, s: seq<Item>, P: set<string>, m: nat)
    requires m <= |s| && forall k :: 0 <= k < m ==> s[k].tag in P
    ensures Gather(c, s[..m], P) == Gathered([], P)
    decreases m
  {
    if m > 0 {
      assert s[..m][..m - 1] == s[..m - 1];
      GatherUntouched(c, s, P, m - 1);
    }
  }

  /** The first unprocessed item near the centre is the first item taken, and it stays first. */
  lemma {:induction false} GatherKeepsFirst(c: Point, s: seq<Item>, P: set<string>, i: nat, m: nat)
    requires i < m <= |s|
    requires forall k :: 0 <= k < i ==> s[k].tag in P
    requires s[i].tag !in P && Near(c, s[i].position)
    ensures var g := Gather(c, s[..m], P); g.group != [] && g.group[0] == s[i]
    decreases m
  {
    assert s[..m][..m - 1] == s[..m - 1];
    if m == i + 1 {
      GatherUntouched(c, s, P, i);
    } else {
      GatherKeepsFirst(c, s, P, i, m - 1);
    }
  }

  /** With distinct tags the inner pass is a plain selection: the unprocessed nearby items, in input order. */
  lemma {:induction false} GatherSelects(c: Point, s: seq<Item>, P: set<string>)
    requires DistinctTags(s)
    ensures Gather(c, s, P).group == Select(s, P, c)
    decreases |s|
  {
    if s != [] {
      var s', x := s[..|s| - 1], s[|s| - 1];
      GatherSelects(c, s', P);
      GatherMarks(c, s', P);
      GatherMembers(c, s', P);
      var g' := Gather(c, s', P);
      forall y | y in g'.group
        ensures y.tag != x.tag
      {
        var k :| 0 <= k < |s'| && s'[k] == y;
        assert s[k] == y;
      }
      assert x.tag !in Tags(g'.group);
    }
  }

  // ----- The outer pass -----

  lemma FlattenSnoc(gs: seq<seq<Item>>, g: seq<Item>)
    ensures Flatten(gs + [g]) == Flatten(gs) + g
  {
    assert (gs + [g])[..|gs|] == gs;
  }

  lemma DistinctTagsAppend(a: seq<Item>, b: seq<Item>)
    requires DistinctTags(a) && DistinctTags(b) && Tags(a) !! Tags(b)
    ensures DistinctTags(a + b)
  {
    var ab := a + b;
    forall i, j | 0 <= i < j < |ab|
      ensures ab[i].tag != ab[j].tag
    {
      if i < |a| && j >= |a| {
        assert ab[i] == a[i] && ab[i].tag in Tags(a);
        assert ab[j] == b[j - |a|] && ab[j].tag in Tags(b);
      } else if i >= |a| {
        assert ab[i] == b[i - |a|] && ab[j] == b[j - |a|];
      }
    }
  }

  /** After `n` items of the outer pass the processed tags are exactly the grouped tags, none grouped twice. */
  lemma {:induction false} GroupPrefixTags(items: seq<Item>, n: nat)
    requires n <= |items|
    ensures var r := GroupPrefix(items, n);
      r.processed == Tags(Flatten(r.groups)) && DistinctTags(Flatten(r.groups))
    decreases n
  {
    if n > 0 {
      GroupPrefixTags(items, n - 1);
      var s := GroupPrefix(items, n - 1);
      var seed := items[n - 1];
      if seed.tag !in s.processed {
        var g := Gather(seed.position, items, s.processed);
        GatherMarks(seed.position, items, s.processed);
        if |g.group| > 0 {
          GatherDistinct(seed.position, items, s.processed);
          FlattenSnoc(s.groups, g.group);
          AppendGroup(Flatten(s.groups), g.group);
        } else {
          assert Tags(g.group) == {};
        }
      }
    }
  }

  lemma TagsAppend(a: seq<Item>, b: seq<Item>)
    ensures Tags(a + b) == Tags(a) + Tags(b)
  {
    assert forall y :: y in a + b <==> y in a || y in b;
  }

  /** Appending a tag-distinct group whose tags are all new keeps the tags distinct. */
  lemma AppendGroup(f: seq<Item>, g: seq<Item>)
    requires DistinctTags(f) && DistinctTags(g) && Tags(g) !! Tags(f)
    ensures DistinctTags(f + g) && Tags(f + g) == Tags(f) + Tags(g)
  {
    DistinctTagsAppend(f, g);
    TagsAppend(f, g);
  }

  /** Every grouped item is an input item. */
  lemma {:induction false} GroupPrefixMembers(items: seq<Item>, n: nat)
    requires n <= |items|
    ensures forall x :: x in Flatten(GroupPrefix(items, n).groups) ==> x in items
    decreases n
  {
    if n > 0 {
      GroupPrefixMembers(items, n - 1);
      var s := GroupPrefix(items, n - 1);
      var seed := items[n - 1];
      if seed.tag !in s.processed {
        var g := Gather(seed.position, items, s.processed);
        GatherMembers(seed.position, items, s.processed);
        if |g.group| > 0 {
          FlattenSnoc(s.groups, g.group);
        }
      }
    }
  }

  /** Every item the outer pass has looked at is processed. */
  lemma {:induction false} GroupPrefixProcessed(items: seq<Item>, n: nat)
    requires n <= |items|
    ensures forall k :: 0 <= k < n ==> items[k].tag in GroupPrefix(items, n).processed
    decreases n
  {
    if n > 0 {
      GroupPrefixProcessed(items, n - 1);
      var s := GroupPrefix(items, n - 1);
      var seed := items[n - 1];
      if seed.tag !in s.processed {
        GatherComplete(seed.position, items, s.processed);
        assert DistSq(seed.position, seed.position) == 0.0;
        assert seed in items;
      }
    }
  }

  /** The seed indices: one per group, below `n`, strictly increasing. */
  lemma {:induction false} GroupPrefixSeedOrder(items: seq<Item>, n: nat)
    requires n <= |items|
    ensures var r := GroupPrefix(items, n);
      && |r.seeds| == |r.groups|
      && (forall k :: 0 <= k < |r.seeds| ==> r.seeds[k] < n)
      && forall k, l :: 0 <= k < l < |r.seeds| ==> r.seeds[k] < r.seeds[l]
    decreases n
  {
    if n > 0 {
      GroupPrefixSeedOrder(items, n - 1);
    }
  }

  /** Every group is non-empty and begins with its seed. */
  lemma {:induction false} GroupPrefixStartsWithSeed(items: seq<Item>, n: nat)
    requires n <= |items|
    ensures var r := GroupPrefix(items, n);
      forall k :: 0 <= k < |r.groups| ==>
        (k < |r.seeds| && r.seeds[k] < |items| && r.groups[k] != [] && r.groups[k][0] == items[r.seeds[k]])
    decreases n
  {
    if n > 0 {
      GroupPrefixStartsWithSeed(items, n - 1);
      GroupPrefixSeedOrder(items, n - 1);
      var s := GroupPrefix(items, n - 1);
      var seed := items[n - 1];
      if seed.tag !in s.processed {
        GroupPrefixProcessed(items, n - 1);
        assert DistSq(seed.position, seed.position) == 0.0;
        GatherKeepsFirst(seed.position, items, s.processed, n - 1, |items|);
        assert items[..|items|] == items;
      }
    }
  }

  /** Every member of `g` lies within the radius of its first item. */
  predicate NearFirst(g: seq<Item>)
  {
    g != [] ==> forall x :: x in g ==> Near(g[0].position, x.position)
  }

  /** Every member of a group lies within the radius of the group's first item. */
  lemma {:induction false} GroupPrefixNear(items: seq<Item>, n: nat, k: nat)
    requires n <= |items| && k < |GroupPrefix(items, n).groups|
    ensures NearFirst(GroupPrefix(items, n).groups[k])
    decreases n
  {
    var s := GroupPrefix(items, n - 1);
    var gs := GroupPrefix(items, n).groups;
    GroupPrefixExtends(items, n - 1, n);
    if k < |s.groups| {
      GroupPrefixNear(items, n - 1, k);
      assert gs[..|s.groups|] == s.groups;
      assert gs[k] == s.groups[k];
    } else {
      var seed := items[n - 1];
      var g := Gather(seed.position, items, s.processed);
      assert gs == s.groups + [g.group];
      assert gs[k] == g.group;
      GroupPrefixProcessed(items, n - 1);
      assert DistSq(seed.position, seed.position) == 0.0;
      GatherKeepsFirst(seed.position, items, s.processed, n - 1, |items|);
      assert items[..|items|] == items;
      GatherMembers(seed.position, items, s.processed);
    }
  }

  /**
   * Every group is non-empty and begins with its seed, the seeds appear in
   * input order, and every member lies within the radius of its seed.
   */
  lemma GroupingSeeds(items: seq<Item>)
    ensures var r := GroupPrefix(items, |items|);
      && r.groups == Grouping(items)
      && |r.seeds| == |r.groups|
      && (forall k, l :: 0 <= k < l < |r.seeds| ==> r.seeds[k] < r.seeds[l])
      && (forall k :: 0 <= k < |r.groups| ==>
            && r.seeds[k] < |items| && r.groups[k] != [] && r.groups[k][0] == items[r.seeds[k]]
            && NearFirst(r.groups[k]))
  {
    GroupPrefixSeedOrder(items, |items|);
    GroupPrefixStartsWithSeed(items, |items|);
    forall k | 0 <= k < |Grouping(items)|
      ensures NearFirst(Grouping(items)[k])
    {
      GroupPrefixNear(items, |items|, k);
    }
  }

  /** Groups are only ever appended: the groups after `n` items begin with the groups after `m <= n` items. */
  lemma {:induction false} GroupPrefixExtends(items: seq<Item>, m: nat, n: nat)
    requires m <= n <= |items|
    ensures var a, b := GroupPrefix(items, m).groups, GroupPrefix(items, n).groups;
      |a| <= |b| && b[..|a|] == a
    decreases n
  {
    if m < n {
      GroupPrefixExtends(items, m, n - 1);
      var a, b' := GroupPrefix(items, m).groups, GroupPrefix(items, n - 1).groups;
      var b := GroupPrefix(items, n).groups;
      assert b == b' || b == b' + [b[|b| - 1]];
      assert b[..|b'|] == b';
      assert b[..|a|] == b'[..|a|];
    }
  }

  /** Every item lands in exactly one group. */
  lemma GroupingPartition(items: seq<Item>)
    requires DistinctTags(items)
    ensures multiset(Flatten(Grouping(items))) == multiset(items)
    ensures forall x :: x in items ==> multiset(Flatten(Grouping(items)))[x] == 1
  {
    var f := Flatten(Grouping(items));
    assert DistinctTags(f) && Tags(f) == GroupPrefix(items, |items|).processed by {
      GroupPrefixTags(items, |items|);
    }
    assert forall x :: x in f ==> x in items by {
      GroupPrefixMembers(items, |items|);
    }
    forall x | x in items
      ensures x in f
    {
      var i :| 0 <= i < |items| && items[i] == x;
      assert x.tag in Tags(f) by {
        GroupPrefixProcessed(items, |items|);
      }
      var y :| y in f && y.tag == x.tag;
      var j :| 0 <= j < |items| && items[j] == y;
      assert i == j;
    }
    SameElements(f, items);
    DistinctCount(items);
  }

  /** Two tag-distinct sequences with the same elements are permutations of each other. */
  lemma SameElements(a: seq<Item>, b: seq<Item>)
    requires DistinctTags(a) && DistinctTags(b) && forall x :: x in a <==> x in b
    ensures multiset(a) == multiset(b)
  {
    DistinctCount(a);
    DistinctCount(b);
    assert forall x :: multiset(a)[x] == multiset(b)[x];
  }

  /** In a sequence with distinct tags every element occurs once. */
  lemma {:induction false} DistinctCount(s: seq<Item>)
    requires DistinctTags(s)
    ensures forall x :: multiset(s)[x] == if x in s then 1 else 0
    decreases |s|
  {
    if s != [] {
      var s', y := s[..|s| - 1], s[|s| - 1];
      assert s == s' + [y];
      DistinctCount(s');
      forall k | 0 <= k < |s'|
        ensures s'[k] != y
      {
        assert s[k] == s'[k];
      }
    }
  }

  /**
   * Each group is the selection, in input order, of the items near its seed
   * whose tags no earlier group took.
   */
  lemma GroupingSelects(items: seq<Item>, k: nat)
    requires DistinctTags(items) && k < |Grouping(items)|
    ensures var gs := Grouping(items);
      gs[k] != [] && gs[k] == Select(items, Tags(Flatten(gs[..k])), gs[k][0].position)
  {
    GroupFormed(items, |items|, k);
  }

  lemma {:induction false} GroupFormed(items: seq<Item>, n: nat, k: nat)
    requires DistinctTags(items) && n <= |items| && k < |GroupPrefix(items, n).groups|
    ensures var gs := GroupPrefix(items, n).groups;
      gs[k] != [] && gs[k] == Select(items, Tags(Flatten(gs[..k])), gs[k][0].position)
    decreases n
  {
    var s := GroupPrefix(items, n - 1);
    var gs := GroupPrefix(items, n).groups;
    GroupPrefixExtends(items, n - 1, n);
    if k < |s.groups| {
      GroupFormed(items, n - 1, k);
      assert gs[..k] == s.groups[..k];
    } else {
      var seed := items[n - 1];
      var g := Gather(seed.position, items, s.processed);
      assert k == |s.groups| && gs == s.groups + [g.group];
      assert gs[..k] == s.groups && gs[k] == g.group;
      GroupPrefixTags(items, n - 1);
      GroupPrefixProcessed(items, n - 1);
      assert DistSq(seed.position, seed.position) == 0.0;
      GatherKeepsFirst(seed.position, items, s.processed, n - 1, |items|);
      assert items[..|items|] == items;
      GatherSelects(seed.position, items, s.processed);
    }
  }

  // ----- Centroid -----

  function SumX(ps: seq<Point>): real
  {
    if ps == [] then 0.0 else SumX(ps[..|ps| - 1]) + ps[|ps| - 1].x
  }

  function SumY(ps: seq<Point>): real
  {
    if ps == [] then 0.0 else SumY(ps[..|ps| - 1]) + ps[|ps| - 1].y
  }

  /** The arithmetic mean of the positions. */
  function Centroid(ps: seq<Point>): Point
    requires ps != []
  {
    Point(SumX(ps) / |ps| as real, SumY(ps) / |ps| as real)
  }

  /** One more value within `[lo, hi]` keeps a sum of `n - 1` such values within the bounds for `n`. */
  lemma AddBounds(n: real, lo: real, hi: real, s: real, v: real)
    requires (n - 1.0) * lo <= s <= (n - 1.0) * hi && lo <= v <= hi
    ensures n * lo <= s + v <= n * hi
  {
    assert (n - 1.0) * lo + lo == n * lo;
    assert (n - 1.0) * hi + hi == n * hi;
  }

  lemma {:induction false} SumXBounds(ps: seq<Point>, lo: real, hi: real)
    requires forall i :: 0 <= i < |ps| ==> lo <= ps[i].x <= hi
    ensures |ps| as real * lo <= SumX(ps) <= |ps| as real * hi
    decreases |ps|
  {
    if ps != [] {
      var ps' := ps[..|ps| - 1];
      SumXBounds(ps', lo, hi);
      AddBounds(|ps| as real, lo, hi, SumX(ps'), ps[|ps| - 1].x);
    }
  }

  lemma {:induction false} SumYBounds(ps: seq<Point>, lo: real, hi: real)
    requires forall i :: 0 <= i < |ps| ==> lo <= ps[i].y <= hi
    ensures |ps| as real * lo <= SumY(ps) <= |ps| as real * hi
    decreases |ps|
  {
    if ps != [] {
      var ps' := ps[..|ps| - 1];
      SumYBounds(ps', lo, hi);
      AddBounds(|ps| as real, lo, hi, SumY(ps'), ps[|ps| - 1].y);
    }
  }

  lemma DivideBounds(lo: real, s: real, hi: real, n: real)
    requires n > 0.0 && n * lo <= s <= n * hi
    ensures lo <= s / n <= hi
  {
    assert s / n - lo == (s - n * lo) / n;
    assert hi - s / n == (n * hi - s) / n;
  }

  /** The centroid lies in every box that holds all the points. */
  lemma CentroidInBox(ps: seq<Point>, b: Box)
    requires ps != [] && forall i :: 0 <= i < |ps| ==> ContainsPoint(b, ps[i])
    ensures ContainsPoint(b, Centroid(ps))
  {
    var n, sx, sy := |ps| as real, SumX(ps), SumY(ps);
    assert b.min.x <= sx / n <= b.max.x by {
      SumXBounds(ps, b.min.x, b.max.x);
      DivideBounds(b.min.x, sx, b.max.x, n);
    }
    assert b.min.y <= sy / n <= b.max.y by {
      SumYBounds(ps, b.min.y, b.max.y);
      DivideBounds(b.min.y, sy, b.max.y, n);
    }
    assert Centroid(ps) == Point(sx / n, sy / n);
  }

  /** The centroid of copies of one point is that point. */
  lemma CentroidOfCopies(ps: seq<Point>, p: Point)
    requires ps != [] && forall i :: 0 <= i < |ps| ==> ps[i] == p
    ensures Centroid(ps) == p
  {
    CentroidInBox(ps, Box(p, p));
  }
}
