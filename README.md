# VSM network explorer — a verified model of its core

The program draws a Viable System Model network in the browser. Nodes sit on
a plane. Each node can be given a ring of children on the vertices of a
regular polygon, and each child can be given children in turn. A small
Flask server keeps its own copy of the tree. Two parts carry the logic:

- the browser client (`js/VSMNetwork.js`, `js/QuadTree.js`):
  - keeps the nodes in a JavaScript `Map`;
  - indexes their positions in a point quadtree;
  - picks a level of detail from the camera's height;
  - far away, it folds crowded groups of nodes into cluster spheres;
  - close up, it shows or hides each node by viewport and distance;
  - it adds, searches and removes subtrees;
- the server (`server.py`):
  - a `NodeManager` seeded with node `0/0/1`;
  - it adds numbered children and serialises nodes to dictionaries;
  - its routes translate `|` back into `/` in tags.

The Dafny project models that core module by module:

| module | file | models |
|---|---|---|
| `Wrappers` | wrappers.dfy | `Option` |
| `Planar` | planar.dfy | the three.js `Vector2`/`Box2` pieces used: closed containment, box intersection, squared distance |
| `Text` | text.dfy | decimal rendering of a counter, ASCII lower-casing, substring search, character replacement |
| `NodeStyle` | style.dfy | `getEdgeLength`, `getNodeSize`, `getNodeColor` |
| `Viewport` | viewport.dfy | the level-of-detail thresholds and `getViewportBounds` |
| `QuadTreeIndex` | quadtree.dfy | `QuadTree`: constructor, `subdivide`, `insert`, `insertToChildren`, `query`, `clear` |
| `Clustering` | grouping.dfy | `groupNearbyNodes` (a method with the source's two nested loops) and the centroid of `createCluster` |
| `NodeTree` | nodetree.dfy | the client node map and its iteration order, `createNodeFromData`, `addChildNodes`, `searchNodes` |
| `Hierarchy` | hierarchy.dfy | `removeNodeAndChildren`, `setChildCount`, `isDescendantOf` |
| `Detail` | detail.dfy | `updateQuadtree`, `applyClustering`, `showSimplifiedNodes`, `showFullDetail`, `applyLOD`, `updateLOD`, `updateVisibleNodes`, `updateNodeVisibility` as functions on a `Scene` |
| `Network` | network.dfy | class `VSMNetwork`: the client object, with fields updated in place by methods proved against the functions above |
| `Server` | server.dfy | `Node`, `to_dict`, class `NodeManager`, and the three routes |

Client state:

- `Network.VSMNetwork` holds the client's state as fields:
  - `nodes` (the `Map`);
  - `order` (the `Map`'s insertion order, which is the order `forEach` visits);
  - `outlines`, `visibleNodes`, `clusters`, `currentLOD`, `quadtree`.
- Each method either:
  - states its new state as a function of the old one (`NodeTree.AfterAdd`, `Hierarchy.Delete`, `Detail.AfterClustering`, …), or
  - changes only the fields its `modifies` clause names.
- The properties that matter are proved as lemmas about those functions:
  - a removal deletes exactly the subtree;
  - adding children stores the numbered children and extends the parent;
  - clustering hides exactly the members of big groups and places each cluster inside the viewport;
  - the visibility pass shows exactly what lies in the padded viewport.

On the server side:

- `Server.NodeManager` keeps the node dictionary as a `map` field.
- `Server.FromDict` inverts `to_dict` (`DictRoundTrip`).
- `DecodeTag`, the server's `|` → `/` translation, inverts the client's `EncodeTag` on every tag without a `|` (`TagRoundTrip`).
- No path decodes to a tag that contains `|`, so the node stored under such a tag cannot be fetched by any path (`BarTagNotAddressable`).

## Model

| member | source | states |
|---|---|---|
| Text.NatToString | js/VSMNetwork.js:199 | the rendered counter is non-empty and made of decimal digits only |
| Text.NatToStringRoundTrip | js/VSMNetwork.js:199 | reading the digits back gives the counter: the rendering loses nothing |
| Text.NatToStringInjective | js/VSMNetwork.js:199 | different counters render differently, so child tags `p-1`, `p-2`, … differ |
| Text.NatToStringCanonical | js/VSMNetwork.js:199 | the rendering starts with `0` exactly when the counter is 0 (no leading zeros) |
| Text.ToLowerChars | js/VSMNetwork.js:602-603 | lower-casing leaves no upper-case letter, keeps every other character, and changes every upper-case one |
| Text.ToLowerIdempotent | js/VSMNetwork.js:602-603 | lower-casing twice is lower-casing once |
| Text.IncludesBasics | js/VSMNetwork.js:602-603 | `includes` finds the empty string, the string itself, and any infix |
| Text.IncludesLength | js/VSMNetwork.js:602-603 | only strings no longer than the text are found |
| Text.ReplaceCharEffect | server.py:77 | replacing `a` by `b` leaves no `a`, keeps every other character, and puts `b` where each `a` was |
| Text.ReplaceCharInverse | js/VSMNetwork.js:217 | replacing `a` by `b` and back restores any string that had no `b` |
| Text.ReplaceCharAbsent | server.py:84 | replacing a character that does not occur changes nothing |
| NodeStyle.EdgeLength | js/VSMNetwork.js:248-251 | the edge length lies between the minimum 0.5 and the maximum 1.5 |
| NodeStyle.NodeSize | js/VSMNetwork.js:253-256 | the sphere radius lies between the minimum 0.1 and the maximum 0.3 |
| NodeStyle.NodeColor | js/VSMNetwork.js:258-268 | the colour is one of the six palette entries |
| NodeStyle.StyleByLayer | js/VSMNetwork.js:248-256 | layer 0 gets the maxima, layer 1 half of them (0.75, 0.15), layers 2 and deeper the minima |
| NodeStyle.StyleMonotone | js/VSMNetwork.js:248-256 | deeper layers never get longer edges or larger spheres |
| NodeStyle.ColorCycle | js/VSMNetwork.js:258-268 | colours repeat every six layers, neighbouring layers differ, and the root is green `0x4CAF50` |
| Viewport.LevelFor | js/VSMNetwork.js:975-981 | the level is low exactly above height 15, medium exactly in (8, 15], full exactly at 8 or below |
| Viewport.LevelMonotone | js/VSMNetwork.js:975-981 | a higher camera never gets a more detailed level |
| Viewport.ViewportBounds | js/VSMNetwork.js:1104-1144 | the box is centred on the camera's foot point; its sides are the frame width and height plus the padding twice |
| Viewport.ViewportExtents | js/VSMNetwork.js:1118-1141 | each corner is the camera position minus or plus half the frame plus the padding |
| Viewport.ViewportWellFormed | js/VSMNetwork.js:1118-1141 | for a non-negative field of view and aspect, the box is well formed and contains the camera's foot point |
| Viewport.FrameGrows | js/VSMNetwork.js:1118-1120 | a camera farther from the plane gets a frame and padding at least as large |
| Viewport.ViewportGrowsWithHeight | js/VSMNetwork.js:1104-1144 | a point in the viewport stays in it when the camera moves farther away |
| QuadTreeIndex.NewTree | js/QuadTree.js:4-13 | a new node is valid and undivided, on the given box and capacity, and holds nothing |
| QuadTreeIndex.FirstQuadrantChain | js/QuadTree.js:68-75 | the child that takes a point is the first of NW, NE, SW, SE whose box contains it |
| QuadTreeIndex.QuadrantsCover | js/QuadTree.js:15-36 | the four quadrant boxes cover the node's box exactly: a point is in the box iff some quadrant takes it |
| QuadTreeIndex.MidpointGoesNorthWest | js/QuadTree.js:21-24 | the centre point, on all four closed quadrants at once, goes to NW |
| QuadTreeIndex.QuadrantsPartition | js/QuadTree.js:44-47 | distributing a node's points over the quadrants loses and duplicates none |
| QuadTreeIndex.ElemsInside | js/QuadTree.js:51-59 | every item stored in a valid subtree lies in that subtree's box |
| QuadTreeIndex.Insert | js/QuadTree.js:51-66 | insertion keeps the tree valid, on the same box and capacity, and a divided node stays divided |
| QuadTreeIndex.InsertOutcomes | js/QuadTree.js:51-59 | insertion rejects exactly the points outside the box and then changes nothing; a leaf with room appends the point |
| QuadTreeIndex.InsertToChildren | js/QuadTree.js:68-75 | delegation keeps the children valid and leaves the node's own box, capacity and points alone |
| QuadTreeIndex.InsertToChildrenFirst | js/QuadTree.js:68-75 | only the first quadrant containing the point is asked to insert it; the other three children are unchanged, and a point in no quadrant is rejected |
| QuadTreeIndex.InsertToChildrenLeaf | js/QuadTree.js:68-75 | when the taking child is a leaf with room, the point is appended to that child's list |
| QuadTreeIndex.InsertCount | js/QuadTree.js:51-66 | a stored point is added to the tree's items exactly once; every other answer leaves the item multiset unchanged |
| QuadTreeIndex.InsertKeepsItems | js/QuadTree.js:51-75 | the same count, stated on the items `query` traverses |
| QuadTreeIndex.MoveToChildren | js/QuadTree.js:44-48 | moving the pending points keeps the children valid and the node's box, capacity and points |
| QuadTreeIndex.MoveToChildrenExact | js/QuadTree.js:44-47 | after the move, each child holds its old points followed by the pending points of its quadrant, in order |
| QuadTreeIndex.Subdivide | js/QuadTree.js:15-49 | a subdivided node is valid and divided, on the same box and capacity |
| QuadTreeIndex.SubdivideExact | js/QuadTree.js:15-49 | each new child is an undivided node on its quadrant box holding exactly the parent's points of that quadrant, and no item is lost or duplicated |
| QuadTreeIndex.NothingInDisjointRange | js/QuadTree.js:78-80 | a range that misses the node's box contains none of its points, so pruning loses nothing |
| QuadTreeIndex.QueryOrder | js/QuadTree.js:88-93 | a divided node's items are its NW, NE, SW and SE children's items in that order |
| QuadTreeIndex.Query | js/QuadTree.js:77-96 | the result is the found list followed by every stored item inside the range, in traversal order; an unmet box adds nothing |
| QuadTreeIndex.CollectInRange | js/QuadTree.js:82-86 | the loop appends exactly the node's points inside the range, in order |
| QuadTreeIndex.Clear | js/QuadTree.js:98-105 | a cleared node is a valid empty leaf on the same box and capacity |
| Clustering.GroupNearbyNodes | js/VSMNetwork.js:1041-1066 | the two nested loops compute `Grouping(items)` |
| Clustering.GatherMarks | js/VSMNetwork.js:1052-1058 | the inner pass marks exactly the members it collects, none of which was marked before |
| Clustering.GatherDistinct | js/VSMNetwork.js:1052-1058 | a group never holds two items with the same tag |
| Clustering.GatherMembers | js/VSMNetwork.js:1052-1058 | every member of a group is an input item within radius 2 of the centre |
| Clustering.GatherComplete | js/VSMNetwork.js:1052-1058 | after the inner pass every item within radius 2 of the centre is marked, by this group or an earlier one |
| Clustering.GroupingSeeds | js/VSMNetwork.js:1045-1063 | each group starts with its seed, the first unmarked item, and the seeds come in input order |
| Clustering.GroupPrefixExtends | js/VSMNetwork.js:1045-1063 | the outer loop only ever appends groups |
| Clustering.GroupPrefixTags | js/VSMNetwork.js:1045-1063 | the marked set is exactly the tags already grouped, and no tag is grouped twice |
| Clustering.GroupingPartition | js/VSMNetwork.js:1041-1066 | for distinct tags, the groups partition the input: each item lands in exactly one group |
| Clustering.GroupingSelects | js/VSMNetwork.js:1041-1066 | group `k` is exactly the input items within radius 2 of its first member that no earlier group took, in input order |
| Clustering.CentroidInBox | js/VSMNetwork.js:940-945 | the mean of points in a box lies in the box |
| Clustering.CentroidOfCopies | js/VSMNetwork.js:940-945 | the mean of copies of one point is that point |
| NodeTree.WellKeyedMeaning | js/VSMNetwork.js:811-845 | the node map and its iteration order list the same tags without repeats, and every node sits under its own tag |
| NodeTree.CreateEffect | js/VSMNetwork.js:811-845 | creating a node stores it under its tag with the data's fields; the sphere is shown at scale 1; the label is shown only for a root; a connection line exists iff the parent is present; nothing else changes and the order only grows |
| NodeTree.ChildTagDistinct | js/VSMNetwork.js:199 | a child tag differs from its parent's tag, and different counters give different tags |
| NodeTree.ChildTagsDistinct | js/VSMNetwork.js:198-199 | the tags of one batch are pairwise distinct and none is the parent's |
| NodeTree.ChildTagNamed | js/VSMNetwork.js:199 | a generated child tag is named under its parent: the parent's tag, a `-`, and digits |
| NodeTree.ChildTagsNamed | js/VSMNetwork.js:198-199 | every tag of a batch is named under the parent |
| NodeTree.NamedUnique | server.py:53 | a tag is named under at most one node, so only its parent can generate it |
| NodeTree.AddStepEffect | js/VSMNetwork.js:198-213 | one step stores the child under its tag and appends that tag to the parent's children; no other node changes |
| NodeTree.AddChildrenEffect | js/VSMNetwork.js:184-246 | for a present parent and a positive count, children `p-1` … `p-count` are stored at the polygon's vertices on the next layer; the parent lists them after its old children; other nodes are unchanged; the parent gains an outline |
| NodeTree.AddResultStored | js/VSMNetwork.js:184-246 | the call returns early iff the parent is missing; it throws iff the count is not positive; a failed call changes nothing; a successful one returns the `count` created nodes, in order, as stored |
| NodeTree.SearchOverMembers | js/VSMNetwork.js:599-611 | a node is in the result iff it is stored under a visited tag and matches |
| NodeTree.SearchFinds | js/VSMNetwork.js:599-611 | on a well-keyed map, a node is found iff it matches, and everything found is a stored node |
| NodeTree.SearchEmptyTerm | js/VSMNetwork.js:599-611 | the empty term finds every node, in iteration order |
| NodeTree.SearchOverCase | js/VSMNetwork.js:602-603 | the search ignores the case of the term |
| Hierarchy.DescendantsCharacterised | js/VSMNetwork.js:744-765 | the set the recursion removes is the least set that contains the node and is closed under present, deeper children (on a `Layered` map, every present child) |
| Hierarchy.RemoveEffect | js/VSMNetwork.js:744-765 | removal deletes exactly the node and its descendants; it keeps every other node unchanged, drops their outlines, keeps the map well keyed, and changes nothing when the tag is absent |
| Hierarchy.DeleteTwice | js/VSMNetwork.js:748-750 | deleting two sets one after the other is deleting their union |
| Hierarchy.DescendsParent | js/VSMNetwork.js:1692-1699 | a node is a descendant of its own parent |
| Hierarchy.DescendsLayer | js/VSMNetwork.js:1692-1699 | under layered parent links, an ancestor is on a shallower layer, so no node descends from itself |
| Hierarchy.DescendsTransitive | js/VSMNetwork.js:1692-1699 | being a descendant is transitive |
| Hierarchy.Unique | js/VSMNetwork.js:720 | the `Set` of children lists the same tags without repeats |
| Hierarchy.ForestUnique | js/VSMNetwork.js:720-724 | removing each distinct child once removes the same trees as walking the list with repeats |
| Hierarchy.ChildForest | js/VSMNetwork.js:719-724 | the trees under a node's children are its descendants other than itself |
| Hierarchy.SetChildCountParent | js/VSMNetwork.js:711-741 | after resetting, the parent lists exactly the new children and has an outline iff the count is positive; the map stays well keyed |
| Hierarchy.SetChildCountGone | js/VSMNetwork.js:719-725 | every old descendant that is not re-created is gone |
| Hierarchy.DeleteShaped | js/VSMNetwork.js:744-765 | deleting any set of tags keeps children deeper than their listers and named under them |
| Hierarchy.ResetShaped | js/VSMNetwork.js:726-731 | emptying a node's list of children keeps that shape |
| Hierarchy.CreateShaped | js/VSMNetwork.js:811-845 | storing a record whose children are named under it and deeper, and whose listers are shallower, keeps that shape |
| Hierarchy.AddShaped | js/VSMNetwork.js:184-246 | `addChildNodes` keeps that shape: the new children sit one layer down, and only the parent lists them |
| Hierarchy.KidEdge | js/VSMNetwork.js:198-213 | each edge of the map `addChildNodes` leaves is named and points deeper |
| Hierarchy.SetChildCountShaped | js/VSMNetwork.js:711-741 | `setChildCount` keeps that shape, so it and removal can be called again |
| Hierarchy.ClearedParent | js/VSMNetwork.js:716-731 | after the clearing half of `setChildCount` the parent is present, childless, without an outline, and the map is well keyed |
| Hierarchy.AddKeepsParent | js/VSMNetwork.js:184-246 | `addChildNodes` on a present parent extends its children by the batch and gives it an outline |
| Hierarchy.SetChildCountKept | js/VSMNetwork.js:711-741 | every node outside the parent's subtree and the new batch is unchanged |
| Detail.InsertAll | js/VSMNetwork.js:930-938 | inserting a sequence keeps the index valid on the same box and capacity |
| Detail.IndexOf | js/VSMNetwork.js:930-938 | the rebuilt index is valid and covers the world box |
| Detail.InsertAllItems | js/VSMNetwork.js:930-938 | the index holds no item that was not inserted, and none more often than inserted |
| Detail.InsertAllExact | js/VSMNetwork.js:932-937 | after a run of insertions the tree holds its old items plus exactly the inserted items whose `insert` answered true, each once |
| Detail.AnswersRejected | js/VSMNetwork.js:933-936 | an insertion of the run is rejected exactly when its point lies outside the tree's box |
| Detail.StoredIffInside | js/QuadTree.js:51-66 | an insertion that does not hit the depth budget stores the item exactly when it lies in the box |
| Detail.StoredInBox | js/VSMNetwork.js:932-937 | with no insertion hitting the depth budget, the stored items are exactly the inserted items inside the box, in order |
| Detail.IndexExact | js/VSMNetwork.js:930-938 | the index holds exactly the node positions whose insertion was stored; within the depth budget, exactly the nodes inside the world box |
| Detail.ItemsOfComplete | js/VSMNetwork.js:932-937 | every listed node is inserted, at its position under its tag |
| Detail.ItemsOfDistinct | js/VSMNetwork.js:932-937 | a duplicate-free iteration order inserts each tag once |
| Detail.IndexDistinct | js/VSMNetwork.js:930-938 | on a well-keyed graph the index never holds a tag twice |
| Detail.IndexComplete | js/VSMNetwork.js:930-938 | within the depth budget, every node inside the world box is in the index exactly once |
| Detail.IndexSound | js/VSMNetwork.js:930-938 | every indexed item is a stored node's tag with that node's position, inside the world box |
| Detail.InViewSound | js/VSMNetwork.js:1015-1016 | every item the viewport query returns is a stored node at its position inside the viewport |
| Detail.InRangeDistinct | js/QuadTree.js:77-95 | the range filter keeps tags distinct |
| Detail.InViewGrouped | js/VSMNetwork.js:1015-1019 | on a well-keyed graph the query returns each tag once, and the groups partition what it returns |
| Detail.InViewComplete | js/VSMNetwork.js:1015-1019 | within the depth budget, a node in the world box and the viewport is returned once by the query and lands in exactly one group |
| Detail.GroupsSound | js/VSMNetwork.js:1016-1019 | every grouped item came from the query, and each group's tags are stored nodes |
| Detail.ClusterKeyInjective | js/VSMNetwork.js:1026 | different group indices give different cluster keys |
| Detail.ClusterMapFacts | js/VSMNetwork.js:1022-1038 | `cluster-i` is stored iff group `i` has more than ten members, and then it is the cluster made from that group; no other key is stored |
| Detail.ClustersStored | js/VSMNetwork.js:1003-1039 | after clustering, the cluster map is exactly the one built from the viewport groups; the old clusters are gone |
| Detail.ClusterPlacement | js/VSMNetwork.js:1022-1028 | each cluster is shown, has more than ten members listed in group order, and sits inside the viewport |
| Detail.ClusteringHides | js/VSMNetwork.js:1031-1036 | clustering hides exactly the members of big groups and changes nothing but looks |
| Detail.HideTagsLooks | js/VSMNetwork.js:1031-1036 | hiding nodes changes their looks only |
| Detail.FullDetailAfterClustering | js/VSMNetwork.js:1086-1102 | returning to full detail after clustering restores every node's look and hides every cluster |
| Detail.LooksAbsorb | js/VSMNetwork.js:1068-1102 | the full and simplified styles are idempotent, override hiding, and never add or remove a connection line |
| Detail.LooksOnly | js/VSMNetwork.js:970-987 | the level update sets the level from the camera height and changes no node data but looks, nor the iteration order, the outlines or the visible set |
| Detail.UpdateLODIdempotent | js/VSMNetwork.js:970-987 | a second level update at the same height changes nothing |
| Detail.SameButLooksVisible | js/VSMNetwork.js:866-873 | the visible set does not depend on looks |
| Detail.NodeVisibilityEffect | js/VSMNetwork.js:888-919 | a node's sphere is shown iff it lies in the viewport; its label is shown iff it is also within distance 10 of the camera's foot point; positions and data are unchanged |
| Detail.LabelWithinTen | js/VSMNetwork.js:905 | the label test `distance < 10` is the squared-distance test `< 100` |
| Detail.NearLookIdempotent | js/VSMNetwork.js:888-919 | a second visibility pass with the same input changes nothing |
| Detail.ShowVisibleEffect | js/VSMNetwork.js:865-878 | the visible set is recomputed from the viewport; looks change only at full detail, and then exactly as the visibility pass says |
| Detail.VisibleUpdateEffect | js/VSMNetwork.js:861-878 | the whole update sets the level from the camera height and the visible set from the viewport, and changes nothing but looks |
| Detail.VisibleGrowsWithHeight | js/VSMNetwork.js:866-873 | raising the camera never makes a visible node invisible |
| Network.VSMNetwork.constructor | js/VSMNetwork.js:6-34 | a new network has no nodes, outlines, visible tags or clusters, is at full detail, and holds an empty index |
| Network.VSMNetwork.InitQuadtree | js/VSMNetwork.js:921-928 | the index becomes an empty node on the box [-1000, 1000]² with capacity 4 |
| Network.VSMNetwork.UpdateQuadtree | js/VSMNetwork.js:930-938 | the index becomes the node positions inserted in iteration order (`Detail.IndexOf`); it holds exactly those whose insertion was stored, and within the depth budget exactly the nodes inside the world box |
| Network.VSMNetwork.CreateCluster | js/VSMNetwork.js:940-968 | the cluster sits at the mean of the nodes' positions and lists their tags in order |
| Network.VSMNetwork.HideGroup | js/VSMNetwork.js:1031-1036 | the group's members are hidden on top of those already hidden |
| Network.VSMNetwork.ClusterGroup | js/VSMNetwork.js:1023-1036 | one big group adds its cluster under its key and hides its members |
| Network.VSMNetwork.ClusterGroups | js/VSMNetwork.js:1022-1038 | the loop over groups leaves the cluster map `ClusterMap` and hides exactly `BigTags` |
| Network.VSMNetwork.ApplyClustering | js/VSMNetwork.js:1003-1039 | the new state is `AfterClustering` of the old one |
| Network.VSMNetwork.ClusterInView | js/VSMNetwork.js:1014-1038 | on a freshly rebuilt index, the query, grouping and clustering steps give `AfterClustering` of the state, and the network stays consistent |
| Network.VSMNetwork.RestyleNodes | js/VSMNetwork.js:1070-1077 | every node gets the given style and the map stays well keyed |
| Network.VSMNetwork.HideAllClusters | js/VSMNetwork.js:1080-1083 | every cluster is hidden and the key set is unchanged |
| Network.VSMNetwork.ShowSimplifiedNodes | js/VSMNetwork.js:1068-1084 | the new state is `AfterSimplified` of the old one |
| Network.VSMNetwork.ShowFullDetail | js/VSMNetwork.js:1086-1102 | the new state is `AfterFullDetail` of the old one |
| Network.VSMNetwork.ApplyLOD | js/VSMNetwork.js:989-1001 | the new state is `AfterApplyLOD`: clustering, simplified or full by the current level |
| Network.VSMNetwork.UpdateLOD | js/VSMNetwork.js:970-987 | the new state is `AfterUpdateLOD` of the old one |
| Network.VSMNetwork.UpdateNodeVisibility | js/VSMNetwork.js:888-919 | every node's look becomes `NearLook` for its visibility and distance |
| Network.AdjustEach | js/VSMNetwork.js:891-918 | the loop over the iteration order leaves exactly `NodeVisibility` of the map it started from |
| Network.VSMNetwork.CollectVisible | js/VSMNetwork.js:865-873 | the visible set becomes exactly the tags of nodes in the viewport |
| Network.VSMNetwork.UpdateVisibleNodes | js/VSMNetwork.js:861-878 | the new state is `AfterVisibleUpdate` of the old one |
| Network.VSMNetwork.CreateNodeFromData | js/VSMNetwork.js:811-845 | the graph becomes `CreateIn(old, d)`, the node built is returned, the network stays consistent, and a record that fits keeps the tree shape |
| NodeTree.CreateKeyed | js/VSMNetwork.js:811-845 | creating a node keeps the graph well keyed |
| Network.VSMNetwork.AddChild | js/VSMNetwork.js:198-213 | one loop step: the graph becomes `AddStep(old, b, i)`, the child built is returned, and the network stays consistent |
| Network.VSMNetwork.AddChildNodes | js/VSMNetwork.js:184-246 | the graph becomes `AfterAdd(old, …)`, the outcome is `AddResult(old, …)`, the network stays consistent, and the tree shape is kept |
| Network.VSMNetwork.AddBatch | js/VSMNetwork.js:198-226 | the loop runs every step of the batch from the old graph and returns the children it built, in order |
| Network.VSMNetwork.AddNext | js/VSMNetwork.js:199-213 | iteration `i` builds the record of child `p-(i+1)` from the parent's layer read before the loop, returns that child and brings the graph one step further along the batch |
| Network.VSMNetwork.SearchNodes | js/VSMNetwork.js:599-611 | the result is `Search(graph, term)` |
| Network.VSMNetwork.IsDescendantOf | js/VSMNetwork.js:1692-1699 | the answer is `Descends(nodes, child, parent)` |
| Network.VSMNetwork.RemoveNodeAndChildren | js/VSMNetwork.js:744-765 | the graph loses exactly the node's descendants (`Hierarchy.Delete`), the network stays consistent, the map stays `Layered`, and it stays `ChildrenNamed` if it was |
| Network.VSMNetwork.RemoveTree | js/VSMNetwork.js:744-765 | the same for a layer bound, by recursion through the children |
| Network.VSMNetwork.RemoveEach | js/VSMNetwork.js:748-750 | the trees under each listed child are deleted |
| Network.VSMNetwork.RemoveNext | js/VSMNetwork.js:749 | one more child's tree is deleted after those of the children before it |
| Network.VSMNetwork.SetChildCount | js/VSMNetwork.js:711-741 | the graph becomes `AfterSetChildCount(old, …)`, the network stays consistent, and a `ChildrenNamed` map comes out tree shaped |
| Network.VSMNetwork.ClearChildren | js/VSMNetwork.js:716-731 | the trees under the parent's children are deleted, the parent is kept and reset (`Hierarchy.Reset`), and the network stays consistent |
| Network.VSMNetwork.ResetParent | js/VSMNetwork.js:726-731 | the parent loses its outline and its list of children, and nothing else changes |
| Hierarchy.ClearedKeyed | js/VSMNetwork.js:716-731 | deleting the trees under the parent's children keeps the parent, and resetting it keeps the graph well keyed |
| Server.SeedFields | server.py:40-43 | the seed is `0/0/1` at `[0, 0]` on layer 0: no parent, no children, its tag as its name, poly order 6 |
| Server.ToDict | server.py:24-33 | the dictionary has exactly the seven keys, polyOrder in camel case |
| Server.ToDictFields | server.py:24-33 | each key holds the field, with no parent as `null` |
| Server.DictRoundTrip | server.py:24-33 | a node is read back unchanged from its dictionary |
| Server.ToDictInjective | server.py:24-33 | different nodes give different dictionaries |
| Server.AddChildrenOutcome | server.py:45-60 | the result is the error object iff the parent is missing, and then nothing changes; otherwise it lists one dictionary per new child, and the parent's children are extended by `p-1` … `p-n` |
| Server.AddChildrenStored | server.py:52-58 | exactly the new child tags are added, and every other node is unchanged |
| Server.AddUpToChild | server.py:53-56 | child `i + 1` is stored at `[0, 0]` on the next layer, with the parent set and poly order 6 |
| Server.TagRoundTrip | js/VSMNetwork.js:217 | an encoded tag holds no `/`, and decoding restores any tag without `|` |
| Server.DecodeRemovesBars | server.py:77 | a decoded path holds no `|` and keeps every other character |
| Server.BarTagNotAddressable | server.py:77 | for every tag with a `|` and every path, the decoded path differs from the tag, so no request reaches that node |
| Server.ChildTagNoBar | server.py:53 | child tags of a tag without `|` have none |
| Server.SeedNoBar | server.py:41 | the seed tag holds no `|` |
| Server.NodeManager.constructor | server.py:36-38 | a new manager holds the seed alone |
| Server.NodeManager.CreateSeedNode | server.py:40-43 | the seed is stored under its tag and its dictionary is returned |
| Server.NodeManager.AddChildNodes | server.py:45-60 | an unknown parent gives the error object whatever the count; a known parent with a count that is not an integer raises before anything is stored; an integer count makes the nodes `AfterAddChildren(old, …)` and the result `AddChildrenResult(old, …)` |
| Server.NodeManager.GetNode | server.py:62-63 | the dictionary is returned iff the tag is stored, and it reads back as that node |
| Server.NodeManager.GetAllNodes | server.py:65-66 | the map has the stored tags as keys, each holding the dictionary of its node |
| Server.GetNodesRoute | server.py:70-72 | the route answers a JSON object keyed by all stored tags |
| Server.GetNodeRoute | server.py:74-79 | after decoding, the route answers the node iff it is stored, and 404 iff not |
| Server.CountOf | server.py:86 | the count defaults to 6 when the key is absent and is otherwise the body's value, unchecked; only a body that is not an object fails |
| Server.AddChildrenRoute | server.py:81-88 | a body that is not an object is a server error; an unknown parent answers the error object whatever the count; a known parent with a count that is not an integer is a server error; none of these changes anything; otherwise the route adds children under the decoded tag and answers `add_child_nodes`'s result |

## Left out

- `QuadTree` is modelled on values: a `Tree` datatype, and functions that return the updated node. The source updates linked objects in place. Its child nodes are always fresh and never shared, so the model loses the object identity and in-place update, but no aliasing.
- QuadTreeIndex.Insert: recursion is bounded by a fuel parameter, and the client passes `DepthBudget` (32). The source has no depth limit. It recurses without end when more points than the capacity share one position, and it goes on splitting past depth 32 when five or more distinct points share one depth-32 cell, where it stores them. In both cases the model answers `OutOfFuel` and does not store the item. Full leaves on the way down may already have been split; only the multiset of stored items is unchanged (`QuadTreeIndex.InsertKeepsItems`).
- Detail.InsertAll: an item whose insertion answers `OutOfFuel` is silently left out of the rebuilt index, and the rebuild goes on. The completeness lemmas (`Detail.IndexComplete`, `Detail.InViewComplete`) therefore require `Detail.WithinDepth`. The source instead overflows the stack when points share a position. The `RangeError` escapes `updateQuadtree` and aborts `applyClustering` after `clusters.clear()` and after `currentLOD` was set, so no cluster is made and no node is hidden. A realistic trigger exists: the server places the seed and every child it makes at `[0, 0]` (server.py:41, 55).
- Network.VSMNetwork.UpdateQuadtree: the abort described for `Detail.InsertAll` is not modelled. When an insertion runs out of depth budget, the method still returns the index without that item, and `ApplyClustering` goes on with it.
- The camera is a parameter (`Viewport.Camera`) with `tan(fov/2)` given directly. Trigonometry, the frustum and the projection matrix are not modelled.
- Network.VSMNetwork.UpdateVisibleNodes: each node's distance from the camera's foot point is an input `dist`, tied to the squared distance by `Detail.Distances`. The square root is not computed.
- `generatePolygon` from `js/geometry.js` is not modelled. Its vertices are an input of `AddChildNodes` and `SetChildCount`: one per child, none for a count that is not positive (`NodeTree.PolygonFor`).
- Network.VSMNetwork.RemoveNodeAndChildren: requires `Layered` (every present child is on a deeper layer). The source recurses without end on a cycle of children.
- Network.VSMNetwork.SetChildCount: requires `Layered`, for the same reason. The requirement can be met again after each call: removal keeps `Layered`, and adding children and `setChildCount` keep it together with `ChildrenNamed`.
- Network.VSMNetwork.AddChildNodes: keeps `Layered` only together with `ChildrenNamed`. `Layered` alone is not kept. A node deeper than the parent may already list a tag `p-1` that is not present; once `p-1` is created one layer below `p`, that edge points upwards.
- Network.VSMNetwork.CreateNodeFromData: keeps the tree shape only for a record that fits (`Hierarchy.FitsShape`). The client does not check the records the server sends.
- Network.VSMNetwork.IsDescendantOf: requires `ParentsLayered`. The source loops forever on a cycle of parent links.
- Network.VSMNetwork.CreateCluster: requires a non-empty list. The client only calls it for groups of more than ten; the division by zero it would do otherwise is not modelled.
- Text.ToLower: ASCII only. JavaScript's `toLowerCase` also maps non-ASCII letters.
- Drawing is out of scope. Meshes, sprites, materials, label scale, line opacity, highlighting, the node counter in the DOM, the context menu, hover effects, focus and the VSM diagram are not modelled. Node visibility is reduced to the `Look` flags, and a mesh's scale is kept only as a number.
- Async I/O is out of scope: `fetch`, `init`, `createSeedNode`, `saveSeedNodeToServer` and `loadNodesFromServer`. The client's POST to `/nodes` has no route on the server. The encoded tag computed at js/VSMNetwork.js:217 is never used; its round trip is proved on its own.
- The two sides disagree on poly order: server children carry the default `poly_order` 6, while client children carry the requested count. Both are modelled as written.
- JSON is modelled with integers only. Floats, booleans and dictionary key order are not modelled.
- Flask, CORS, the JSON encoder and `request.json` are not modelled. Two exceptions end as a server error: `data.get` on a body that is not an object (`Server.CountOf`), and `range(count)` on a count that is not an integer. The second happens only for a known parent, because `add_child_nodes` checks the parent first (`Server.NodeManager.AddChildNodes`).
