/**
 * How a node's layer sets its drawing: the edge length of the polygon its
 * children are laid out on and the radius of its sphere both shrink with
 * depth down to a floor, and its colour cycles through a fixed palette.
 */
module NodeStyle {

  const MaxEdgeLength: real := 1.5
  const MinEdgeLength: real := 0.5
  const MaxNodeSize: real := 0.3
  const MinNodeSize: real := 0.1

  /** The palette `getNodeColor` cycles through, as 24-bit RGB values. */
  const Palette: seq<nat> := [0x4CAF50, 0x2196F3, 0xF44336, 0xFFC107, 0x9C27B0, 0x00BCD4]

  function MaxReal(a: real, b: real): real
  {
    if a < b then b else a
  }

  /** `maxEdgeLength / (layer + 1)`, but never below `minEdgeLength`. */
  function EdgeLength(layer: nat): (r: real)
    ensures MinEdgeLength <= r <= MaxEdgeLength
  {
    MaxReal(MaxEdgeLength / (layer as real + 1.0), MinEdgeLength)
  }

  /** `maxNodeSize / (layer + 1)`, but never below `minNodeSize`. */
  function NodeSize(layer: nat): (r: real)
    ensures MinNodeSize <= r <= MaxNodeSize
  {
    MaxReal(MaxNodeSize / (layer as real + 1.0), MinNodeSize)
  }

  function NodeColor(layer: nat): (c: nat)
    ensures c in Palette
  {
    Palette[layer % |Palette|]
  }

  /** The root layer gets the longest edge and the largest sphere; from layer 2 on both sit at their floor. */
  lemma StyleByLayer(layer: nat)
    ensures layer == 0 ==> EdgeLength(layer) == MaxEdgeLength && NodeSize(layer) == MaxNodeSize
    ensures layer >= 2 ==> EdgeLength(layer) == MinEdgeLength && NodeSize(layer) == MinNodeSize
    ensures layer == 1 ==> EdgeLength(layer) == 0.75 && NodeSize(layer) == 0.15
  {
    var d := layer as real + 1.0;
    if layer >= 2 {
      assert MaxEdgeLength / d <= MinEdgeLength by {
        assert d >= 3.0;
        assert MaxEdgeLength / d * d == MaxEdgeLength;
      }
      assert MaxNodeSize / d <= MinNodeSize by {
        assert d >= 3.0;
        assert MaxNodeSize / d * d == MaxNodeSize;
      }
    }
  }

  /** Deeper layers never get longer edges or larger spheres. */
  lemma StyleMonotone(l1: nat, l2: nat)
    requires l1 <= l2
    ensures EdgeLength(l2) <= EdgeLength(l1)
    ensures NodeSize(l2) <= NodeSize(l1)
  {
    var d1, d2 := l1 as real + 1.0, l2 as real + 1.0;
    assert MaxEdgeLength / d2 <= MaxEdgeLength / d1 by {
      assert MaxEdgeLength / d2 * d2 == MaxEdgeLength == MaxEdgeLength / d1 * d1;
    }
    assert MaxNodeSize / d2 <= MaxNodeSize / d1 by {
      assert MaxNodeSize / d2 * d2 == MaxNodeSize == MaxNodeSize / d1 * d1;
    }
  }

  /**
   * Colours repeat every six layers, the root is green like the seed node,
   * and a parent and its children always differ in colour.
   */
  lemma ColorCycle(layer: nat)
    ensures NodeColor(layer + |Palette|) == NodeColor(layer)
    ensures NodeColor(layer + 1) != NodeColor(layer)
    ensures NodeColor(0) == 0x4CAF50
  {
    assert (layer + 6) % 6 == layer % 6;
    var i, j := layer % 6, (layer + 1) % 6;
    assert j == if i == 5 then 0 else i + 1;
  }
}
