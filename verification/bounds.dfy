/** `BoundingBoxVisitor`: the `java.awt.Rectangle` bounds of a shape. Unrotated
    rectangles and polygons get exact integer boxes; rotated ones go through an
    `AffineTransform`, which `Trig` stands for; a group accumulates the `union` of its
    children's boxes. */
module Bounds {
  import opened JavaLang
  import opened Geometry
  import opened Store
  import opened Shapes

  /** `visit(Rectangle)`, `visit(RegularPolygon)` and `visit(ShapeGroup)`. A group with no
      children gets a zero-sized box at its position, and so does one none of whose
      children can be visited (the source's fallback for a null total). */
  function BBox(trig: Trig, h: Heap, id: Id): (b: Box)
    requires id in h.objs
    ensures var o := h.objs[id]; var p := At(h.pts, o.pos);
      && (o.kind.Rect? && o.rotation == 0 ==> b == Box(p.x, p.y, o.kind.width, o.kind.height))
      && (o.kind.Poly? && o.rotation == 0 ==>
            b == Box(p.x - o.kind.radius, p.y - o.kind.radius, 2 * o.kind.radius, 2 * o.kind.radius))
      && (o.kind == Group([]) ==> b == Box(p.x, p.y, 0, 0))
    decreases id, 1
  {
    var o := h.objs[id];
    var p := At(h.pts, o.pos);
    match o.kind
    case Rect(w, ht, _) =>
      if o.rotation == 0 then Box(p.x, p.y, w, ht)
      else trig.rotatedRectBounds(Box(p.x, p.y, w, ht), o.rotation, At(h.pts, o.center))
    case Poly(sides, _, r) =>
      if o.rotation == 0 then Box(p.x - r, p.y - r, r * 2, r * 2)
      else trig.rotatedPolyBounds(p, sides, r, o.rotation, At(h.pts, o.center))
    case Group(cs) =>
      var bs := KidBoxes(trig, h, cs, id);
      if cs == [] || bs == [] then Box(p.x, p.y, 0, 0) else UnionAll(bs)
  }

  /** The boxes of the children the loop visits, in child order. */
  function KidBoxes(trig: Trig, h: Heap, cs: seq<Id>, bound: Id): (bs: seq<Box>)
    ensures (forall c | c in cs :: c in h.objs && c < bound) ==>
      |bs| == |cs| && forall i | 0 <= i < |cs| :: bs[i] == BBox(trig, h, cs[i])
    decreases bound, 0, |cs|
  {
    if cs == [] then []
    else
      var first := if cs[0] < bound && cs[0] in h.objs then [BBox(trig, h, cs[0])] else [];
      var rest := KidBoxes(trig, h, cs[1..], bound);
      assert (forall c | c in cs :: c in h.objs && c < bound) ==> forall c | c in cs[1..] :: c in h.objs && c < bound by {
        assert forall c | c in cs[1..] :: c in cs;
      }
      first + rest
  }

  /** The boxes `visit(ShapeGroup)` folds together, in child order. */
  function ChildBoxes(trig: Trig, h: Heap, g: Id): seq<Box>
  {
    KidBoxes(trig, h, GetShapes(h.objs, g), g)
  }

  /** In a valid heap every child of a group is visited. */
  lemma AllKidsVisited(trig: Trig, h: Heap, g: Id)
    requires Valid(h) && IsGroup(h.objs, g)
    ensures var cs := GetShapes(h.objs, g); var bs := ChildBoxes(trig, h, g);
      |bs| == |cs| && forall i | 0 <= i < |cs| :: bs[i] == BBox(trig, h, cs[i])
  {
    assert forall c | c in GetShapes(h.objs, g) :: c in h.objs && c < g;
  }

  /** A non-empty group's box holds the box of every child that `union` does not ignore,
      and is the least rectangle doing so once one such child exists. */
  lemma GroupBoxIsHull(trig: Trig, h: Heap, g: Id)
    requires Valid(h) && IsGroup(h.objs, g) && GetShapes(h.objs, g) != []
    ensures var bs := ChildBoxes(trig, h, g);
      && (forall i | 0 <= i < |bs| && Exists(bs[i]) :: Encloses(BBox(trig, h, g), bs[i]))
      && (SomeExists(bs) ==> Exists(BBox(trig, h, g)))
      && (forall c | Exists(c) && SomeExists(bs) && (forall i | 0 <= i < |bs| && Exists(bs[i]) :: Encloses(c, bs[i]))
            :: Encloses(c, BBox(trig, h, g)))
  {
    var bs := ChildBoxes(trig, h, g);
    AllKidsVisited(trig, h, g);
    UnionAllIsHull(bs);
    GroupBoxIsUnion(trig, h, g);
  }

  /** A group with a single child has exactly that child's box. */
  lemma SingleChildBox(trig: Trig, h: Heap, g: Id)
    requires Valid(h) && IsGroup(h.objs, g) && |GetShapes(h.objs, g)| == 1
    ensures BBox(trig, h, g) == BBox(trig, h, GetShapes(h.objs, g)[0])
  {
    AllKidsVisited(trig, h, g);
    var bs := ChildBoxes(trig, h, g);
    assert bs == [bs[0]];
    UnionAllSingle(bs[0]);
  }

  /** Two groups over the same children, in any order and with any repetition, have the
      same box as long as one child's box is not ignored by `union`. */
  lemma GroupBoxOrderFree(trig: Trig, h: Heap, g1: Id, g2: Id)
    requires Valid(h) && IsGroup(h.objs, g1) && IsGroup(h.objs, g2)
    requires GetShapes(h.objs, g1) != [] && GetShapes(h.objs, g2) != []
    requires forall c :: c in GetShapes(h.objs, g1) <==> c in GetShapes(h.objs, g2)
    requires exists c | c in GetShapes(h.objs, g1) :: Exists(BBox(trig, h, c))
    ensures BBox(trig, h, g1) == BBox(trig, h, g2)
  {
    var cs1, cs2 := GetShapes(h.objs, g1), GetShapes(h.objs, g2);
    var bs1, bs2 := ChildBoxes(trig, h, g1), ChildBoxes(trig, h, g2);
    AllKidsVisited(trig, h, g1);
    AllKidsVisited(trig, h, g2);
    SameBoxes(trig, h, g1, g2);
    var c :| c in cs1 && Exists(BBox(trig, h, c));
    var i :| 0 <= i < |cs1| && cs1[i] == c;
    assert Exists(bs1[i]);
    UnionAllOrderFree(bs1, bs2);
    GroupBoxIsUnion(trig, h, g1);
    GroupBoxIsUnion(trig, h, g2);
  }

  lemma GroupBoxIsUnion(trig: Trig, h: Heap, g: Id)
    requires Valid(h) && IsGroup(h.objs, g) && GetShapes(h.objs, g) != []
    ensures BBox(trig, h, g) == UnionAll(ChildBoxes(trig, h, g))
  {
    AllKidsVisited(trig, h, g);
  }

  lemma SameBoxes(trig: Trig, h: Heap, g1: Id, g2: Id)
    requires Valid(h) && IsGroup(h.objs, g1) && IsGroup(h.objs, g2)
    requires forall c :: c in GetShapes(h.objs, g1) <==> c in GetShapes(h.objs, g2)
    ensures forall b :: b in ChildBoxes(trig, h, g1) <==> b in ChildBoxes(trig, h, g2)
  {
    var cs1, cs2 := GetShapes(h.objs, g1), GetShapes(h.objs, g2);
    var bs1, bs2 := ChildBoxes(trig, h, g1), ChildBoxes(trig, h, g2);
    AllKidsVisited(trig, h, g1);
    AllKidsVisited(trig, h, g2);
    forall b ensures b in bs1 <==> b in bs2 {
      if b in bs1 {
        var i :| 0 <= i < |bs1| && bs1[i] == b;
        assert cs1[i] in cs2;
        var j :| 0 <= j < |cs2| && cs2[j] == cs1[i];
        assert bs2[j] == b;
      }
      if b in bs2 {
        var j :| 0 <= j < |bs2| && bs2[j] == b;
        assert cs2[j] in cs1;
        var i :| 0 <= i < |cs1| && cs1[i] == cs2[j];
        assert bs1[i] == b;
      }
    }
  }
}
