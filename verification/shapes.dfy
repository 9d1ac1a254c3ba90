/** `Shape`, `Rectangle`, `RegularPolygon` and `ShapeGroup`: constructors, field
    setters, point containment, the geometric centre, rectangle intersection and the
    group's child list with its anchor. The recursive mutators (`move`, `setRotation`,
    `setFillColor`) are in the `Motion` module. */
module Shapes {
  import opened JavaLang
  import opened Geometry
  import opened Store

  /** The floating-point trigonometry of the source, left uninterpreted:
      `radius(sides, sideLength)` is `RegularPolygon.calculateRadius`,
      `inPolygon(centre, sides, radius, p)` is `RegularPolygon.contains`, and the two
      `rotated…` functions are the bounds `BoundingBoxVisitor` reads off an
      `AffineTransform` rotation about the rotation centre. */
  datatype Trig = Trig(
    radius: (int, int) -> int,
    inPolygon: (Point, int, int, Point) -> bool,
    rotatedRectBounds: (Box, int, Point) -> Box,
    rotatedPolyBounds: (Point, int, int, int, Point) -> Box)

  /** The default `Shape()` constructor: one new point (0, 0) serves as both the position
      and the rotation centre; white fill, black border, rotation 0, a fresh id. */
  function NewShape(h: Heap, kind: Kind): (r: Made<Id>)
    requires kind.Group? ==> kind.children == []
    ensures Valid(h) ==> Valid(r.heap) && Extends(h, r.heap) && r.value !in h.objs
    ensures r.value in r.heap.objs
    ensures var o := r.heap.objs[r.value];
      o.pos == o.center && o.pos in r.heap.pts && r.heap.pts[o.pos] == Point(0, 0)
      && o.fill == White && o.border == Black && o.rotation == 0 && o.kind == kind
  {
    var p := NewPoint(h, Point(0, 0));
    NewObj(p.heap, Obj(p.value, White, Black, 0, p.value, kind))
  }

  /** `shape.setPosition(new Point(p.x, p.y))`: a new point object becomes the position;
      the old point, and the rotation centre, are left alone. */
  function PlaceAt(h: Heap, id: Id, p: Point): (r: Heap)
    requires id in h.objs
    ensures id in r.objs && PositionOf(r, id) == p
    ensures OnlyChanged(h.objs, r.objs, id) && r.objs[id] == h.objs[id].(pos := r.objs[id].pos)
    ensures Valid(h) ==> Valid(r) && h.objs[id].pos != r.objs[id].pos
    ensures Valid(h) ==> forall q | q in h.pts :: q in r.pts && r.pts[q] == h.pts[q]
  {
    var pt := NewPoint(h, p);
    var o := h.objs[id];
    Heap(h.objs[id := o.(pos := pt.value)], pt.heap.pts, pt.heap.next)
  }

  /** `new Rectangle()`: 100 by 50, corner radius 0, at the origin, with position and
      rotation centre one shared point. */
  function NewRectangle(h: Heap): (r: Made<Id>)
    ensures Valid(h) ==> Valid(r.heap) && r.value !in h.objs
    ensures r.value in r.heap.objs && PositionOf(r.heap, r.value) == Point(0, 0)
    ensures r.heap.objs[r.value].kind == Rect(100, 50, 0.0)
    ensures r.heap.objs[r.value].center == r.heap.objs[r.value].pos
  {
    NewShape(h, Rect(100, 50, 0.0))
  }

  /** `new Rectangle(x, y, width, height)`: the inherited constructor's point stays as
      the rotation centre at (0, 0) while a second new point becomes the position. */
  function NewRectangleAt(h: Heap, x: int, y: int, width: int, height: int): (r: Made<Id>)
    ensures Valid(h) ==> Valid(r.heap) && r.value !in h.objs
    ensures r.value in r.heap.objs && PositionOf(r.heap, r.value) == Point(x, y)
    ensures var o := r.heap.objs[r.value];
      o.kind == Rect(width, height, 0.0) && o.fill == White && o.border == Black && o.rotation == 0
      && At(r.heap.pts, o.center) == Point(0, 0)
    ensures Valid(h) ==> r.heap.objs[r.value].center != r.heap.objs[r.value].pos
  {
    var s := NewShape(h, Rect(width, height, 0.0));
    Made(PlaceAt(s.heap, s.value, Point(x, y)), s.value)
  }

  /** `new RegularPolygon()`: a hexagon with side 50 at the origin. Its constructor
      replaces the inherited position with a second new point, so here the position
      and the rotation centre are two points. */
  function NewPolygon(trig: Trig, h: Heap): (r: Made<Id>)
    ensures Valid(h) ==> Valid(r.heap) && r.value !in h.objs
    ensures r.value in r.heap.objs && PositionOf(r.heap, r.value) == Point(0, 0)
    ensures r.heap.objs[r.value].kind == Poly(6, 50, trig.radius(6, 50))
    ensures Valid(h) ==> r.heap.objs[r.value].center != r.heap.objs[r.value].pos
  {
    NewPolygonAt(trig, h, 0, 0, 6, 50)
  }

  /** `new RegularPolygon(x, y, sides, sideLength)`, with the radius computed from the
      sides and the side length. */
  function NewPolygonAt(trig: Trig, h: Heap, x: int, y: int, sides: int, sideLength: int): (r: Made<Id>)
    ensures Valid(h) ==> Valid(r.heap) && r.value !in h.objs
    ensures r.value in r.heap.objs && PositionOf(r.heap, r.value) == Point(x, y)
    ensures var o := r.heap.objs[r.value];
      o.kind == Poly(sides, sideLength, trig.radius(sides, sideLength))
      && o.fill == White && o.border == Black && o.rotation == 0
      && At(r.heap.pts, o.center) == Point(0, 0)
    ensures Valid(h) ==> r.heap.objs[r.value].center != r.heap.objs[r.value].pos
  {
    var s := NewShape(h, Poly(sides, sideLength, trig.radius(sides, sideLength)));
    Made(PlaceAt(s.heap, s.value, Point(x, y)), s.value)
  }

  /** `new ShapeGroup()`: an empty group whose position and rotation centre are one
      point at the origin. */
  function NewGroup(h: Heap): (r: Made<Id>)
    ensures Valid(h) ==> Valid(r.heap) && Extends(h, r.heap) && r.value !in h.objs
    ensures r.value in r.heap.objs && r.heap.objs[r.value].kind == Group([])
    ensures r.heap.objs[r.value].center == r.heap.objs[r.value].pos
    ensures PositionOf(r.heap, r.value) == Point(0, 0)
  {
    NewShape(h, Group([]))
  }

  /** `Shape.setRotation`, on a rectangle or polygon: the value is stored as given. */
  function SetOwnRotation(objs: Objs, id: Id, v: int): (r: Objs)
    requires id in objs
    ensures r.Keys == objs.Keys && RotationOf(r, id) == v
    ensures forall o | o in objs && o != id :: r[o] == objs[o]
    ensures r[id] == objs[id].(rotation := v)
  {
    objs[id := objs[id].(rotation := v)]
  }

  /** `Shape.setBorderColor`, which `ShapeGroup` does not override: only the shape
      itself changes, never its children. */
  function SetBorderColor(objs: Objs, id: Id, c: Color): (r: Objs)
    requires id in objs
    ensures r.Keys == objs.Keys && r[id].border == c
    ensures forall o | o in objs && o != id :: r[o] == objs[o]
    ensures r[id] == objs[id].(border := c)
  {
    objs[id := objs[id].(border := c)]
  }

  /** `Shape.setPosition(p)` with an existing point object: the shape now shares `p`. */
  function SetPosition(objs: Objs, id: Id, p: Ref): (r: Objs)
    requires id in objs
    ensures r.Keys == objs.Keys && r[id].pos == p
    ensures forall o | o in objs && o != id :: r[o] == objs[o]
    ensures r[id] == objs[id].(pos := p)
  {
    objs[id := objs[id].(pos := p)]
  }

  /** `Shape.setRotationCenter(p)` with an existing point object. */
  function SetRotationCenter(objs: Objs, id: Id, p: Ref): (r: Objs)
    requires id in objs
    ensures r.Keys == objs.Keys && r[id].center == p
    ensures forall o | o in objs && o != id :: r[o] == objs[o]
    ensures r[id] == objs[id].(center := p)
  {
    objs[id := objs[id].(center := p)]
  }

  predicate IsRect(objs: Objs, id: Id)
  {
    id in objs && objs[id].kind.Rect?
  }

  predicate IsPoly(objs: Objs, id: Id)
  {
    id in objs && objs[id].kind.Poly?
  }

  predicate IsGroup(objs: Objs, id: Id)
  {
    id in objs && objs[id].kind.Group?
  }

  /** `Rectangle.setWidth`: only the width changes. */
  function SetWidth(objs: Objs, id: Id, width: int): (r: Objs)
    requires IsRect(objs, id)
    ensures IsRect(r, id) && r.Keys == objs.Keys
    ensures r[id].kind == objs[id].kind.(width := width)
    ensures r[id] == objs[id].(kind := r[id].kind)
    ensures forall o | o in objs && o != id :: r[o] == objs[o]
  {
    objs[id := objs[id].(kind := objs[id].kind.(width := width))]
  }

  /** `Rectangle.setHeight`: only the height changes. */
  function SetHeight(objs: Objs, id: Id, height: int): (r: Objs)
    requires IsRect(objs, id)
    ensures IsRect(r, id) && r.Keys == objs.Keys
    ensures r[id].kind == objs[id].kind.(height := height)
    ensures r[id] == objs[id].(kind := r[id].kind)
    ensures forall o | o in objs && o != id :: r[o] == objs[o]
  {
    objs[id := objs[id].(kind := objs[id].kind.(height := height))]
  }

  /** `Rectangle.setCornerRadius`. */
  function SetCornerRadius(objs: Objs, id: Id, radius: real): (r: Objs)
    requires IsRect(objs, id)
    ensures IsRect(r, id) && r.Keys == objs.Keys
    ensures r[id].kind == objs[id].kind.(cornerRadius := radius)
    ensures r[id] == objs[id].(kind := r[id].kind)
    ensures forall o | o in objs && o != id :: r[o] == objs[o]
  {
    objs[id := objs[id].(kind := objs[id].kind.(cornerRadius := radius))]
  }

  /** The polygon invariant every constructor and setter re-establishes: the stored
      radius is the one computed from the sides and the side length. */
  predicate RadiusCurrent(trig: Trig, k: Kind)
    requires k.Poly?
  {
    k.radius == trig.radius(k.sides, k.sideLength)
  }

  /** `RegularPolygon.setNumberOfSides`: stores the count, then recomputes the radius. */
  function SetNumberOfSides(trig: Trig, objs: Objs, id: Id, sides: int): (r: Objs)
    requires IsPoly(objs, id)
    ensures IsPoly(r, id) && r.Keys == objs.Keys
    ensures r[id].kind.sides == sides && r[id].kind.sideLength == objs[id].kind.sideLength
    ensures RadiusCurrent(trig, r[id].kind)
    ensures r[id] == objs[id].(kind := r[id].kind)
    ensures forall o | o in objs && o != id :: r[o] == objs[o]
  {
    var k := objs[id].kind;
    objs[id := objs[id].(kind := Poly(sides, k.sideLength, trig.radius(sides, k.sideLength)))]
  }

  /** `RegularPolygon.setSideLength`: stores the length, then recomputes the radius. */
  function SetSideLength(trig: Trig, objs: Objs, id: Id, sideLength: int): (r: Objs)
    requires IsPoly(objs, id)
    ensures IsPoly(r, id) && r.Keys == objs.Keys
    ensures r[id].kind.sideLength == sideLength && r[id].kind.sides == objs[id].kind.sides
    ensures RadiusCurrent(trig, r[id].kind)
    ensures r[id] == objs[id].(kind := r[id].kind)
    ensures forall o | o in objs && o != id :: r[o] == objs[o]
  {
    var k := objs[id].kind;
    objs[id := objs[id].(kind := Poly(k.sides, sideLength, trig.radius(k.sides, sideLength)))]
  }

  /** The rectangle a `Rectangle` shape covers before rotation: its position and size. */
  function RectBox(h: Heap, id: Id): Box
    requires IsRect(h.objs, id)
  {
    var p := PositionOf(h, id);
    Box(p.x, p.y, h.objs[id].kind.width, h.objs[id].kind.height)
  }

  /** `Shape.contains`: the half-open rectangle test for a rectangle (its rotation is
      ignored), the polygon test for a polygon, and "some child contains it" for a
      group. */
  function Contains(trig: Trig, h: Heap, id: Id, p: Point): (r: bool)
    ensures IsRect(h.objs, id) ==>
      (r <==> var b := RectBox(h, id); b.x <= p.x < b.x + b.width && b.y <= p.y < b.y + b.height)
    ensures id !in h.objs ==> !r
    decreases id, 1
  {
    if id !in h.objs then false
    else
      var o := h.objs[id];
      match o.kind
      case Rect(w, hh, _) =>
        var at := At(h.pts, o.pos);
        HalfOpenContains(at.x, at.y, w, hh, p)
      case Poly(sides, _, radius) => trig.inPolygon(At(h.pts, o.pos), sides, radius, p)
      case Group(cs) => ContainsAny(trig, h, cs, id, p)
  }

  /** The loop of `ShapeGroup.contains`: true as soon as one child contains the point. */
  function ContainsAny(trig: Trig, h: Heap, cs: seq<Id>, bound: Id, p: Point): (r: bool)
    ensures r <==> exists i | 0 <= i < |cs| :: cs[i] < bound && Contains(trig, h, cs[i], p)
    decreases bound, 0, |cs|
  {
    if cs == [] then false
    else if cs[0] < bound && Contains(trig, h, cs[0], p) then true
    else
      var rest := ContainsAny(trig, h, cs[1..], bound, p);
      assert rest <==> exists i | 1 <= i < |cs| :: cs[i] < bound && Contains(trig, h, cs[i], p) by {
        forall i | 1 <= i < |cs| ensures cs[i] == cs[1..][i - 1] { }
        if rest {
          var j :| 0 <= j < |cs[1..]| && cs[1..][j] < bound && Contains(trig, h, cs[1..][j], p);
          assert cs[j + 1] == cs[1..][j];
        }
      }
      rest
  }

  /** An empty group contains no point. */
  lemma EmptyGroupContainsNothing(trig: Trig, h: Heap, id: Id, p: Point)
    requires id in h.objs && h.objs[id].kind == Group([])
    ensures !Contains(trig, h, id, p)
  {
  }

  /** `getGeometricCenter`: for a rectangle the position plus half the size, each half
      truncated toward zero as Java's `int` division does; for a polygon, and for a
      group (which inherits `Shape`'s version), the position itself. */
  function GeometricCenter(h: Heap, id: Id): (c: Point)
    requires id in h.objs
    ensures !IsRect(h.objs, id) ==> c == PositionOf(h, id)
    ensures IsRect(h.objs, id) ==>
      var k := h.objs[id].kind;
      var p := PositionOf(h, id);
      HalvedTowardZero(k.width, c.x - p.x) && HalvedTowardZero(k.height, c.y - p.y)
  {
    var p := PositionOf(h, id);
    match h.objs[id].kind
    case Rect(w, hh, _) =>
      HalfTruncates(w);
      HalfTruncates(hh);
      Point(p.x + Div(w, 2), p.y + Div(hh, 2))
    case _ => p
  }

  /** `half` is `n / 2` rounded toward zero: twice it falls short of `n` by at most one,
      on the side of zero. */
  predicate HalvedTowardZero(n: int, half: int)
  {
    (n >= 0 ==> 0 <= n - 2 * half <= 1) && (n < 0 ==> -1 <= n - 2 * half <= 0)
  }

  lemma HalfTruncates(n: int)
    ensures HalvedTowardZero(n, Div(n, 2))
  {
    if n < 0 {
      assert Div(n, 2) == -((-n) / 2);
    }
  }

  /** `Rectangle.intersects(other)`: `Rectangle2D.intersects` on the two unrotated
      rectangles. */
  function RectIntersects(h: Heap, a: Id, b: Id): (r: bool)
    requires IsRect(h.objs, a) && IsRect(h.objs, b)
    ensures h.objs[a].kind.width <= 0 || h.objs[a].kind.height <= 0 ==> !r
    ensures h.objs[b].kind.width <= 0 || h.objs[b].kind.height <= 0 ==> !r
  {
    Intersects(RectBox(h, a), RectBox(h, b))
  }

  /** Intersection of two rectangle shapes is symmetric. */
  lemma RectIntersectsSymmetric(h: Heap, a: Id, b: Id)
    requires IsRect(h.objs, a) && IsRect(h.objs, b)
    ensures RectIntersects(h, a, b) == RectIntersects(h, b, a)
  {
    IntersectsSymmetric(RectBox(h, a), RectBox(h, b));
  }

  /** `Point.equals`: identical objects, or two points with the same coordinates. */
  predicate PointEquals(pts: Pts, a: Ref, b: Ref)
  {
    a == b || At(pts, a) == At(pts, b)
  }

  /** `Point.hashCode`, `Objects.hash(x, y)`, which is `31 * (31 + x) + y` in wrapping
      32-bit arithmetic. */
  function PointHash(pts: Pts, a: Ref): (v: int)
    ensures -0x8000_0000 <= v < 0x8000_0000
    ensures (v - (961 + 31 * At(pts, a).x + At(pts, a).y)) % 0x1_0000_0000 == 0
  {
    var p := At(pts, a);
    Wrap32(961 + 31 * p.x + p.y)
  }

  /** Two's-complement wrap-around of Java `int` arithmetic. */
  function Wrap32(v: int): (w: int)
    ensures -0x8000_0000 <= w < 0x8000_0000
    ensures (w - v) % 0x1_0000_0000 == 0
  {
    var m := v % 0x1_0000_0000;
    if m >= 0x8000_0000 then m - 0x1_0000_0000 else m
  }

  /** `Point.equals` is coordinate equality, hence an equivalence, and `hashCode`
      agrees with it. */
  lemma PointEqualityIsCoordinates(pts: Pts, a: Ref, b: Ref, c: Ref)
    ensures PointEquals(pts, a, b) <==> At(pts, a) == At(pts, b)
    ensures PointEquals(pts, a, a)
    ensures PointEquals(pts, a, b) ==> PointEquals(pts, b, a)
    ensures PointEquals(pts, a, b) && PointEquals(pts, b, c) ==> PointEquals(pts, a, c)
    ensures PointEquals(pts, a, b) ==> PointHash(pts, a) == PointHash(pts, b)
  {
  }

  /** The smallest x among the positions of `cs`: the loop of `updateGroupPosition`,
      which starts from `Integer.MAX_VALUE`, on a non-empty list. */
  function MinX(h: Heap, cs: seq<Id>): (m: int)
    requires |cs| > 0
    ensures forall i | 0 <= i < |cs| :: m <= PositionOf(h, cs[i]).x
    ensures exists i | 0 <= i < |cs| :: m == PositionOf(h, cs[i]).x
  {
    if |cs| == 1 then PositionOf(h, cs[0]).x
    else
      var rest := MinX(h, cs[1..]);
      assert forall i | 1 <= i < |cs| :: cs[i] == cs[1..][i - 1];
      assert exists i | 0 <= i < |cs| :: Min(PositionOf(h, cs[0]).x, rest) == PositionOf(h, cs[i]).x by {
        var j :| 0 <= j < |cs[1..]| && rest == PositionOf(h, cs[1..][j]).x;
        assert cs[j + 1] == cs[1..][j];
      }
      Min(PositionOf(h, cs[0]).x, rest)
  }

  /** The smallest y among the positions of `cs`. */
  function MinY(h: Heap, cs: seq<Id>): (m: int)
    requires |cs| > 0
    ensures forall i | 0 <= i < |cs| :: m <= PositionOf(h, cs[i]).y
    ensures exists i | 0 <= i < |cs| :: m == PositionOf(h, cs[i]).y
  {
    if |cs| == 1 then PositionOf(h, cs[0]).y
    else
      var rest := MinY(h, cs[1..]);
      assert forall i | 1 <= i < |cs| :: cs[i] == cs[1..][i - 1];
      assert exists i | 0 <= i < |cs| :: Min(PositionOf(h, cs[0]).y, rest) == PositionOf(h, cs[i]).y by {
        var j :| 0 <= j < |cs[1..]| && rest == PositionOf(h, cs[1..][j]).y;
        assert cs[j + 1] == cs[1..][j];
      }
      Min(PositionOf(h, cs[0]).y, rest)
  }

  /** `ShapeGroup.getShapes`: the child list (a copy, which a value sequence is). */
  function GetShapes(objs: Objs, g: Id): seq<Id>
  {
    if g in objs then Children(objs[g]) else []
  }

  /** The group's position is the corner made of the smallest child x and y. */
  predicate Anchored(h: Heap, g: Id)
  {
    var cs := GetShapes(h.objs, g);
    |cs| > 0 ==> PositionOf(h, g) == Point(MinX(h, cs), MinY(h, cs))
  }

  /** `ShapeGroup.updateGroupPosition`: nothing for an empty group; otherwise a new
      point at the smallest child x and y becomes the group's position. */
  function UpdateGroupPosition(h: Heap, g: Id): (r: Heap)
    requires IsGroup(h.objs, g)
    ensures IsGroup(r.objs, g) && GetShapes(r.objs, g) == GetShapes(h.objs, g)
    ensures Valid(h) ==> Anchored(r, g)
    ensures GetShapes(h.objs, g) == [] ==> r == h
    ensures OnlyChanged(h.objs, r.objs, g) && r.objs[g] == h.objs[g].(pos := r.objs[g].pos)
    ensures Valid(h) ==> Valid(r) && forall q | q in h.pts :: q in r.pts && r.pts[q] == h.pts[q]
  {
    var cs := GetShapes(h.objs, g);
    if cs == [] then h
    else
      var r := PlaceAt(h, g, Point(MinX(h, cs), MinY(h, cs)));
      assert Valid(h) ==> Anchored(r, g) by {
        if Valid(h) {
          forall c | c in cs ensures PositionOf(r, c) == PositionOf(h, c) {
            PlaceAtKeepsOthers(h, g, Point(MinX(h, cs), MinY(h, cs)), c);
          }
          MinSame(h, r, cs);
        }
      }
      r
  }

  /** Installing a new position point for `g` leaves every other shape where it was. */
  lemma PlaceAtKeepsOthers(h: Heap, g: Id, p: Point, c: Id)
    requires Valid(h) && g in h.objs && c != g
    ensures PositionOf(PlaceAt(h, g, p), c) == PositionOf(h, c)
  {
  }

  /** The smallest coordinates depend only on the children's positions. */
  lemma {:induction false} MinSame(h1: Heap, h2: Heap, cs: seq<Id>)
    requires |cs| > 0
    requires forall c | c in cs :: PositionOf(h2, c) == PositionOf(h1, c)
    ensures MinX(h2, cs) == MinX(h1, cs) && MinY(h2, cs) == MinY(h1, cs)
  {
    if |cs| > 1 {
      assert forall c | c in cs[1..] :: c in cs;
      MinSame(h1, h2, cs[1..]);
    }
  }

  /** The group with its child list replaced by `cs`; the heap stays valid when every
      new child is an existing, older shape. */
  function WithChildren(h: Heap, g: Id, cs: seq<Id>): (r: Heap)
    requires IsGroup(h.objs, g)
    ensures IsGroup(r.objs, g) && GetShapes(r.objs, g) == cs
    ensures OnlyChanged(h.objs, r.objs, g) && r.objs[g] == h.objs[g].(kind := Group(cs))
    ensures r.pts == h.pts && r.next == h.next
    ensures (Valid(h) && forall c | c in cs :: c in h.objs && c < g) ==> Valid(r)
  {
    h.(objs := h.objs[g := h.objs[g].(kind := Group(cs))])
  }

  /** `ShapeGroup.addShape`: the child goes to the end of the list, then the anchor is
      recomputed. */
  function AddShape(h: Heap, g: Id, s: Id): (r: Heap)
    requires IsGroup(h.objs, g)
    ensures IsGroup(r.objs, g) && GetShapes(r.objs, g) == GetShapes(h.objs, g) + [s]
    ensures OnlyChanged(h.objs, r.objs, g)
    ensures r.objs[g] == h.objs[g].(kind := r.objs[g].kind, pos := r.objs[g].pos)
    ensures (Valid(h) && s in h.objs && s < g) ==>
      Valid(r) && Anchored(r, g) && r.next >= h.next
      && forall q | q in h.pts :: q in r.pts && r.pts[q] == h.pts[q]
  {
    var cs := GetShapes(h.objs, g) + [s];
    var h1 := WithChildren(h, g, cs);
    assert (Valid(h) && s in h.objs && s < g) ==> forall c | c in cs :: c in h.objs && c < g by {
      if Valid(h) && s in h.objs && s < g {
        assert forall c | c in GetShapes(h.objs, g) :: c in h.objs && c < g;
      }
    }
    UpdateGroupPosition(h1, g)
  }

  /** `ShapeGroup.removeShape`: the first occurrence goes; the anchor is recomputed,
      except that a group left empty keeps its previous position. */
  function RemoveShape(h: Heap, g: Id, s: Id): (r: Heap)
    requires IsGroup(h.objs, g)
    ensures IsGroup(r.objs, g) && GetShapes(r.objs, g) == RemoveFirst(GetShapes(h.objs, g), s)
    ensures GetShapes(r.objs, g) == [] ==> PositionOf(r, g) == PositionOf(h, g)
    ensures OnlyChanged(h.objs, r.objs, g)
    ensures Valid(h) ==> Valid(r) && Anchored(r, g)
  {
    var cs := RemoveFirst(GetShapes(h.objs, g), s);
    var h1 := WithChildren(h, g, cs);
    assert Valid(h) ==> forall c | c in cs :: c in h.objs && c < g by {
      if Valid(h) {
        assert forall c | c in GetShapes(h.objs, g) :: c in h.objs && c < g;
        RemoveFirstWithin(GetShapes(h.objs, g), s);
      }
    }
    UpdateGroupPosition(h1, g)
  }
}
