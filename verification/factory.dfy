/** `ShapeFactory` and `PropertyEditor`: the creators the toolbar uses, the property
    setters of the edit dialog, and `ShapeMemento`, which captures a shape's position,
    colours and rotation and puts them back. */
module Factory {
  import opened JavaLang
  import opened Geometry
  import opened Store
  import opened Shapes
  import opened Motion
  import opened Cloning

  // ------------------------------------------------------------ ShapeFactory

  /** `createRectangle()`: the class default, untouched. */
  function CreateRectangle(h: Heap): (r: Made<Id>)
    requires Valid(h)
    ensures Valid(r.heap) && r.value !in h.objs && r.value in r.heap.objs
    ensures var o := r.heap.objs[r.value];
      o.kind == Rect(100, 50, 0.0) && o.fill == White && o.border == Black && o.rotation == 0
      && PositionOf(r.heap, r.value) == Point(0, 0)
  {
    var s := NewRectangle(h);
    s
  }

  /** `createRectangle(x, y, width, height)`: a rectangle at (x, y) of that size,
      filled blue. */
  function CreateRectangleAt(h: Heap, x: int, y: int, width: int, height: int): (r: Made<Id>)
    requires Valid(h)
    ensures Valid(r.heap) && r.value !in h.objs && r.value in r.heap.objs
    ensures var o := r.heap.objs[r.value];
      o.kind == Rect(width, height, 0.0) && o.fill == Blue && o.border == Black && o.rotation == 0
      && PositionOf(r.heap, r.value) == Point(x, y)
  {
    var s := NewRectangleAt(h, x, y, width, height);
    Made(FillNew(s.heap, s.value, Blue), s.value)
  }

  /** `createRegularPolygon()`: the class default hexagon, untouched. */
  function CreatePolygon(trig: Trig, h: Heap): (r: Made<Id>)
    requires Valid(h)
    ensures Valid(r.heap) && r.value !in h.objs && r.value in r.heap.objs
    ensures var o := r.heap.objs[r.value];
      o.kind == Poly(6, 50, trig.radius(6, 50)) && o.fill == White && o.border == Black
      && o.rotation == 0 && PositionOf(r.heap, r.value) == Point(0, 0)
  {
    var s := NewPolygonAt(trig, h, 0, 0, 6, 50);
    s
  }

  /** `createRegularPolygon(x, y, sides, sideLength)`: a polygon at (x, y), filled
      green, its radius computed from the sides and the side length. */
  function CreatePolygonAt(trig: Trig, h: Heap, x: int, y: int, sides: int, sideLength: int): (r: Made<Id>)
    requires Valid(h)
    ensures Valid(r.heap) && r.value !in h.objs && r.value in r.heap.objs
    ensures var o := r.heap.objs[r.value];
      o.kind == Poly(sides, sideLength, trig.radius(sides, sideLength)) && RadiusCurrent(trig, o.kind)
      && o.fill == Green && o.border == Black && o.rotation == 0
      && PositionOf(r.heap, r.value) == Point(x, y)
  {
    var s := NewPolygonAt(trig, h, x, y, sides, sideLength);
    Made(FillNew(s.heap, s.value, Green), s.value)
  }

  /** On a rectangle or polygon, `setFillColor` changes that shape's fill only. */
  function FillNew(h: Heap, id: Id, c: Color): (r: Heap)
    requires Valid(h) && id in h.objs && !h.objs[id].kind.Group?
    ensures Valid(r) && r.pts == h.pts && r.objs == h.objs[id := h.objs[id].(fill := c)]
  {
    assert Walk(h.objs, id) == [id];
    var r := h.(objs := SetFillColor(h.objs, id, c));
    FramesKeepValid(h, r.objs);
    r
  }

  /** Changing only colours, rotations or which existing point is the position keeps
      a heap well formed. */
  lemma FramesKeepValid(h: Heap, objs: Objs)
    requires Valid(h) && objs.Keys == h.objs.Keys
    requires forall o | o in h.objs ::
      Children(objs[o]) == Children(h.objs[o]) && objs[o].pos in h.pts && objs[o].center in h.pts
    ensures Valid(h.(objs := objs))
  {
  }

  /** `cloneShape`: a copy with a new id and the original's value. */
  function CloneShape(h: Heap, id: Id): (r: Made<Id>)
    requires Valid(h) && id in h.objs
    ensures Valid(r.heap) && CopyOf(r.heap, r.value, h, id) && r.value != id
  {
    Clone(h, id)
  }

  // ---------------------------------------------------------- PropertyEditor

  /** `setPosition(shape, x, y)`: a new point at (x, y) becomes the position; nothing
      else about the shape, nor any existing point, changes. */
  function EditPosition(h: Heap, id: Id, x: int, y: int): (r: Heap)
    requires Valid(h) && id in h.objs
    ensures Valid(r) && PositionOf(r, id) == Point(x, y)
    ensures OnlyChanged(h.objs, r.objs, id) && r.objs[id] == h.objs[id].(pos := r.objs[id].pos)
    ensures forall q | q in h.pts :: q in r.pts && r.pts[q] == h.pts[q]
  {
    PlaceAt(h, id, Point(x, y))
  }

  /** `setColor(shape, fill, border)`: both colours of the shape; a group passes the
      fill, but not the border, on to everything below it. */
  function EditColor(objs: Objs, id: Id, fill: Color, border: Color): (r: Objs)
    requires id in objs
    ensures r.Keys == objs.Keys && r[id].fill == fill && r[id].border == border
    ensures forall o | o in objs && o != id ::
      r[o] == objs[o].(fill := if o in Walk(objs, id) then fill else objs[o].fill)
    ensures r[id] == objs[id].(fill := fill, border := border)
  {
    var filled := SetFillColor(objs, id, fill);
    WalkEndsWithSelf(objs, id);
    SetBorderColor(filled, id, border)
  }

  /** `setRotation(shape, rotation)`: the shape's `setRotation`. */
  function EditRotation(objs: Objs, id: Id, v: int): (r: Objs)
    requires id in objs
    ensures OnlyRotations(objs, r) && RotationOf(r, id) == v
  {
    SetRotationLands(objs, id, v);
    SetRotation(objs, id, v)
  }

  /** `setRectangleProperties`: width, height and corner radius, nothing else. */
  function EditRectangle(objs: Objs, id: Id, width: int, height: int, corner: real): (r: Objs)
    requires IsRect(objs, id)
    ensures IsRect(r, id) && OnlyChanged(objs, r, id)
    ensures r[id] == objs[id].(kind := Rect(width, height, corner))
  {
    SetCornerRadius(SetHeight(SetWidth(objs, id, width), id, height), id, corner)
  }

  /** `setPolygonProperties`: sides and side length, with the radius recomputed. */
  function EditPolygon(trig: Trig, objs: Objs, id: Id, sides: int, sideLength: int): (r: Objs)
    requires IsPoly(objs, id)
    ensures IsPoly(r, id) && OnlyChanged(objs, r, id)
    ensures r[id].kind.sides == sides && r[id].kind.sideLength == sideLength
    ensures RadiusCurrent(trig, r[id].kind)
    ensures r[id] == objs[id].(kind := r[id].kind)
  {
    SetSideLength(trig, SetNumberOfSides(trig, objs, id, sides), id, sideLength)
  }

  // ------------------------------------------------------------ ShapeMemento

  /** `ShapeMemento`: its own copy of the position point, both colours, the rotation. */
  datatype Memento = Memento(position: Ref, fill: Color, border: Color, rotation: int)

  /** `new ShapeMemento(shape)`: the position is copied into a new point. */
  function CreateMemento(h: Heap, id: Id): (r: Made<Memento>)
    requires Valid(h) && id in h.objs
    ensures Valid(r.heap) && Extends(h, r.heap) && r.heap.objs == h.objs
    ensures r.value.position !in h.pts && r.value.position in r.heap.pts
    ensures r.heap.pts[r.value.position] == PositionOf(h, id)
    ensures var o := h.objs[id];
      r.value.fill == o.fill && r.value.border == o.border && r.value.rotation == o.rotation
  {
    var o := h.objs[id];
    var p := NewPoint(h, PositionOf(h, id));
    Made(p.heap, Memento(p.value, o.fill, o.border, o.rotation))
  }

  /** `restore(shape)`: the shape takes the memento's own point as its position, then
      the colours through its setters, then the rotation. */
  function RestoreMemento(h: Heap, m: Memento, id: Id): (r: Heap)
    requires id in h.objs
    ensures r.pts == h.pts && r.next == h.next && r.objs.Keys == h.objs.Keys
    ensures r.objs[id].pos == m.position && r.objs[id].fill == m.fill
    ensures r.objs[id].border == m.border && r.objs[id].rotation == m.rotation
    ensures SameFrames(h.objs, r.objs, id)
  {
    Heap(RestoreObjs(h.objs, m, id), h.pts, h.next)
  }

  /** Every shape keeps its kind, its children and its rotation centre, and every
      shape but `id` its position. */
  predicate SameFrames(a: Objs, b: Objs, id: Id)
  {
    a.Keys == b.Keys
    && forall o | o in a :: b[o].kind == a[o].kind && b[o].center == a[o].center
         && (o != id ==> b[o].pos == a[o].pos)
  }

  function RestoreObjs(objs: Objs, m: Memento, id: Id): (r: Objs)
    requires id in objs
    ensures r.Keys == objs.Keys && r[id].pos == m.position && r[id].fill == m.fill
    ensures r[id].border == m.border && r[id].rotation == m.rotation
    ensures SameFrames(objs, r, id)
  {
    var placed := SetPosition(objs, id, m.position);
    var filled := FillOwn(placed, id, m.fill);
    var bordered := SetBorderColor(filled, id, m.border);
    var r := RotateOwn(bordered, id, m.rotation);
    FramesCompose(objs, placed, filled, bordered, r, id);
    r
  }

  /** `setFillColor` as the memento uses it: fills only, and the shape's own fill lands. */
  function FillOwn(objs: Objs, id: Id, c: Color): (r: Objs)
    requires id in objs
    ensures OnlyFills(objs, r) && r[id].fill == c
  {
    WalkEndsWithSelf(objs, id);
    SetFillColor(objs, id, c)
  }

  /** `setRotation` as the memento uses it: rotations only, and the shape's own lands. */
  function RotateOwn(objs: Objs, id: Id, v: int): (r: Objs)
    requires id in objs
    ensures OnlyRotations(objs, r) && r[id].rotation == v
  {
    SetRotationLands(objs, id, v);
    SetRotation(objs, id, v)
  }

  lemma FramesCompose(a: Objs, b: Objs, c: Objs, d: Objs, e: Objs, id: Id)
    requires a.Keys == b.Keys && forall o | o in a && o != id :: b[o] == a[o]
    requires id in a && b[id] == a[id].(pos := b[id].pos)
    requires OnlyFills(b, c)
    requires c.Keys == d.Keys && forall o | o in c && o != id :: d[o] == c[o]
    requires id in c && d[id] == c[id].(border := d[id].border)
    requires OnlyRotations(d, e)
    ensures SameFrames(a, e, id)
  {
  }

  /** Restoring from a memento whose point exists keeps the heap well formed. */
  lemma RestoreKeepsValid(h: Heap, m: Memento, id: Id)
    requires Valid(h) && id in h.objs && m.position in h.pts
    ensures Valid(RestoreMemento(h, m, id))
  {
    var r := RestoreMemento(h, m, id);
    SameFramesKeepValid(h, r.objs, id);
    assert r == h.(objs := r.objs);
  }

  lemma SameFramesKeepValid(h: Heap, objs: Objs, id: Id)
    requires Valid(h) && SameFrames(h.objs, objs, id) && id in objs && objs[id].pos in h.pts
    ensures Valid(h.(objs := objs))
  {
    forall o | o in h.objs
      ensures Children(objs[o]) == Children(h.objs[o]) && objs[o].pos in h.pts && objs[o].center in h.pts
    {
    }
    FramesKeepValid(h, objs);
  }

  /** For a rectangle or polygon, restoring a memento brings back exactly the four
      captured values, whatever was changed in between, and changes nothing else of
      the shape. */
  lemma RestoreBringsBack(h: Heap, id: Id, h2: Heap)
    requires Valid(h) && id in h.objs && !h.objs[id].kind.Group?
    requires var m := CreateMemento(h, id);
      id in h2.objs && m.value.position in h2.pts
      && h2.pts[m.value.position] == m.heap.pts[m.value.position]
    ensures var m := CreateMemento(h, id).value; var o := h.objs[id];
      var r := RestoreMemento(h2, m, id);
      && PositionOf(r, id) == PositionOf(h, id)
      && r.objs[id] == h2.objs[id].(pos := m.position, fill := o.fill, border := o.border, rotation := o.rotation)
  {
  }

  /** The memento hands its own point to the shape, so moving the shape afterwards
      moves the memento's point too: a second restore puts the shape where it was
      moved to, not where it was when the memento was made. */
  lemma RestoreSharesPoint(h: Heap, id: Id, dx: int, dy: int)
    requires Valid(h) && id in h.objs && !h.objs[id].kind.Group?
    ensures var m := CreateMemento(h, id);
      var once := RestoreMemento(m.heap, m.value, id);
      var moved := Move(once, id, dx, dy);
      var twice := RestoreMemento(moved, m.value, id);
      PositionOf(twice, id) == Translate(PositionOf(h, id), dx, dy)
  {
    var m := CreateMemento(h, id);
    var once := RestoreMemento(m.heap, m.value, id);
    RestoreKeepsValid(m.heap, m.value, id);
    MoveLeaf(once, id, dx, dy);
  }
}
