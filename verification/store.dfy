/** The editor's object graph. Java shapes and `Shape.Point`s are mutable objects that
    the code shares by reference (a shape's position and rotation centre may be one
    `Point`, a memento may hand its own `Point` to a shape, a group and the board hold
    the same child objects), so the model keeps them in a heap: shapes under an `Id`,
    points under a `Ref`, and one counter `next` that supplies fresh identities for
    both. A shape's `Id` stands for its object identity and for its random UUID `id`:
    `Shape` never overrides `equals`, so `List.remove`, `List.contains` and the
    `HashMap` keys in the commands all compare identities. */
module Store {
  import opened Geometry
  import opened JavaLang

  type Id = nat
  type Ref = nat

  /** `java.awt.Color`, as opaque constants. */
  datatype Color = White | Black | Blue | Green | Custom(rgb: int)

  /** The subclass of `Shape` and its own fields. */
  datatype Kind =
    | Rect(width: int, height: int, cornerRadius: real)
    | Poly(sides: int, sideLength: int, radius: int)
    | Group(children: seq<Id>)

  /** The fields of `Shape`: `position` and `rotationCenter` are references to points;
      `rotation` is a whole number of degrees. */
  datatype Obj = Obj(pos: Ref, fill: Color, border: Color, rotation: int, center: Ref, kind: Kind)

  type Objs = map<Id, Obj>
  type Pts = map<Ref, Point>

  datatype Heap = Heap(objs: Objs, pts: Pts, next: nat)

  /** A value together with the heap its allocation produced. */
  datatype Made<T> = Made(heap: Heap, value: T)

  function Children(o: Obj): seq<Id>
  {
    if o.kind.Group? then o.kind.children else []
  }

  /** The heap the editor can build: every identity was handed out by `next`, every
      shape's points exist, and every child is an existing shape older than its group.
      The last clause is what makes a group hierarchy a finite tree-shaped graph. */
  predicate Valid(h: Heap)
  {
    (forall o | o in h.objs :: o < h.next)
    && (forall r | r in h.pts :: r < h.next)
    && (forall o | o in h.objs :: h.objs[o].pos in h.pts && h.objs[o].center in h.pts)
    && (forall o | o in h.objs :: forall c | c in Children(h.objs[o]) :: c in h.objs && c < o)
  }

  /** Reading through a point reference; an absent point reads as the origin. */
  function At(pts: Pts, r: Ref): Point
  {
    if r in pts then pts[r] else Point(0, 0)
  }

  /** The position of shape `id`. */
  function PositionOf(h: Heap, id: Id): Point
  {
    if id in h.objs then At(h.pts, h.objs[id].pos) else Point(0, 0)
  }

  function RotationOf(objs: Objs, id: Id): int
  {
    if id in objs then objs[id].rotation else 0
  }

  /** `new Point(p.x, p.y)`: a point object no one else refers to. */
  function NewPoint(h: Heap, p: Point): (r: Made<Ref>)
    ensures r.heap.objs == h.objs && r.heap.pts.Keys == h.pts.Keys + {r.value}
    ensures r.heap.pts[r.value] == p
    ensures Valid(h) ==> r.value !in h.pts && Valid(r.heap) && Extends(h, r.heap)
  {
    var r := h.next;
    Made(Heap(h.objs, h.pts[r := p], h.next + 1), r)
  }

  /** A new shape object whose fields are `o`. */
  function NewObj(h: Heap, o: Obj): (r: Made<Id>)
    ensures r.heap.objs == h.objs[r.value := o] && r.heap.pts == h.pts
    ensures Valid(h) ==> r.value !in h.objs && Extends(h, r.heap)
    ensures (Valid(h) && o.pos in h.pts && o.center in h.pts
             && forall c | c in Children(o) :: c in h.objs) ==> Valid(r.heap)
  {
    Made(Heap(h.objs[h.next := o], h.pts, h.next + 1), h.next)
  }

  /** `b` differs from `a` at most in the object `g`. */
  predicate OnlyChanged(a: Objs, b: Objs, g: Id)
  {
    a.Keys == b.Keys && forall o | o in a && o != g :: b[o] == a[o]
  }

  /** `h2` grew from `h1` by allocation only: old objects and points are untouched, and
      everything new carries an identity at or above `h1.next`. */
  predicate Extends(h1: Heap, h2: Heap)
  {
    h1.next <= h2.next
    && (forall o | o in h1.objs :: o in h2.objs && h2.objs[o] == h1.objs[o])
    && (forall r | r in h1.pts :: r in h2.pts && h2.pts[r] == h1.pts[r])
    && (forall o | o in h2.objs && o !in h1.objs :: o >= h1.next)
    && (forall r | r in h2.pts && r !in h1.pts :: r >= h1.next)
  }

  lemma ExtendsTransitive(h1: Heap, h2: Heap, h3: Heap)
    requires Extends(h1, h2) && Extends(h2, h3)
    ensures Extends(h1, h3)
  {
  }

  /** The order in which a recursive traversal of shape `id` (`ShapeGroup.move`,
      `setFillColor`, `setRotation`) visits objects: each child's walk in list order,
      then the shape itself. A child shared twice is walked twice. */
  function Walk(objs: Objs, id: Id): (w: seq<Id>)
    ensures forall i | 0 <= i < |w| :: w[i] in objs && w[i] <= id
    ensures id in objs ==> |w| > 0 && w[|w| - 1] == id
    ensures id !in objs ==> w == []
    decreases id, 1
  {
    if id !in objs then []
    else WalkKids(objs, Children(objs[id]), id) + [id]
  }

  /** The walks of those children below `bound`, concatenated. */
  function WalkKids(objs: Objs, cs: seq<Id>, bound: Id): (w: seq<Id>)
    ensures forall i | 0 <= i < |w| :: w[i] in objs && w[i] < bound
    decreases bound, 0, |cs|
  {
    if cs == [] then []
    else (if cs[0] < bound then Walk(objs, cs[0]) else []) + WalkKids(objs, cs[1..], bound)
  }

  /** The walks of several top-level shapes, one after another. */
  function WalkAll(objs: Objs, ts: seq<Id>): (w: seq<Id>)
    ensures forall i | 0 <= i < |w| :: w[i] in objs
  {
    if ts == [] then [] else Walk(objs, ts[0]) + WalkAll(objs, ts[1..])
  }

  /** How many objects on `w` have `r` as their position point. */
  function Hits(objs: Objs, w: seq<Id>, r: Ref): (n: nat)
    ensures n <= |w|
  {
    if w == [] then 0
    else (if w[0] in objs && objs[w[0]].pos == r then 1 else 0) + Hits(objs, w[1..], r)
  }

  lemma {:induction false} HitsAppend(objs: Objs, a: seq<Id>, b: seq<Id>, r: Ref)
    ensures Hits(objs, a + b, r) == Hits(objs, a, r) + Hits(objs, b, r)
  {
    if a != [] {
      assert (a + b)[0] == a[0];
      assert (a + b)[1..] == a[1..] + b;
      HitsAppend(objs, a[1..], b, r);
    } else {
      assert a + b == b;
    }
  }

  lemma {:induction false} WalkAllAppend(objs: Objs, a: seq<Id>, b: seq<Id>)
    ensures WalkAll(objs, a + b) == WalkAll(objs, a) + WalkAll(objs, b)
  {
    if a != [] {
      assert (a + b)[0] == a[0];
      assert (a + b)[1..] == a[1..] + b;
      WalkAllAppend(objs, a[1..], b);
      assert WalkAll(objs, a + b) == Walk(objs, a[0]) + WalkAll(objs, a[1..] + b);
    } else {
      assert a + b == b;
    }
  }

  /** Two object tables with the same shapes and the same child lists. */
  predicate SameTree(a: Objs, b: Objs)
  {
    a.Keys == b.Keys && forall o | o in a :: Children(b[o]) == Children(a[o])
  }

  /** A walk depends on nothing but the shapes and their child lists. */
  lemma {:induction false} WalkSameTree(a: Objs, b: Objs, id: Id)
    requires SameTree(a, b)
    ensures Walk(b, id) == Walk(a, id)
    decreases id, 1
  {
    if id in a {
      WalkKidsSameTree(a, b, Children(a[id]), id);
    }
  }

  lemma {:induction false} WalkKidsSameTree(a: Objs, b: Objs, cs: seq<Id>, bound: Id)
    requires SameTree(a, b)
    ensures WalkKids(b, cs, bound) == WalkKids(a, cs, bound)
    decreases bound, 0, |cs|
  {
    if cs != [] {
      if cs[0] < bound {
        WalkSameTree(a, b, cs[0]);
      }
      WalkKidsSameTree(a, b, cs[1..], bound);
    }
  }

  lemma {:induction false} WalkAllSameTree(a: Objs, b: Objs, ts: seq<Id>)
    requires SameTree(a, b)
    ensures WalkAll(b, ts) == WalkAll(a, ts)
  {
    if ts != [] {
      WalkSameTree(a, b, ts[0]);
      WalkAllSameTree(a, b, ts[1..]);
    }
  }

  /** Growing the heap by allocation does not change the walk of an old shape. */
  lemma {:induction false} WalkExtends(h1: Heap, h2: Heap, id: Id)
    requires Valid(h1) && Extends(h1, h2) && id in h1.objs
    ensures Walk(h2.objs, id) == Walk(h1.objs, id)
    decreases id, 1
  {
    WalkKidsExtends(h1, h2, Children(h1.objs[id]), id);
  }

  lemma {:induction false} WalkKidsExtends(h1: Heap, h2: Heap, cs: seq<Id>, bound: Id)
    requires Valid(h1) && Extends(h1, h2)
    requires forall c | c in cs :: c in h1.objs
    ensures WalkKids(h2.objs, cs, bound) == WalkKids(h1.objs, cs, bound)
    decreases bound, 0, |cs|
  {
    if cs != [] {
      assert cs[0] in cs;
      if cs[0] < bound {
        WalkExtends(h1, h2, cs[0]);
      }
      WalkKidsExtends(h1, h2, cs[1..], bound);
    }
  }

  /** In a valid heap a shape is visited exactly once by its own walk, at the end. */
  lemma WalkEndsWithSelf(objs: Objs, id: Id)
    requires id in objs
    ensures Occurrences(Walk(objs, id), id) == 1
  {
    var w := Walk(objs, id);
    var kids := WalkKids(objs, Children(objs[id]), id);
    assert w == kids + [id];
    assert id !in kids;
    assert multiset(w) == multiset(kids) + multiset{id};
    OccurrencesCount(w, id);
  }
}
