/** Deep copies: the copy constructors behind `Rectangle.clone`, `RegularPolygon.clone`
    and `ShapeGroup.clone`. What a copy must agree with its original on is stated
    through `Snapshot`, the value a shape denotes once every reference is followed:
    its coordinates, colours, rotation, size fields and, for a group, its children's
    values in order. Identities are exactly what a snapshot leaves out. */
module Cloning {
  import opened JavaLang
  import opened Geometry
  import opened Store
  import opened Motion

  datatype Form =
    | RectForm(width: int, height: int, cornerRadius: real)
    | PolyForm(sides: int, sideLength: int, radius: int)
    | GroupForm(children: seq<Value>)

  /** A shape with every reference replaced by what it refers to. */
  datatype Value = Value(position: Point, fill: Color, border: Color, rotation: int, center: Point, form: Form)

  /** The value of shape `id`; children are followed under the same guard as `Walk`. */
  function Snapshot(objs: Objs, pts: Pts, id: Id): Value
    requires id in objs
    decreases id, 1
  {
    var o := objs[id];
    Value(At(pts, o.pos), o.fill, o.border, o.rotation, At(pts, o.center),
      match o.kind
      case Rect(w, ht, cr) => RectForm(w, ht, cr)
      case Poly(n, l, rad) => PolyForm(n, l, rad)
      case Group(cs) => GroupForm(SnapKids(objs, pts, cs, id)))
  }

  function SnapKids(objs: Objs, pts: Pts, cs: seq<Id>, bound: Id): seq<Value>
    decreases bound, 0, |cs|
  {
    if cs == [] then []
    else
      (if cs[0] < bound && cs[0] in objs then [Snapshot(objs, pts, cs[0])] else [])
      + SnapKids(objs, pts, cs[1..], bound)
  }

  /** Every object on the walk of `id`, and every point those objects refer to, was
      allocated at or after `n`: the tree shares nothing with anything older. */
  predicate Fresh(h: Heap, id: Id, n: nat)
  {
    forall o | o in Walk(h.objs, id) :: o >= n && h.objs[o].pos >= n && h.objs[o].center >= n
  }

  /** Object `o` of `h1` and its two points read the same in `objs2` and `pts2`. */
  predicate Unchanged(h1: Heap, objs2: Objs, pts2: Pts, o: Id)
    requires o in h1.objs
  {
    o in objs2 && objs2[o] == h1.objs[o]
    && At(pts2, h1.objs[o].pos) == At(h1.pts, h1.objs[o].pos)
    && At(pts2, h1.objs[o].center) == At(h1.pts, h1.objs[o].center)
  }

  /** A snapshot reads only the objects on the shape's walk and their two points. */
  lemma {:induction false} SnapshotAgree(h1: Heap, objs2: Objs, pts2: Pts, id: Id)
    requires Valid(h1) && id in h1.objs
    requires forall o | o in Walk(h1.objs, id) :: Unchanged(h1, objs2, pts2, o)
    ensures id in objs2 && Snapshot(objs2, pts2, id) == Snapshot(h1.objs, h1.pts, id)
    decreases id, 1
  {
    var w := Walk(h1.objs, id);
    assert w[|w| - 1] == id;
    assert Unchanged(h1, objs2, pts2, id);
    var cs := Children(h1.objs[id]);
    assert w == WalkKids(h1.objs, cs, id) + [id];
    SnapKidsAgree(h1, objs2, pts2, cs, id);
    assert Children(objs2[id]) == cs;
  }

  lemma {:induction false} SnapKidsAgree(h1: Heap, objs2: Objs, pts2: Pts, cs: seq<Id>, bound: Id)
    requires Valid(h1) && forall c | c in cs :: c in h1.objs
    requires forall o | o in WalkKids(h1.objs, cs, bound) :: Unchanged(h1, objs2, pts2, o)
    ensures SnapKids(objs2, pts2, cs, bound) == SnapKids(h1.objs, h1.pts, cs, bound)
    decreases bound, 0, |cs|
  {
    if cs != [] {
      assert cs[0] in cs;
      var w0 := if cs[0] < bound then Walk(h1.objs, cs[0]) else [];
      assert WalkKids(h1.objs, cs, bound) == w0 + WalkKids(h1.objs, cs[1..], bound);
      if cs[0] < bound {
        SnapshotAgree(h1, objs2, pts2, cs[0]);
      }
      SnapKidsAgree(h1, objs2, pts2, cs[1..], bound);
    }
  }

  /** Allocation leaves the snapshot of an existing shape alone. */
  lemma SnapshotExtends(h1: Heap, h2: Heap, id: Id)
    requires Valid(h1) && Extends(h1, h2) && id in h1.objs
    ensures id in h2.objs && Snapshot(h2.objs, h2.pts, id) == Snapshot(h1.objs, h1.pts, id)
  {
    SnapshotAgree(h1, h2.objs, h2.pts, id);
  }

  /** Allocation leaves a fresh tree fresh. */
  lemma FreshExtends(h1: Heap, h2: Heap, id: Id, n: nat)
    requires Valid(h1) && Extends(h1, h2) && id in h1.objs && Fresh(h1, id, n)
    ensures Fresh(h2, id, n)
  {
    WalkExtends(h1, h2, id);
  }

  /** An object on the walks of a child list lies on the walk of one of the children. */
  lemma {:induction false} OnSomeKidWalk(objs: Objs, cs: seq<Id>, bound: Id, o: Id)
    requires o in WalkKids(objs, cs, bound)
    ensures exists i | 0 <= i < |cs| :: o in Walk(objs, cs[i])
    decreases |cs|
  {
    var w0 := if cs[0] < bound then Walk(objs, cs[0]) else [];
    assert WalkKids(objs, cs, bound) == w0 + WalkKids(objs, cs[1..], bound);
    if o !in w0 {
      OnSomeKidWalk(objs, cs[1..], bound, o);
      var i :| 0 <= i < |cs[1..]| && o in Walk(objs, cs[1..][i]);
      assert cs[1..][i] == cs[i + 1];
    }
  }

  /** Shape `k` of `h2` is a copy of shape `id` of `h1`: a new object, with the same
      value, sharing nothing with `h1`. */
  predicate CopyOf(h2: Heap, k: Id, h1: Heap, id: Id)
  {
    id in h1.objs && k in h2.objs && k !in h1.objs && Fresh(h2, k, h1.next)
    && Snapshot(h2.objs, h2.pts, k) == Snapshot(h1.objs, h1.pts, id)
  }

  /** A copy stays a copy while the heap only grows. */
  lemma CopyExtends(h2: Heap, h3: Heap, k: Id, h1: Heap, id: Id)
    requires Valid(h2) && Extends(h2, h3) && CopyOf(h2, k, h1, id)
    ensures CopyOf(h3, k, h1, id)
  {
    SnapshotExtends(h2, h3, k);
    FreshExtends(h2, h3, k, h1.next);
  }

  /** `new Rectangle(other)`, `new RegularPolygon(other)`, `new ShapeGroup(other)`,
      reached through `clone()`. The base copy constructor allocates a new position
      point, then a new rotation-centre point, and mints a new id; a polygon then
      replaces its position by yet another new point at the same coordinates; a group
      clones each child in order into a new list without recomputing its own position.
      The result has the original's value, shares no object or point with anything
      that existed before, and keeps position and rotation centre apart even when the
      original shared them. */
  function Clone(h: Heap, id: Id): (r: Made<Id>)
    requires Valid(h) && id in h.objs
    ensures Valid(r.heap) && Extends(h, r.heap) && CopyOf(r.heap, r.value, h, id)
    ensures r.heap.objs[r.value].pos != r.heap.objs[r.value].center
    decreases id, 1
  {
    var o := h.objs[id];
    var p := NewPoint(h, At(h.pts, o.pos));
    var c := NewPoint(p.heap, At(h.pts, o.center));
    ExtendsTransitive(h, p.heap, c.heap);
    match o.kind
    case Rect(_, _, _) => CloneLeaf(h, id, c.heap, p.value, c.value)
    case Poly(_, _, _) =>
      var q := NewPoint(c.heap, At(h.pts, o.pos));
      ExtendsTransitive(h, c.heap, q.heap);
      CloneLeaf(h, id, q.heap, q.value, c.value)
    case Group(cs) =>
      assert forall k | k in cs :: k in c.heap.objs && k < id;
      var ks := CloneKids(c.heap, cs, id);
      ExtendsTransitive(h, c.heap, ks.heap);
      CopiesOlder(c.heap, ks.heap, ks.value, h, cs);
      CloneGroup(h, id, ks.heap, p.value, c.value, ks.value)
  }

  /** Copies of the shapes of `h1` made from a later heap `h2` are copies relative to
      `h1` too. */
  lemma CopiesOlder(h2: Heap, h3: Heap, ks: seq<Id>, h1: Heap, cs: seq<Id>)
    requires Valid(h1) && Extends(h1, h2) && |ks| == |cs|
    requires forall c | c in cs :: c in h1.objs
    requires forall i | 0 <= i < |ks| :: CopyOf(h3, ks[i], h2, cs[i])
    ensures forall i | 0 <= i < |ks| :: CopyOf(h3, ks[i], h1, cs[i])
  {
    forall i | 0 <= i < |ks| ensures CopyOf(h3, ks[i], h1, cs[i]) {
      assert cs[i] in cs;
      SnapshotExtends(h1, h2, cs[i]);
      FreshWeaker(h3, ks[i], h2.next, h1.next);
    }
  }

  /** The last step of copying a rectangle or polygon: a new object with the original's
      fields and the two new points. */
  function CloneLeaf(h: Heap, id: Id, h1: Heap, pos: Ref, center: Ref): (r: Made<Id>)
    requires Valid(h) && id in h.objs && !h.objs[id].kind.Group?
    requires Valid(h1) && Extends(h, h1) && pos != center
    requires pos in h1.pts && pos >= h.next && h1.pts[pos] == At(h.pts, h.objs[id].pos)
    requires center in h1.pts && center >= h.next && h1.pts[center] == At(h.pts, h.objs[id].center)
    ensures Valid(r.heap) && Extends(h, r.heap) && CopyOf(r.heap, r.value, h, id)
    ensures r.heap.objs[r.value].pos != r.heap.objs[r.value].center
  {
    var r := NewObj(h1, h.objs[id].(pos := pos, center := center));
    ExtendsTransitive(h, h1, r.heap);
    LeafCopied(h, id, r.heap, r.value);
    r
  }

  /** A new leaf object holding the source's value, on points of its own that read
      what the source's points read, is a copy of it. */
  lemma LeafCopied(h: Heap, id: Id, h2: Heap, k: Id)
    requires id in h.objs && !h.objs[id].kind.Group?
    requires k in h2.objs && k !in h.objs && k >= h.next
    requires var o := h2.objs[k];
      && o == h.objs[id].(pos := o.pos, center := o.center)
      && o.pos >= h.next && o.center >= h.next
      && At(h2.pts, o.pos) == At(h.pts, h.objs[id].pos)
      && At(h2.pts, o.center) == At(h.pts, h.objs[id].center)
    ensures CopyOf(h2, k, h, id)
  {
    assert Walk(h2.objs, k) == [k];
  }

  /** The last step of copying a group: a new group object holding the copied children. */
  function CloneGroup(h: Heap, id: Id, h1: Heap, pos: Ref, center: Ref, ks: seq<Id>): (r: Made<Id>)
    requires Valid(h) && id in h.objs && h.objs[id].kind.Group?
    requires Valid(h1) && Extends(h, h1) && pos != center
    requires pos in h1.pts && pos >= h.next && h1.pts[pos] == At(h.pts, h.objs[id].pos)
    requires center in h1.pts && center >= h.next && h1.pts[center] == At(h.pts, h.objs[id].center)
    requires |ks| == |Children(h.objs[id])|
    requires forall i | 0 <= i < |ks| :: CopyOf(h1, ks[i], h, Children(h.objs[id])[i])
    ensures Valid(r.heap) && Extends(h, r.heap) && CopyOf(r.heap, r.value, h, id)
    ensures r.heap.objs[r.value].pos != r.heap.objs[r.value].center
  {
    assert forall k | k in ks :: k in h1.objs by {
      forall k | k in ks ensures k in h1.objs {
        var i :| 0 <= i < |ks| && ks[i] == k;
        assert CopyOf(h1, ks[i], h, Children(h.objs[id])[i]);
      }
    }
    var r := NewObj(h1, h.objs[id].(pos := pos, center := center, kind := Group(ks)));
    ExtendsTransitive(h, h1, r.heap);
    GroupCopy(h, id, h1, ks, r.heap, r.value);
    r
  }

  lemma GroupCopy(h: Heap, id: Id, h1: Heap, ks: seq<Id>, h2: Heap, g: Id)
    requires Valid(h) && id in h.objs && h.objs[id].kind.Group?
    requires Valid(h1) && Extends(h, h1) && Valid(h2) && Extends(h1, h2)
    requires |ks| == |Children(h.objs[id])|
    requires forall i | 0 <= i < |ks| :: CopyOf(h1, ks[i], h, Children(h.objs[id])[i])
    requires g == h1.next && g in h2.objs && Children(h2.objs[g]) == ks
    requires h2.objs[g].pos >= h.next && h2.objs[g].center >= h.next
    requires At(h2.pts, h2.objs[g].pos) == At(h.pts, h.objs[id].pos)
    requires At(h2.pts, h2.objs[g].center) == At(h.pts, h.objs[id].center)
    requires h2.objs[g] == h.objs[id].(pos := h2.objs[g].pos, center := h2.objs[g].center, kind := Group(ks))
    ensures CopyOf(h2, g, h, id)
  {
    var cs := Children(h.objs[id]);
    forall i | 0 <= i < |ks| ensures CopyOf(h2, ks[i], h, cs[i]) {
      CopyExtends(h1, h2, ks[i], h, cs[i]);
    }
    KidsCopiedSnapshot(h, id, h2, g);
    KidsCopiedFresh(h, h2, g);
  }

  lemma KidsCopiedSnapshot(h: Heap, id: Id, h2: Heap, g: Id)
    requires Valid(h) && id in h.objs && g in h2.objs && g >= h.next
    requires |Children(h2.objs[g])| == |Children(h.objs[id])|
    requires forall i | 0 <= i < |Children(h2.objs[g])| ::
      CopyOf(h2, Children(h2.objs[g])[i], h, Children(h.objs[id])[i]) && Children(h2.objs[g])[i] < g
    requires h2.objs[g] == h.objs[id].(pos := h2.objs[g].pos, center := h2.objs[g].center, kind := h2.objs[g].kind)
    requires h.objs[id].kind.Group? && h2.objs[g].kind.Group?
    requires At(h2.pts, h2.objs[g].pos) == At(h.pts, h.objs[id].pos)
    requires At(h2.pts, h2.objs[g].center) == At(h.pts, h.objs[id].center)
    ensures Snapshot(h2.objs, h2.pts, g) == Snapshot(h.objs, h.pts, id)
  {
    var cs := Children(h.objs[id]);
    var ks := Children(h2.objs[g]);
    assert forall c | c in cs :: c in h.objs && c < id;
    assert forall i | 0 <= i < |ks| :: Snapshot(h2.objs, h2.pts, ks[i]) == Snapshot(h.objs, h.pts, cs[i]) by {
      forall i | 0 <= i < |ks| ensures Snapshot(h2.objs, h2.pts, ks[i]) == Snapshot(h.objs, h.pts, cs[i]) {
        assert CopyOf(h2, ks[i], h, cs[i]);
      }
    }
    SnapKidsMatch(h2, ks, g, h, cs, id);
  }

  lemma KidsCopiedFresh(h: Heap, h2: Heap, g: Id)
    requires g in h2.objs && g >= h.next
    requires h2.objs[g].pos >= h.next && h2.objs[g].center >= h.next
    requires forall i | 0 <= i < |Children(h2.objs[g])| :: Fresh(h2, Children(h2.objs[g])[i], h.next)
    ensures Fresh(h2, g, h.next)
  {
    var ks := Children(h2.objs[g]);
    forall o | o in Walk(h2.objs, g)
      ensures o >= h.next && h2.objs[o].pos >= h.next && h2.objs[o].center >= h.next
    {
      assert Walk(h2.objs, g) == WalkKids(h2.objs, ks, g) + [g];
      if o != g {
        OnSomeKidWalk(h2.objs, ks, g, o);
      }
    }
  }

  /** Child lists whose members have, one for one, equal snapshots, and all of which
      pass the traversal guard, have equal snapshots. */
  lemma {:induction false} SnapKidsMatch(h2: Heap, ks: seq<Id>, b2: Id, h1: Heap, cs: seq<Id>, b1: Id)
    requires |ks| == |cs|
    requires forall i | 0 <= i < |ks| :: ks[i] in h2.objs && ks[i] < b2
    requires forall c | c in cs :: c in h1.objs && c < b1
    requires forall i | 0 <= i < |ks| :: Snapshot(h2.objs, h2.pts, ks[i]) == Snapshot(h1.objs, h1.pts, cs[i])
    ensures SnapKids(h2.objs, h2.pts, ks, b2) == SnapKids(h1.objs, h1.pts, cs, b1)
    decreases |ks|
  {
    if ks != [] {
      assert cs[0] in cs;
      assert forall c | c in cs[1..] :: c in cs;
      SnapKidsMatch(h2, ks[1..], b2, h1, cs[1..], b1);
    }
  }

  /** The loop of `new ShapeGroup(other)`: `shapes.add(shape.clone())` for each child,
      in order. */
  function CloneKids(h: Heap, cs: seq<Id>, bound: Id): (r: Made<seq<Id>>)
    requires Valid(h) && forall c | c in cs :: c in h.objs && c < bound
    ensures Valid(r.heap) && Extends(h, r.heap) && |r.value| == |cs|
    ensures forall i | 0 <= i < |cs| :: CopyOf(r.heap, r.value[i], h, cs[i])
    decreases bound, 0, |cs|
  {
    if cs == [] then Made(h, [])
    else
      assert cs[0] in cs;
      var first := Clone(h, cs[0]);
      assert forall c | c in cs[1..] :: c in cs;
      var rest := CloneKids(first.heap, cs[1..], bound);
      ExtendsTransitive(h, first.heap, rest.heap);
      CopyExtends(first.heap, rest.heap, first.value, h, cs[0]);
      CopiesOlder(first.heap, rest.heap, rest.value, h, cs[1..]);
      ConsCopies(rest.heap, first.value, rest.value, h, cs);
      Made(rest.heap, [first.value] + rest.value)
  }

  lemma ConsCopies(h2: Heap, k: Id, ks: seq<Id>, h1: Heap, cs: seq<Id>)
    requires |cs| == |ks| + 1
    requires CopyOf(h2, k, h1, cs[0])
    requires forall i | 0 <= i < |ks| :: CopyOf(h2, ks[i], h1, cs[1..][i])
    ensures forall i | 0 <= i < |cs| :: CopyOf(h2, ([k] + ks)[i], h1, cs[i])
  {
    forall i | 0 <= i < |cs| ensures CopyOf(h2, ([k] + ks)[i], h1, cs[i]) {
      if i > 0 {
        assert ([k] + ks)[i] == ks[i - 1] && cs[i] == cs[1..][i - 1];
      }
    }
  }

  lemma FreshWeaker(h: Heap, id: Id, n: nat, m: nat)
    requires Fresh(h, id, n) && m <= n
    ensures Fresh(h, id, m)
  {
  }

  /** The copying loop of `new ApplicationMemento(shapes)` and of `DeleteCommand`'s
      constructor: one clone per listed shape, in list order. */
  function CloneAll(h: Heap, ts: seq<Id>): (r: Made<seq<Id>>)
    requires Valid(h) && forall t | t in ts :: t in h.objs
    ensures Valid(r.heap) && Extends(h, r.heap) && |r.value| == |ts|
    ensures forall i | 0 <= i < |ts| :: CopyOf(r.heap, r.value[i], h, ts[i])
  {
    CloneKids(h, ts, h.next)
  }

  /** The walk of a shape that existed in `h0` reaches only objects and points older
      than `h0.next`, however the heap has grown since. */
  lemma OldWalk(h0: Heap, h: Heap, t: Id)
    requires Valid(h0) && Extends(h0, h) && t in h0.objs
    ensures forall i | 0 <= i < |Walk(h.objs, t)| ::
      Walk(h.objs, t)[i] < h0.next && h.objs[Walk(h.objs, t)[i]].pos < h0.next
      && h.objs[Walk(h.objs, t)[i]].center < h0.next
  {
    WalkExtends(h0, h, t);
  }

  /** Moving a shape that existed before a copy was taken leaves the copy's value alone:
      the copy shares no point with it. */
  lemma CopyIgnoresMove(h0: Heap, h: Heap, k: Id, id0: Id, t: Id, dx: int, dy: int)
    requires Valid(h0) && Valid(h) && Extends(h0, h) && CopyOf(h, k, h0, id0) && t in h0.objs
    ensures Snapshot(Move(h, t, dx, dy).objs, Move(h, t, dx, dy).pts, k) == Snapshot(h.objs, h.pts, k)
  {
    var m := Move(h, t, dx, dy);
    MoveSparesCopy(h0, h, k, id0, t, dx, dy);
    SnapshotAgree(h, m.objs, m.pts, k);
  }

  lemma MoveSparesCopy(h0: Heap, h: Heap, k: Id, id0: Id, t: Id, dx: int, dy: int)
    requires Valid(h0) && Valid(h) && Extends(h0, h) && CopyOf(h, k, h0, id0) && t in h0.objs
    ensures var m := Move(h, t, dx, dy);
      forall o | o in Walk(h.objs, k) :: o in h.objs && Unchanged(h, m.objs, m.pts, o)
  {
    var m := Move(h, t, dx, dy);
    OldWalk(h0, h, t);
    forall o | o in Walk(h.objs, k) ensures o in h.objs && Unchanged(h, m.objs, m.pts, o) {
      assert o in h.objs && h.objs[o].pos >= h0.next && h.objs[o].center >= h0.next;
      MoveSparesPoint(h0, h, t, dx, dy, h.objs[o].pos);
      MoveSparesPoint(h0, h, t, dx, dy, h.objs[o].center);
    }
  }

  /** A point allocated after `t`'s tree does not move with it. */
  lemma MoveSparesPoint(h0: Heap, h: Heap, t: Id, dx: int, dy: int, p: Ref)
    requires Valid(h0) && Valid(h) && Extends(h0, h) && t in h0.objs && p >= h0.next
    ensures At(Move(h, t, dx, dy).pts, p) == At(h.pts, p)
  {
    var w := Walk(h.objs, t);
    OldWalk(h0, h, t);
    HitsNone(h.objs, w, p);
    MoveShifts(h, t, dx, dy);
  }

  /** Rotating a shape that existed before a copy was taken leaves the copy's value
      alone. */
  lemma CopyIgnoresRotation(h0: Heap, h: Heap, k: Id, id0: Id, t: Id, v: int)
    requires Valid(h0) && Valid(h) && Extends(h0, h) && CopyOf(h, k, h0, id0) && t in h0.objs
    ensures Snapshot(SetRotation(h.objs, t, v), h.pts, k) == Snapshot(h.objs, h.pts, k)
  {
    var objs2 := SetRotation(h.objs, t, v);
    OldWalk(h0, h, t);
    forall o | o in Walk(h.objs, k) ensures Unchanged(h, objs2, h.pts, o) {
      assert o in h.objs && o !in Walk(h.objs, t);
      SetRotationElsewhere(h.objs, t, v, o);
    }
    SnapshotAgree(h, objs2, h.pts, k);
  }

  /** Recolouring a shape that existed before a copy was taken leaves the copy's value
      alone. */
  lemma CopyIgnoresFill(h0: Heap, h: Heap, k: Id, id0: Id, t: Id, c: Color)
    requires Valid(h0) && Valid(h) && Extends(h0, h) && CopyOf(h, k, h0, id0) && t in h0.objs
    ensures Snapshot(SetFillColor(h.objs, t, c), h.pts, k) == Snapshot(h.objs, h.pts, k)
  {
    var objs2 := SetFillColor(h.objs, t, c);
    OldWalk(h0, h, t);
    forall o | o in Walk(h.objs, k) ensures Unchanged(h, objs2, h.pts, o) {
      assert o !in Walk(h.objs, t);
    }
    SnapshotAgree(h, objs2, h.pts, k);
  }
}
