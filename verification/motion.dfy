/** The recursive mutators of a shape hierarchy: `move`, `setRotation` and
    `setFillColor`. `ShapeGroup` overrides each to visit its children in list order and
    then call the inherited version on itself, so each is a traversal of the shape's
    walk (see `Store.Walk`). Every contract below says what the traversal adds up to,
    object by object or point by point. */
module Motion {
  import opened JavaLang
  import opened Geometry
  import opened Store
  import opened Shapes

  /** `p` moved `k` times by (dx, dy). */
  function Shifted(p: Point, k: nat, dx: int, dy: int): Point
    decreases k
  {
    if k == 0 then p else Translate(Shifted(p, k - 1, dx, dy), dx, dy)
  }

  /** `k` moves by (dx, dy) add up to one move by (k * dx, k * dy). */
  lemma {:induction false} ShiftedIs(p: Point, k: nat, dx: int, dy: int)
    ensures Shifted(p, k, dx, dy) == Point(p.x + k * dx, p.y + k * dy)
  {
    if k > 0 {
      ShiftedIs(p, k - 1, dx, dy);
      assert (k - 1) * dx + dx == k * dx && (k - 1) * dy + dy == k * dy;
    }
  }

  lemma ShiftedAdd(p: Point, j: nat, k: nat, dx: int, dy: int)
    ensures Shifted(Shifted(p, j, dx, dy), k, dx, dy) == Shifted(p, j + k, dx, dy)
    ensures Shifted(p, 0, dx, dy) == p
  {
    ShiftedIs(p, j, dx, dy);
    ShiftedIs(Shifted(p, j, dx, dy), k, dx, dy);
    ShiftedIs(p, j + k, dx, dy);
    assert j * dx + k * dx == (j + k) * dx;
    assert j * dy + k * dy == (j + k) * dy;
  }

  lemma ShiftedCancel(p: Point, k: nat, dx: int, dy: int)
    ensures Shifted(Shifted(p, k, dx, dy), k, -dx, -dy) == p
  {
    ShiftedIs(p, k, dx, dy);
    ShiftedIs(Shifted(p, k, dx, dy), k, -dx, -dy);
    assert k * dx + k * -dx == 0 && k * dy + k * -dy == 0;
  }

  lemma ShiftedSplit(p: Point, k: nat, dx1: int, dy1: int, dx2: int, dy2: int)
    ensures Shifted(Shifted(p, k, dx1, dy1), k, dx2, dy2) == Shifted(p, k, dx1 + dx2, dy1 + dy2)
  {
    ShiftedIs(p, k, dx1, dy1);
    ShiftedIs(Shifted(p, k, dx1, dy1), k, dx2, dy2);
    ShiftedIs(p, k, dx1 + dx2, dy1 + dy2);
    assert k * dx1 + k * dx2 == k * (dx1 + dx2) && k * dy1 + k * dy2 == k * (dy1 + dy2);
  }

  /** `position.x += dx; position.y += dy` on the point object `r`. */
  function Shift(pts: Pts, r: Ref, dx: int, dy: int): (q: Pts)
    ensures q.Keys == pts.Keys
  {
    if r in pts then pts[r := Translate(pts[r], dx, dy)] else pts
  }

  /** The point table after `move(dx, dy)` on shape `id`: for a group, every child is
      moved first, in list order; then the shape's own position point is shifted. */
  function MovePts(objs: Objs, pts: Pts, id: Id, dx: int, dy: int): (r: Pts)
    ensures r.Keys == pts.Keys
    decreases id, 1
  {
    if id !in objs then pts
    else Shift(MoveKidPts(objs, pts, Children(objs[id]), id, dx, dy), objs[id].pos, dx, dy)
  }

  /** The loop of `ShapeGroup.move` over the children older than the group. */
  function MoveKidPts(objs: Objs, pts: Pts, cs: seq<Id>, bound: Id, dx: int, dy: int): (r: Pts)
    ensures r.Keys == pts.Keys
    decreases bound, 0, |cs|
  {
    if cs == [] then pts
    else
      var first := if cs[0] < bound then MovePts(objs, pts, cs[0], dx, dy) else pts;
      MoveKidPts(objs, first, cs[1..], bound, dx, dy)
  }

  /** Shifting the point object `r` shifts that point once and no other. */
  lemma ShiftShifts(pts: Pts, r: Ref, dx: int, dy: int)
    ensures forall s | s in pts :: Shift(pts, r, dx, dy)[s] == Shifted(pts[s], if s == r then 1 else 0, dx, dy)
  {
  }

  /** Each point ends up shifted once for every object on the walk that has it as its
      position, so a point shared by two shapes moves twice. */
  lemma {:induction false} MovePtsShifts(objs: Objs, pts: Pts, id: Id, dx: int, dy: int)
    ensures var r := MovePts(objs, pts, id, dx, dy);
      forall q | q in pts :: r[q] == Shifted(pts[q], Hits(objs, Walk(objs, id), q), dx, dy)
    decreases id, 1
  {
    if id in objs {
      var kids := Children(objs[id]);
      var mid := MoveKidPts(objs, pts, kids, id, dx, dy);
      var r := Shift(mid, objs[id].pos, dx, dy);
      MoveKidPtsShifts(objs, pts, kids, id, dx, dy);
      ShiftShifts(mid, objs[id].pos, dx, dy);
      forall q | q in pts
        ensures r[q] == Shifted(pts[q], Hits(objs, Walk(objs, id), q), dx, dy)
      {
        var w := WalkKids(objs, kids, id);
        HitsAppend(objs, w, [id], q);
        assert Walk(objs, id) == w + [id];
        ShiftedAdd(pts[q], Hits(objs, w, q), if q == objs[id].pos then 1 else 0, dx, dy);
      }
    }
  }

  /** The same for the children loop: each point is shifted once per hit on the
      children's walks. */
  lemma {:induction false} MoveKidPtsShifts(objs: Objs, pts: Pts, cs: seq<Id>, bound: Id, dx: int, dy: int)
    ensures var r := MoveKidPts(objs, pts, cs, bound, dx, dy);
      forall q | q in pts :: r[q] == Shifted(pts[q], Hits(objs, WalkKids(objs, cs, bound), q), dx, dy)
    decreases bound, 0, |cs|
  {
    if cs != [] {
      var first := if cs[0] < bound then MovePts(objs, pts, cs[0], dx, dy) else pts;
      var r := MoveKidPts(objs, first, cs[1..], bound, dx, dy);
      if cs[0] < bound {
        MovePtsShifts(objs, pts, cs[0], dx, dy);
      }
      MoveKidPtsShifts(objs, first, cs[1..], bound, dx, dy);
      forall q | q in pts
        ensures r[q] == Shifted(pts[q], Hits(objs, WalkKids(objs, cs, bound), q), dx, dy)
      {
        var w0 := if cs[0] < bound then Walk(objs, cs[0]) else [];
        var w1 := WalkKids(objs, cs[1..], bound);
        HitsAppend(objs, w0, w1, q);
        ShiftedAdd(pts[q], Hits(objs, w0, q), Hits(objs, w1, q), dx, dy);
      }
    }
  }

  /** `Shape.move(dx, dy)` (overridden by `ShapeGroup.move`). Only point objects change;
      no shape field, not even which point a shape refers to, is touched. */
  function Move(h: Heap, id: Id, dx: int, dy: int): (r: Heap)
    ensures r.objs == h.objs && r.next == h.next && r.pts.Keys == h.pts.Keys
    ensures Valid(h) ==> Valid(r)
  {
    h.(pts := MovePts(h.objs, h.pts, id, dx, dy))
  }

  /** `move` shifts each point once per object on the shape's walk that has it as its
      position. */
  lemma MoveShifts(h: Heap, id: Id, dx: int, dy: int)
    ensures var r := Move(h, id, dx, dy);
      forall q | q in h.pts :: r.pts[q] == Shifted(h.pts[q], Hits(h.objs, Walk(h.objs, id), q), dx, dy)
  {
    MovePtsShifts(h.objs, h.pts, id, dx, dy);
  }

  /** `MoveShifts` at one point. */
  lemma MoveShiftsAt(h: Heap, id: Id, dx: int, dy: int, q: Ref)
    requires q in h.pts
    ensures var r := Move(h, id, dx, dy);
      q in r.pts && r.pts[q] == Shifted(h.pts[q], Hits(h.objs, Walk(h.objs, id), q), dx, dy)
  {
    MoveShifts(h, id, dx, dy);
  }

  /** `shapes.forEach(shape -> shape.move(dx, dy))`, as `MoveCommand` and the drag
      preview do it: only point objects change. */
  function MoveEach(h: Heap, ts: seq<Id>, dx: int, dy: int): (r: Heap)
    ensures r.objs == h.objs && r.next == h.next && r.pts.Keys == h.pts.Keys
    ensures Valid(h) ==> Valid(r)
  {
    h.(pts := MoveEachPts(h.objs, h.pts, ts, dx, dy))
  }

  /** The point table after moving each of `ts` in turn. */
  function MoveEachPts(objs: Objs, pts: Pts, ts: seq<Id>, dx: int, dy: int): (r: Pts)
    ensures r.Keys == pts.Keys
    decreases |ts|
  {
    if ts == [] then pts
    else MoveEachPts(objs, MovePts(objs, pts, ts[0], dx, dy), ts[1..], dx, dy)
  }

  /** Every point ends up shifted once for every object on the targets' walks that has
      it as its position. */
  lemma MoveEachPoints(h: Heap, ts: seq<Id>, dx: int, dy: int)
    ensures var r := MoveEach(h, ts, dx, dy);
      forall q | q in h.pts :: r.pts[q] == Shifted(h.pts[q], Hits(h.objs, WalkAll(h.objs, ts), q), dx, dy)
  {
    MoveEachPtsShifts(h.objs, h.pts, ts, dx, dy);
  }

  lemma {:induction false} MoveEachPtsShifts(objs: Objs, pts: Pts, ts: seq<Id>, dx: int, dy: int)
    ensures var r := MoveEachPts(objs, pts, ts, dx, dy);
      forall q | q in pts :: r[q] == Shifted(pts[q], Hits(objs, WalkAll(objs, ts), q), dx, dy)
    decreases |ts|
  {
    if ts != [] {
      var first := MovePts(objs, pts, ts[0], dx, dy);
      var r := MoveEachPts(objs, first, ts[1..], dx, dy);
      MovePtsShifts(objs, pts, ts[0], dx, dy);
      MoveEachPtsShifts(objs, first, ts[1..], dx, dy);
      assert WalkAll(objs, ts) == Walk(objs, ts[0]) + WalkAll(objs, ts[1..]);
      ComposeShifts(objs, pts, first, r, Walk(objs, ts[0]), WalkAll(objs, ts[1..]), dx, dy);
    }
  }

  /** Shifting by the hits of `w0` and then by the hits of `w1` is shifting by the
      hits of `w0 + w1`. */
  lemma ComposeShifts(objs: Objs, p0: Pts, p1: Pts, p2: Pts, w0: seq<Id>, w1: seq<Id>, dx: int, dy: int)
    requires p1.Keys == p0.Keys && p2.Keys == p0.Keys
    requires forall q | q in p0 :: p1[q] == Shifted(p0[q], Hits(objs, w0, q), dx, dy)
    requires forall q | q in p1 :: p2[q] == Shifted(p1[q], Hits(objs, w1, q), dx, dy)
    ensures forall q | q in p0 :: p2[q] == Shifted(p0[q], Hits(objs, w0 + w1, q), dx, dy)
  {
    forall q | q in p0 ensures p2[q] == Shifted(p0[q], Hits(objs, w0 + w1, q), dx, dy) {
      HitsAppend(objs, w0, w1, q);
      ShiftedAdd(p0[q], Hits(objs, w0, q), Hits(objs, w1, q), dx, dy);
    }
  }

  /** Two heaps with the same shapes and the same point identities, where every point
      of the second is the first's shifted `k(q)` times by (dx, dy), then `k(q)` times
      by (-dx, -dy), are equal. */
  lemma PointsReturn(h: Heap, r: Heap)
    requires r.objs == h.objs && r.next == h.next && r.pts.Keys == h.pts.Keys
    requires forall q | q in h.pts :: r.pts[q] == h.pts[q]
    ensures r == h
  {
    assert r.pts == h.pts;
  }

  /** `move(dx, dy)` then `move(-dx, -dy)` puts every point back, whatever the sharing
      of points between shapes. */
  lemma MoveRoundTrip(h: Heap, id: Id, dx: int, dy: int)
    ensures Move(Move(h, id, dx, dy), id, -dx, -dy) == h
  {
    var h1 := Move(h, id, dx, dy);
    var r := Move(h1, id, -dx, -dy);
    forall q | q in h.pts ensures r.pts[q] == h.pts[q] {
      MoveShiftsAt(h, id, dx, dy, q);
      MoveShiftsAt(h1, id, -dx, -dy, q);
      ShiftedCancel(h.pts[q], Hits(h.objs, Walk(h.objs, id), q), dx, dy);
    }
    PointsReturn(h, r);
  }

  /** Moving a list of shapes and moving it back restores every point. */
  lemma MoveEachRoundTrip(h: Heap, ts: seq<Id>, dx: int, dy: int)
    ensures MoveEach(MoveEach(h, ts, dx, dy), ts, -dx, -dy) == h
  {
    var r := MoveEach(MoveEach(h, ts, dx, dy), ts, -dx, -dy);
    MoveEachPoints(h, ts, dx, dy);
    MoveEachPoints(MoveEach(h, ts, dx, dy), ts, -dx, -dy);
    forall q | q in h.pts ensures r.pts[q] == h.pts[q] {
      ShiftedCancel(h.pts[q], Hits(h.objs, WalkAll(h.objs, ts), q), dx, dy);
    }
    PointsReturn(h, r);
  }

  /** Two moves of the same list add up to one move by the summed offsets. */
  lemma MoveEachCompose(h: Heap, ts: seq<Id>, dx1: int, dy1: int, dx2: int, dy2: int, dx: int, dy: int)
    requires dx == dx1 + dx2 && dy == dy1 + dy2
    ensures MoveEach(MoveEach(h, ts, dx1, dy1), ts, dx2, dy2) == MoveEach(h, ts, dx, dy)
  {
    var mid := MoveEach(h, ts, dx1, dy1);
    var a := MoveEach(mid, ts, dx2, dy2);
    var b := MoveEach(h, ts, dx, dy);
    MoveEachPoints(h, ts, dx1, dy1);
    MoveEachPoints(mid, ts, dx2, dy2);
    MoveEachPoints(h, ts, dx, dy);
    ComposeOffsets(h.objs, WalkAll(h.objs, ts), h.pts, mid.pts, a.pts, b.pts, dx1, dy1, dx2, dy2, dx, dy);
  }

  /** `MoveEachCompose` on the point table alone. */
  lemma MoveEachPtsCompose(objs: Objs, pts: Pts, ts: seq<Id>, dx1: int, dy1: int, dx2: int, dy2: int, dx: int, dy: int)
    requires dx == dx1 + dx2 && dy == dy1 + dy2
    ensures MoveEachPts(objs, MoveEachPts(objs, pts, ts, dx1, dy1), ts, dx2, dy2) == MoveEachPts(objs, pts, ts, dx, dy)
  {
    MoveEachCompose(Heap(objs, pts, 0), ts, dx1, dy1, dx2, dy2, dx, dy);
  }

  /** Moving a list of shapes by nothing leaves the point table alone. */
  lemma MoveEachPtsZero(objs: Objs, pts: Pts, ts: seq<Id>)
    ensures MoveEachPts(objs, pts, ts, 0, 0) == pts
  {
    var h := Heap(objs, pts, 0);
    MoveEachRoundTrip(h, ts, 0, 0);
    MoveEachCompose(h, ts, 0, 0, 0, 0, 0, 0);
  }

  lemma ComposeOffsets(objs: Objs, w: seq<Id>, p0: Pts, p1: Pts, p2: Pts, p3: Pts,
                       dx1: int, dy1: int, dx2: int, dy2: int, dx: int, dy: int)
    requires dx == dx1 + dx2 && dy == dy1 + dy2
    requires p1.Keys == p0.Keys && p2.Keys == p0.Keys && p3.Keys == p0.Keys
    requires forall q | q in p0 :: p1[q] == Shifted(p0[q], Hits(objs, w, q), dx1, dy1)
    requires forall q | q in p1 :: p2[q] == Shifted(p1[q], Hits(objs, w, q), dx2, dy2)
    requires forall q | q in p0 :: p3[q] == Shifted(p0[q], Hits(objs, w, q), dx, dy)
    ensures p2 == p3
  {
    forall q | q in p0 ensures p2[q] == p3[q] {
      ShiftedSplit(p0[q], Hits(objs, w, q), dx1, dy1, dx2, dy2);
    }
  }

  /** On a rectangle or polygon, `move` adds (dx, dy) to its own position point and
      changes nothing else. */
  lemma MoveLeaf(h: Heap, id: Id, dx: int, dy: int)
    requires Valid(h) && id in h.objs && !h.objs[id].kind.Group?
    ensures PositionOf(Move(h, id, dx, dy), id) == Translate(PositionOf(h, id), dx, dy)
    ensures forall q | q in h.pts && q != h.objs[id].pos :: Move(h, id, dx, dy).pts[q] == h.pts[q]
  {
    assert Walk(h.objs, id) == [id];
    MoveShifts(h, id, dx, dy);
    var p := h.objs[id].pos;
    assert Hits(h.objs, [id], p) == 1;
    forall q | q in h.pts && q != p ensures Move(h, id, dx, dy).pts[q] == h.pts[q] {
      assert Hits(h.objs, [id], q) == 0;
    }
  }

  /** A shape built by the default constructor has one point as position and rotation
      centre, so `move` carries the rotation centre along. */
  lemma DefaultShapeMovesItsCenter(h: Heap, dx: int, dy: int)
    requires Valid(h)
    ensures var s := NewRectangle(h);
      var m := Move(s.heap, s.value, dx, dy);
      At(m.pts, m.objs[s.value].center) == Point(dx, dy)
  {
    var s := NewRectangle(h);
    MoveLeaf(s.heap, s.value, dx, dy);
  }

  /** No two objects on the walk share a position point. */
  predicate DistinctPositions(objs: Objs, w: seq<Id>)
    requires forall i | 0 <= i < |w| :: w[i] in objs
  {
    forall i, j | 0 <= i < j < |w| :: objs[w[i]].pos != objs[w[j]].pos
  }

  lemma {:induction false} HitsOnce(objs: Objs, w: seq<Id>, k: nat)
    requires forall i | 0 <= i < |w| :: w[i] in objs
    requires DistinctPositions(objs, w) && k < |w|
    ensures Hits(objs, w, objs[w[k]].pos) == 1
  {
    if k == 0 {
      HitsNone(objs, w[1..], objs[w[0]].pos);
    } else {
      HitsOnce(objs, w[1..], k - 1);
      assert w[1..][k - 1] == w[k];
    }
  }

  lemma {:induction false} HitsNone(objs: Objs, w: seq<Id>, r: Ref)
    requires forall i | 0 <= i < |w| :: w[i] in objs && objs[w[i]].pos != r
    ensures Hits(objs, w, r) == 0
  {
    if w != [] {
      HitsNone(objs, w[1..], r);
    }
  }

  /** Every child of a group lies on the group's walk. */
  lemma {:induction false} ChildOnWalk(objs: Objs, g: Id, c: Id)
    requires g in objs && c in Children(objs[g]) && c in objs && c < g
    ensures c in Walk(objs, g)
  {
    KidOnWalkKids(objs, Children(objs[g]), g, c);
  }

  lemma {:induction false} KidOnWalkKids(objs: Objs, cs: seq<Id>, bound: Id, c: Id)
    requires c in cs && c in objs && c < bound
    ensures c in WalkKids(objs, cs, bound)
    decreases |cs|
  {
    if cs[0] == c {
      assert Walk(objs, c)[|Walk(objs, c)| - 1] == c;
    } else {
      KidOnWalkKids(objs, cs[1..], bound, c);
    }
  }

  /** When no two objects on a shape's walk share a position point, `move` translates
      every one of them by exactly (dx, dy). */
  lemma MoveTranslatesWalk(h: Heap, id: Id, dx: int, dy: int)
    requires DistinctPositions(h.objs, Walk(h.objs, id))
    requires forall o | o in h.objs :: h.objs[o].pos in h.pts
    ensures forall o | o in Walk(h.objs, id) :: PositionOf(Move(h, id, dx, dy), o) == Translate(PositionOf(h, o), dx, dy)
  {
    var w := Walk(h.objs, id);
    MoveShifts(h, id, dx, dy);
    forall o | o in w ensures PositionOf(Move(h, id, dx, dy), o) == Translate(PositionOf(h, o), dx, dy) {
      var k :| 0 <= k < |w| && w[k] == o;
      HitsOnce(h.objs, w, k);
    }
  }

  /** When no two shapes of a group share a position point, `move` translates the
      group and every child by exactly (dx, dy), so a group anchored at the smallest
      child coordinates stays anchored there. */
  lemma MoveKeepsAnchor(h: Heap, g: Id, dx: int, dy: int)
    requires Valid(h) && IsGroup(h.objs, g)
    requires DistinctPositions(h.objs, Walk(h.objs, g))
    requires Anchored(h, g)
    ensures Anchored(Move(h, g, dx, dy), g)
    ensures forall c | c in GetShapes(h.objs, g) ::
      PositionOf(Move(h, g, dx, dy), c) == Translate(PositionOf(h, c), dx, dy)
  {
    var m := Move(h, g, dx, dy);
    var w := Walk(h.objs, g);
    MoveTranslatesWalk(h, g, dx, dy);
    var cs := GetShapes(h.objs, g);
    assert GetShapes(m.objs, g) == cs;
    forall c | c in cs ensures PositionOf(m, c) == Translate(PositionOf(h, c), dx, dy) {
      ChildOnWalk(h.objs, g, c);
      assert c in w;
    }
    assert PositionOf(m, g) == Translate(PositionOf(h, g), dx, dy) by {
      assert w[|w| - 1] == g;
      assert g in w;
    }
    TranslatedAnchor(h, m, g, dx, dy);
  }

  /** A group whose position and children's positions all moved by (dx, dy) stays
      anchored. */
  lemma TranslatedAnchor(h: Heap, m: Heap, g: Id, dx: int, dy: int)
    requires m.objs == h.objs && Anchored(h, g)
    requires PositionOf(m, g) == Translate(PositionOf(h, g), dx, dy)
    requires forall c | c in GetShapes(h.objs, g) :: PositionOf(m, c) == Translate(PositionOf(h, c), dx, dy)
    ensures Anchored(m, g)
  {
    var cs := GetShapes(h.objs, g);
    assert GetShapes(m.objs, g) == cs;
    if |cs| > 0 {
      forall i | 0 <= i < |cs|
        ensures PositionOf(m, cs[i]).x == PositionOf(h, cs[i]).x + dx
        ensures PositionOf(m, cs[i]).y == PositionOf(h, cs[i]).y + dy
      {
        assert cs[i] in cs;
      }
      MinXTranslated(h, m, cs, dx);
      MinYTranslated(h, m, cs, dy);
      assert PositionOf(h, g) == Point(MinX(h, cs), MinY(h, cs));
      assert PositionOf(m, g) == Point(MinX(m, cs), MinY(m, cs));
    }
  }

  /** Moving every listed position by `dx` along x moves their minimum x by `dx`. */
  lemma {:induction false} MinXTranslated(h1: Heap, h2: Heap, cs: seq<Id>, dx: int)
    requires |cs| > 0
    requires forall i | 0 <= i < |cs| :: PositionOf(h2, cs[i]).x == PositionOf(h1, cs[i]).x + dx
    ensures MinX(h2, cs) == MinX(h1, cs) + dx
  {
    if |cs| > 1 {
      MinXTranslated(h1, h2, cs[1..], dx);
    }
  }

  /** Moving every listed position by `dy` along y moves their minimum y by `dy`. */
  lemma {:induction false} MinYTranslated(h1: Heap, h2: Heap, cs: seq<Id>, dy: int)
    requires |cs| > 0
    requires forall i | 0 <= i < |cs| :: PositionOf(h2, cs[i]).y == PositionOf(h1, cs[i]).y + dy
    ensures MinY(h2, cs) == MinY(h1, cs) + dy
  {
    if |cs| > 1 {
      MinYTranslated(h1, h2, cs[1..], dy);
    }
  }

  /** Two object tables that differ at most in rotations. */
  predicate OnlyRotations(a: Objs, b: Objs)
  {
    a.Keys == b.Keys && forall o | o in a :: b[o] == a[o].(rotation := b[o].rotation)
  }

  /** Two object tables that differ at most in fill colours. */
  predicate OnlyFills(a: Objs, b: Objs)
  {
    a.Keys == b.Keys && forall o | o in a :: b[o] == a[o].(fill := b[o].fill)
  }

  /** `delta` added up `k` times. */
  function Times(delta: int, k: nat): int
  {
    if k == 0 then 0 else Times(delta, k - 1) + delta
  }

  lemma {:induction false} TimesAdd(delta: int, a: nat, b: nat)
    ensures Times(delta, a + b) == Times(delta, a) + Times(delta, b)
  {
    if b > 0 {
      TimesAdd(delta, a, b - 1);
    }
  }

  lemma {:induction false} TimesCancel(delta: int, back: int, k: nat)
    requires back == -delta
    ensures Times(delta, k) + Times(back, k) == 0
  {
    if k > 0 {
      TimesCancel(delta, back, k - 1);
    }
  }

  /** `b` is `a` with every object turned by `delta` once per visit of `w`. */
  predicate Turned(a: Objs, b: Objs, w: seq<Id>, delta: int)
  {
    OnlyRotations(a, b) && forall o {:trigger TurnedAt(a, b, w, delta, o)} :: o in a ==> TurnedAt(a, b, w, delta, o)
  }

  /** Object `o`, present in both tables, gained `delta` once per visit of `w`. */
  predicate TurnedAt(a: Objs, b: Objs, w: seq<Id>, delta: int, o: Id)
  {
    o in a && o in b && b[o].rotation == a[o].rotation + Times(delta, Occurrences(w, o))
  }

  /** `setRotation(v)` (overridden by `ShapeGroup.setRotation`): a group first adds
      `v` minus its current rotation to each child through the child's own
      `setRotation`, then stores `v`. No value is normalised. In total every object on
      the walk gains that difference once per visit, and the shape itself ends at `v`.
      The source recomputes the difference inside the loop; it cannot change there,
      since a child's walk never reaches its (younger) group. */
  function SetRotation(objs: Objs, id: Id, v: int): (r: Objs)
    ensures Turned(objs, r, Walk(objs, id), v - RotationOf(objs, id))
    decreases id, 1
  {
    if id !in objs then
      TurnedByNothing(objs, v);
      objs
    else
      var delta := v - RotationOf(objs, id);
      var mid := RotateKids(objs, Children(objs[id]), id, delta);
      TurnGroupStep(objs, mid, id, v, delta);
      SetOwnRotation(mid, id, v)
  }

  /** Turning the children and then setting the group's own rotation to `v` is the
      turn along the group's whole walk. */
  lemma TurnGroupStep(objs: Objs, mid: Objs, id: Id, v: int, delta: int)
    requires id in objs && delta == v - RotationOf(objs, id)
    requires Turned(objs, mid, WalkKids(objs, Children(objs[id]), id), delta)
    ensures Turned(objs, SetOwnRotation(mid, id, v), Walk(objs, id), delta)
  {
    var w := WalkKids(objs, Children(objs[id]), id);
    assert id !in w;
    assert mid[id].rotation == objs[id].rotation by {
      assert TurnedAt(objs, mid, w, delta, id);
      OccurrencesCount(w, id);
    }
    TurnOne(mid, id, delta, v);
    ComposeTurns(objs, mid, SetOwnRotation(mid, id, v), w, [id], delta);
    assert Walk(objs, id) == w + [id];
  }

  /** The loop of `ShapeGroup.setRotation`: each child older than the group is set to
      its current rotation plus `delta`. */
  function RotateKids(objs: Objs, cs: seq<Id>, bound: Id, delta: int): (r: Objs)
    ensures Turned(objs, r, WalkKids(objs, cs, bound), delta)
    decreases bound, 0, |cs|
  {
    if cs == [] then
      TurnedByNothing(objs, delta);
      objs
    else
      var first := if cs[0] < bound then SetRotation(objs, cs[0], RotationOf(objs, cs[0]) + delta) else objs;
      var w0 := if cs[0] < bound then Walk(objs, cs[0]) else [];
      assert Turned(objs, first, w0, delta) by {
        if cs[0] >= bound {
          TurnedByNothing(objs, delta);
        }
      }
      var r := RotateKids(first, cs[1..], bound, delta);
      TurnKidsStep(objs, first, r, cs, bound, delta);
      r
  }

  /** The first child's turn followed by the rest's is the turn along the whole loop. */
  lemma TurnKidsStep(objs: Objs, first: Objs, r: Objs, cs: seq<Id>, bound: Id, delta: int)
    requires cs != []
    requires Turned(objs, first, if cs[0] < bound then Walk(objs, cs[0]) else [], delta)
    requires Turned(first, r, WalkKids(first, cs[1..], bound), delta)
    ensures Turned(objs, r, WalkKids(objs, cs, bound), delta)
  {
    var w0 := if cs[0] < bound then Walk(objs, cs[0]) else [];
    RotationsKeepTree(objs, first);
    WalkKidsSameTree(objs, first, cs[1..], bound);
    assert WalkKids(objs, cs, bound) == w0 + WalkKids(objs, cs[1..], bound);
    ComposeTurns(objs, first, r, w0, WalkKids(objs, cs[1..], bound), delta);
  }

  lemma TurnedByNothing(a: Objs, delta: int)
    ensures Turned(a, a, [], delta)
  {
    forall o | o in a ensures TurnedAt(a, a, [], delta, o) {
      assert Occurrences([], o) == 0;
    }
  }

  lemma TurnOne(a: Objs, id: Id, delta: int, v: int)
    requires id in a && v == a[id].rotation + delta
    ensures Turned(a, SetOwnRotation(a, id, v), [id], delta)
  {
    var b := SetOwnRotation(a, id, v);
    forall o | o in a ensures TurnedAt(a, b, [id], delta, o) {
      if o == id {
        assert Occurrences([id], o) == 1;
      } else {
        assert Occurrences([id], o) == 0;
      }
    }
  }

  /** Turning by `delta` once per visit of `w0`, then once per visit of `w1`, is
      turning once per visit of `w0 + w1`. */
  lemma ComposeTurns(a: Objs, b: Objs, c: Objs, w0: seq<Id>, w1: seq<Id>, delta: int)
    requires Turned(a, b, w0, delta) && Turned(b, c, w1, delta)
    ensures Turned(a, c, w0 + w1, delta)
  {
    forall o | o in a ensures TurnedAt(a, c, w0 + w1, delta, o) {
      assert TurnedAt(a, b, w0, delta, o) && TurnedAt(b, c, w1, delta, o);
      assert multiset(w0 + w1) == multiset(w0) + multiset(w1);
      OccurrencesCount(w0 + w1, o);
      OccurrencesCount(w0, o);
      OccurrencesCount(w1, o);
      TimesAdd(delta, Occurrences(w0, o), Occurrences(w1, o));
    }
  }

  /** An object off the walk is not turned. */
  lemma TurnedElsewhere(a: Objs, b: Objs, w: seq<Id>, delta: int, o: Id)
    requires Turned(a, b, w, delta) && o in a && o !in w
    ensures b[o] == a[o]
  {
    assert TurnedAt(a, b, w, delta, o);
    OccurrencesCount(w, o);
  }

  /** Changing rotations keeps every walk. */
  lemma RotationsKeepTree(a: Objs, b: Objs)
    requires OnlyRotations(a, b)
    ensures SameTree(a, b)
  {
    forall o | o in a ensures Children(b[o]) == Children(a[o]) {
      assert b[o].kind == a[o].kind;
    }
  }

  /** Turning by `delta` and then by `-delta` along the same walk changes nothing. */
  lemma TurnBack(a: Objs, b: Objs, c: Objs, w: seq<Id>, w': seq<Id>, delta: int, back: int)
    requires w' == w && back == -delta
    requires Turned(a, b, w, delta) && Turned(b, c, w', back)
    ensures c == a
  {
    forall o | o in a ensures c[o] == a[o] {
      assert TurnedAt(a, b, w, delta, o) && TurnedAt(b, c, w', back, o);
      TimesCancel(delta, back, Occurrences(w, o));
    }
  }

  /** Setting a rotation and then setting the old value back restores every rotation
      in the hierarchy. */
  lemma {:induction false} SetRotationRoundTrip(objs: Objs, id: Id, v: int)
    ensures SetRotation(SetRotation(objs, id, v), id, RotationOf(objs, id)) == objs
  {
    if id in objs {
      var mid := SetRotationTurns(objs, id, v);
      var r := SetRotationTurns(mid, id, RotationOf(objs, id));
      SetRotationLands(objs, id, v);
      TurnBack(objs, mid, r, Walk(objs, id), Walk(mid, id), v - RotationOf(objs, id), RotationOf(objs, id) - RotationOf(mid, id));
    }
  }

  /** `SetRotation` with its turn stated about the named result. */
  lemma SetRotationTurns(objs: Objs, id: Id, v: int) returns (r: Objs)
    ensures r == SetRotation(objs, id, v)
    ensures Turned(objs, r, Walk(objs, id), v - RotationOf(objs, id))
  {
    r := SetRotation(objs, id, v);
  }

  /** `setRotation` leaves every object outside the shape's walk alone. */
  lemma SetRotationElsewhere(objs: Objs, id: Id, v: int, o: Id)
    requires o in objs && o !in Walk(objs, id)
    ensures o in SetRotation(objs, id, v) && SetRotation(objs, id, v)[o] == objs[o]
  {
    var r := SetRotationTurns(objs, id, v);
    TurnedElsewhere(objs, r, Walk(objs, id), v - RotationOf(objs, id), o);
  }

  /** After `setRotation(v)` the shape's own rotation is `v`, and its walk is unchanged. */
  lemma SetRotationLands(objs: Objs, id: Id, v: int)
    requires id in objs
    ensures RotationOf(SetRotation(objs, id, v), id) == v
    ensures Walk(SetRotation(objs, id, v), id) == Walk(objs, id)
  {
    var mid := SetRotation(objs, id, v);
    var w := Walk(objs, id);
    var delta := v - RotationOf(objs, id);
    RotationsKeepTree(objs, mid);
    WalkSameTree(objs, mid, id);
    WalkEndsWithSelf(objs, id);
    assert mid[id].rotation == objs[id].rotation + Times(delta, Occurrences(w, id));
  }

  /** `setFillColor(c)` (overridden by `ShapeGroup.setFillColor`): every object on the
      walk gets fill `c`; nothing else changes, border colours included. */
  function SetFillColor(objs: Objs, id: Id, c: Color): (r: Objs)
    ensures OnlyFills(objs, r)
    ensures forall o | o in objs :: r[o].fill == if o in Walk(objs, id) then c else objs[o].fill
    decreases id, 1
  {
    if id !in objs then objs
    else
      var kids := Children(objs[id]);
      var mid := FillKids(objs, kids, id, c);
      assert Walk(objs, id) == WalkKids(objs, kids, id) + [id];
      mid[id := mid[id].(fill := c)]
  }

  /** The loop of `ShapeGroup.setFillColor` over the children older than the group. */
  function FillKids(objs: Objs, cs: seq<Id>, bound: Id, c: Color): (r: Objs)
    ensures OnlyFills(objs, r)
    ensures forall o | o in objs :: r[o].fill == if o in WalkKids(objs, cs, bound) then c else objs[o].fill
    decreases bound, 0, |cs|
  {
    if cs == [] then objs
    else
      var first := if cs[0] < bound then SetFillColor(objs, cs[0], c) else objs;
      var r := FillKids(first, cs[1..], bound, c);
      assert SameTree(objs, first) by {
        forall o | o in objs ensures Children(first[o]) == Children(objs[o]) {
          assert first[o].kind == objs[o].kind;
        }
      }
      WalkKidsSameTree(objs, first, cs[1..], bound);
      r
  }
}
