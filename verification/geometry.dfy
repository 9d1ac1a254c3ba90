/** Integer plane geometry as the editor uses it: the mutable `Shape.Point` value, and
    the integer rectangle `java.awt.Rectangle` with the three operations the editor
    calls on it (`contains` in its half-open `Rectangle2D` form, `intersects`, `union`).
    The `int` overflow clamping inside the JDK's `union` is not modelled. */
module Geometry {

  /** The coordinates held by a `Shape.Point`. */
  datatype Point = Point(x: int, y: int)

  /** `java.awt.Rectangle(x, y, width, height)`; width and height may be negative. */
  datatype Box = Box(x: int, y: int, width: int, height: int)

  function Translate(p: Point, dx: int, dy: int): (q: Point)
    ensures q.x - p.x == dx && q.y - p.y == dy
  {
    Point(p.x + dx, p.y + dy)
  }

  /** `Rectangle2D.Double(x, y, w, h).contains(p.x, p.y)`: the left and top edges are
      inside, the right and bottom edges are not. */
  predicate HalfOpenContains(x: int, y: int, w: int, h: int, p: Point)
  {
    x <= p.x < x + w && y <= p.y < y + h
  }

  /** A rectangle the JDK treats as having no interior: `intersects` is false for it. */
  predicate IsEmpty(b: Box)
  {
    b.width <= 0 || b.height <= 0
  }

  /** `java.awt.Rectangle.intersects` (and `Rectangle2D.intersects`, which agrees on
      integer rectangles): both rectangles have an interior and the open interiors overlap. */
  predicate Intersects(a: Box, b: Box)
  {
    !IsEmpty(a) && !IsEmpty(b)
    && b.x + b.width > a.x && b.y + b.height > a.y
    && a.x + a.width > b.x && a.y + a.height > b.y
  }

  /** Whether `union` treats the rectangle as existing: the JDK ignores a rectangle with a
      negative width or height, while a zero-sized one still counts. */
  predicate Exists(b: Box)
  {
    b.width >= 0 && b.height >= 0
  }

  function Min(a: int, b: int): int { if a <= b then a else b }
  function Max(a: int, b: int): int { if a >= b then a else b }

  /** `b` lies inside `outer`, edges included. */
  predicate Encloses(outer: Box, b: Box)
  {
    outer.x <= b.x && outer.y <= b.y
    && b.x + b.width <= outer.x + outer.width
    && b.y + b.height <= outer.y + outer.height
  }

  /** `java.awt.Rectangle.union`: a rectangle that does not exist is dropped in favour
      of the other one, whether or not that one exists; otherwise the smallest
      rectangle holding both. */
  function Union(a: Box, b: Box): (u: Box)
    ensures !Exists(a) ==> u == b
    ensures Exists(a) && !Exists(b) ==> u == a
    ensures Exists(a) && Exists(b) ==> Exists(u) && Encloses(u, a) && Encloses(u, b)
  {
    if !Exists(a) then b
    else if !Exists(b) then a
    else
      var x1 := Min(a.x, b.x);
      var y1 := Min(a.y, b.y);
      var x2 := Max(a.x + a.width, b.x + b.width);
      var y2 := Max(a.y + a.height, b.y + b.height);
      Box(x1, y1, x2 - x1, y2 - y1)
  }

  /** The union of two existing rectangles is the least rectangle holding both. */
  lemma UnionIsLeast(a: Box, b: Box, c: Box)
    requires Exists(a) && Exists(b)
    requires Encloses(c, a) && Encloses(c, b)
    ensures Encloses(c, Union(a, b))
  {
  }

  /** The union of existing rectangles does not depend on the order of its arguments. */
  lemma UnionCommutes(a: Box, b: Box)
    requires Exists(a) || Exists(b)
    ensures Union(a, b) == Union(b, a)
  {
  }

  /** With two rectangles that both fail to exist, `union` returns its argument, so the
      result depends on the order. */
  lemma UnionOfAbsentDependsOnOrder()
    ensures var a, b := Box(0, 0, -1, 5), Box(7, 7, 3, -2);
      Union(a, b) == b && Union(b, a) == a && a != b
  {
  }

  /** Two existing rectangles enclosing each other are the same rectangle. */
  lemma MutualEnclosure(a: Box, b: Box)
    requires Encloses(a, b) && Encloses(b, a)
    ensures a == b
  {
  }

  /** `intersects` is symmetric, and false as soon as either rectangle has a
      non-positive width or height. */
  lemma IntersectsSymmetric(a: Box, b: Box)
    ensures Intersects(a, b) <==> Intersects(b, a)
    ensures IsEmpty(a) || IsEmpty(b) ==> !Intersects(a, b)
  {
  }

  /** The union the bounding-box visitor accumulates over a group's children: start
      from the first box, then `union` each following box into the running total. */
  function UnionAll(bs: seq<Box>): Box
    requires |bs| > 0
  {
    UnionFrom(bs[0], bs[1..])
  }

  function UnionFrom(acc: Box, rest: seq<Box>): Box
    decreases |rest|
  {
    if rest == [] then acc else UnionFrom(Union(acc, rest[0]), rest[1..])
  }

  predicate SomeExists(bs: seq<Box>)
  {
    exists i :: 0 <= i < |bs| && Exists(bs[i])
  }

  /** The running union holds every existing box met so far, and exists as soon as one
      of them does. */
  lemma {:induction false} UnionFromEncloses(acc: Box, rest: seq<Box>)
    ensures Exists(acc) || SomeExists(rest) ==> Exists(UnionFrom(acc, rest))
    ensures Exists(acc) ==> Encloses(UnionFrom(acc, rest), acc)
    ensures forall i | 0 <= i < |rest| && Exists(rest[i]) :: Encloses(UnionFrom(acc, rest), rest[i])
    decreases |rest|
  {
    if rest != [] {
      var next := Union(acc, rest[0]);
      UnionFromEncloses(next, rest[1..]);
      var u := UnionFrom(acc, rest);
      assert u == UnionFrom(next, rest[1..]);
      if Exists(acc) {
        assert Exists(next) && Encloses(next, acc);
        EnclosesTransitive(u, next, acc);
      }
      if Exists(rest[0]) {
        assert Exists(next) && Encloses(next, rest[0]);
        EnclosesTransitive(u, next, rest[0]);
      }
      forall i | 1 <= i < |rest| && Exists(rest[i])
        ensures Encloses(u, rest[i])
      {
        assert rest[1..][i - 1] == rest[i];
      }
      if SomeExists(rest) && !Exists(acc) && !Exists(rest[0]) {
        var i :| 0 <= i < |rest| && Exists(rest[i]);
        assert rest[1..][i - 1] == rest[i];
      }
    }
  }

  /** Any existing rectangle holding every existing box also holds their running union,
      provided one of them exists. */
  lemma {:induction false} UnionFromLeast(acc: Box, rest: seq<Box>, c: Box)
    requires Exists(c)
    requires Exists(acc) || SomeExists(rest)
    requires Exists(acc) ==> Encloses(c, acc)
    requires forall i | 0 <= i < |rest| && Exists(rest[i]) :: Encloses(c, rest[i])
    ensures Encloses(c, UnionFrom(acc, rest))
    decreases |rest|
  {
    if rest == [] {
      assert Exists(acc);
    } else {
      var next := Union(acc, rest[0]);
      assert Exists(next) ==> Encloses(c, next) by {
        if Exists(acc) && Exists(rest[0]) {
          UnionIsLeast(acc, rest[0], c);
        }
      }
      forall i | 0 <= i < |rest[1..]| && Exists(rest[1..][i])
        ensures Encloses(c, rest[1..][i])
      {
        assert rest[1..][i] == rest[i + 1];
      }
      if !Exists(next) {
        var i :| 0 <= i < |rest| && Exists(rest[i]);
        assert i != 0;
        assert rest[1..][i - 1] == rest[i];
      }
      UnionFromLeast(next, rest[1..], c);
    }
  }

  lemma EnclosesTransitive(a: Box, b: Box, c: Box)
    requires Encloses(a, b) && Encloses(b, c)
    ensures Encloses(a, c)
  {
  }

  /** The accumulated union holds every existing box of the list, and is the least
      rectangle doing so, as soon as one box exists. */
  lemma UnionAllIsHull(bs: seq<Box>)
    requires |bs| > 0
    ensures SomeExists(bs) ==> Exists(UnionAll(bs))
    ensures forall i | 0 <= i < |bs| && Exists(bs[i]) :: Encloses(UnionAll(bs), bs[i])
    ensures forall c | Exists(c) && SomeExists(bs) && (forall i | 0 <= i < |bs| && Exists(bs[i]) :: Encloses(c, bs[i]))
              :: Encloses(c, UnionAll(bs))
  {
    UnionFromEncloses(bs[0], bs[1..]);
    forall i | 1 <= i < |bs| && Exists(bs[i])
      ensures Encloses(UnionAll(bs), bs[i])
    {
      assert bs[1..][i - 1] == bs[i];
    }
    if SomeExists(bs) && !Exists(bs[0]) {
      var i :| 0 <= i < |bs| && Exists(bs[i]);
      assert bs[1..][i - 1] == bs[i];
    }
    forall c | Exists(c) && SomeExists(bs) && (forall i | 0 <= i < |bs| && Exists(bs[i]) :: Encloses(c, bs[i]))
      ensures Encloses(c, UnionAll(bs))
    {
      forall i | 0 <= i < |bs[1..]| && Exists(bs[1..][i])
        ensures Encloses(c, bs[1..][i])
      {
        assert bs[1..][i] == bs[i + 1];
      }
      if !Exists(bs[0]) {
        var i :| 0 <= i < |bs| && Exists(bs[i]);
        assert bs[1..][i - 1] == bs[i];
      }
      UnionFromLeast(bs[0], bs[1..], c);
    }
  }

  /** Two lists holding the same boxes, in any order and with any repetition, have the
      same union, as long as one of the boxes exists. */
  lemma UnionAllOrderFree(bs: seq<Box>, cs: seq<Box>)
    requires |bs| > 0 && |cs| > 0
    requires forall b :: b in bs <==> b in cs
    requires SomeExists(bs)
    ensures UnionAll(bs) == UnionAll(cs)
  {
    UnionAllIsHull(bs);
    UnionAllIsHull(cs);
    var i :| 0 <= i < |bs| && Exists(bs[i]);
    assert bs[i] in cs;
    var j :| 0 <= j < |cs| && cs[j] == bs[i];
    assert SomeExists(cs);
    forall k | 0 <= k < |cs| && Exists(cs[k])
      ensures Encloses(UnionAll(bs), cs[k])
    {
      assert cs[k] in bs;
      var m :| 0 <= m < |bs| && bs[m] == cs[k];
    }
    forall k | 0 <= k < |bs| && Exists(bs[k])
      ensures Encloses(UnionAll(cs), bs[k])
    {
      assert bs[k] in cs;
      var m :| 0 <= m < |cs| && cs[m] == bs[k];
    }
    MutualEnclosure(UnionAll(bs), UnionAll(cs));
  }

  /** A single box is its own union. */
  lemma UnionAllSingle(b: Box)
    ensures UnionAll([b]) == b
  {
  }
}
