/** The selection helpers of `WhiteboardPanel`: the topmost-shape hit test, ctrl-click
    toggling, plain-click selection, the rubber-band rectangle and selecting what it
    crosses. */
module Selection {
  import opened JavaLang
  import opened Geometry
  import opened Store
  import opened Shapes
  import opened Bounds

  /** `findShapeAtPoint`: the last top-level shape, in drawing order, that contains the
      point, or none. */
  function FindShapeAt(trig: Trig, h: Heap, shapes: seq<Id>, p: Point): (r: Option<Id>)
    ensures r.Some? ==> r.value in shapes && Contains(trig, h, r.value, p)
    decreases |shapes|
  {
    if shapes == [] then None
    else
      var last := shapes[|shapes| - 1];
      if Contains(trig, h, last, p) then Some(last)
      else FindShapeAt(trig, h, shapes[..|shapes| - 1], p)
  }

  /** The hit test finds nothing exactly when no shape contains the point, and
      otherwise the topmost shape that does: every shape drawn after it misses. */
  lemma {:induction false} FindShapeAtIsTopmost(trig: Trig, h: Heap, shapes: seq<Id>, p: Point)
    ensures var r := FindShapeAt(trig, h, shapes, p);
      && (r.None? <==> forall i | 0 <= i < |shapes| :: !Contains(trig, h, shapes[i], p))
      && (r.Some? ==> exists i | 0 <= i < |shapes| :: TopmostHit(trig, h, shapes, p, i, r.value))
    decreases |shapes|
  {
    if shapes != [] {
      var n := |shapes| - 1;
      var front := shapes[..n];
      if Contains(trig, h, shapes[n], p) {
        assert TopmostHit(trig, h, shapes, p, n, shapes[n]);
      } else {
        FindShapeAtIsTopmost(trig, h, front, p);
        assert forall i | 0 <= i < |front| :: front[i] == shapes[i];
        var r := FindShapeAt(trig, h, front, p);
        if r.Some? {
          var i :| 0 <= i < |front| && TopmostHit(trig, h, front, p, i, r.value);
          assert TopmostHit(trig, h, shapes, p, i, r.value);
        }
      }
    }
  }

  /** Shape `x`, at index `i` of the list, contains the point and no later shape does. */
  predicate TopmostHit(trig: Trig, h: Heap, shapes: seq<Id>, p: Point, i: int, x: Id)
  {
    0 <= i < |shapes| && shapes[i] == x && Contains(trig, h, x, p)
    && forall j | i < j < |shapes| :: !Contains(trig, h, shapes[j], p)
  }

  /** `toggleShapeSelection`: a selected shape leaves the selection, an unselected one
      joins it at the end; a miss changes nothing. */
  function Toggle(sel: seq<Id>, s: Option<Id>): (r: seq<Id>)
    ensures s.None? ==> r == sel
    ensures s.Some? && s.value in sel ==> multiset(r) == multiset(sel) - multiset{s.value}
    ensures s.Some? && s.value !in sel ==> r == sel + [s.value]
    ensures forall y | y in r :: y in sel || s == Some(y)
  {
    if s.None? then sel
    else if s.value in sel then
      RemoveFirstWithin(sel, s.value);
      RemoveFirstCounts(sel, s.value);
      RemoveFirst(sel, s.value)
    else sel + [s.value]
  }

  /** In a selection without repeats, toggling flips membership of the shape and of
      nothing else, keeps the selection free of repeats, and toggling twice gives back
      the same members. */
  lemma ToggleFlips(sel: seq<Id>, x: Id)
    requires Distinct(sel)
    ensures var r := Toggle(sel, Some(x));
      && Distinct(r)
      && (x in r <==> x !in sel)
      && (forall y | y != x :: y in r <==> y in sel)
  {
    var r := Toggle(sel, Some(x));
    DistinctCounts(sel);
    if x in sel {
      var mr: multiset<Id> := multiset(r);
      var ms: multiset<Id> := multiset(sel);
      assert mr[x] == 0;
      forall y | y != x ensures y in r <==> y in sel {
        assert mr[y] == ms[y];
      }
      RemoveFirstKeepsDistinct(sel, x);
    }
  }

  lemma {:induction false} RemoveFirstKeepsDistinct(s: seq<Id>, x: Id)
    requires Distinct(s)
    ensures Distinct(RemoveFirst(s, x))
  {
    if s != [] {
      DistinctTail(s);
      if s[0] != x {
        RemoveFirstKeepsDistinct(s[1..], x);
        var t := RemoveFirst(s[1..], x);
        RemoveFirstWithin(s[1..], x);
        DistinctCons(s[0], t);
      }
    }
  }

  lemma DistinctTail(s: seq<Id>)
    requires Distinct(s) && s != []
    ensures Distinct(s[1..]) && s[0] !in s[1..]
  {
    forall i, j | 0 <= i < j < |s[1..]| ensures s[1..][i] != s[1..][j] {
      assert s[1..][i] == s[i + 1] && s[1..][j] == s[j + 1];
    }
    forall i | 0 <= i < |s[1..]| ensures s[1..][i] != s[0] {
      assert s[1..][i] == s[i + 1];
    }
  }

  lemma DistinctCons(a: Id, t: seq<Id>)
    requires Distinct(t) && a !in t
    ensures Distinct([a] + t)
  {
    var u := [a] + t;
    forall i, j | 0 <= i < j < |u| ensures u[i] != u[j] {
      assert u[j] == t[j - 1];
      if i > 0 {
        assert u[i] == t[i - 1];
      }
    }
  }

  /** Ctrl-clicking the same shape twice leaves the same shapes selected. */
  lemma ToggleTwice(sel: seq<Id>, s: Option<Id>)
    requires Distinct(sel)
    ensures forall y :: y in Toggle(Toggle(sel, s), s) <==> y in sel
  {
    if s.Some? {
      ToggleFlips(sel, s.value);
      ToggleFlips(Toggle(sel, s), s.value);
    }
  }

  /** `handleShapeSelection`: a click on an unselected shape selects it alone; a click
      on a selected shape keeps the whole selection, so that it can be dragged. */
  function ClickSelect(sel: seq<Id>, s: Id): (r: seq<Id>)
    ensures s in r
    ensures s in sel ==> r == sel
    ensures s !in sel ==> r == [s]
  {
    if s !in sel then [s] else sel
  }

  /** `updateSelectionRectangle`: the rectangle spanned by the press point and the
      current point, whichever corner each is. */
  function SpanRect(a: Point, b: Point): (r: Box)
    ensures r.width >= 0 && r.height >= 0
    ensures r.x == Min(a.x, b.x) && r.x + r.width == Max(a.x, b.x)
    ensures r.y == Min(a.y, b.y) && r.y + r.height == Max(a.y, b.y)
  {
    Box(Min(a.x, b.x), Min(a.y, b.y), Abs(b.x - a.x), Abs(b.y - a.y))
  }

  /** The rubber band does not depend on which corner the drag started from. */
  lemma SpanRectSymmetric(a: Point, b: Point)
    ensures SpanRect(a, b) == SpanRect(b, a)
  {
    var r, s := SpanRect(a, b), SpanRect(b, a);
    assert r.x == s.x && r.width == s.width;
    assert r.y == s.y && r.height == s.height;
  }

  /** `selectShapesInRectangle`: in list order, every top-level shape whose bounding box
      meets the rectangle and which is not yet selected is added to the selection. */
  function SelectInRect(trig: Trig, h: Heap, shapes: seq<Id>, sel: seq<Id>, rect: Box): (r: seq<Id>)
    requires forall s | s in shapes :: s in h.objs
    ensures |sel| <= |r| && r[..|sel|] == sel
    ensures forall x :: x in r <==> x in sel || (x in shapes && Intersects(rect, BBox(trig, h, x)))
    ensures Distinct(sel) ==> Distinct(r)
    decreases |shapes|
  {
    if shapes == [] then sel
    else
      var s := shapes[0];
      var next := if Intersects(rect, BBox(trig, h, s)) && s !in sel then sel + [s] else sel;
      assert next[..|sel|] == sel;
      assert forall x | x in shapes[1..] :: x in shapes;
      var r := SelectInRect(trig, h, shapes[1..], next, rect);
      assert r[..|sel|] == r[..|next|][..|sel|];
      assert forall x :: x in shapes <==> x == s || x in shapes[1..];
      r
  }

  /** Every shape the rubber band appends is new to the selection: a listed shape
      whose box meets the rectangle. */
  lemma {:induction false} SelectInRectAddsNew(trig: Trig, h: Heap, shapes: seq<Id>, sel: seq<Id>, rect: Box)
    requires forall s | s in shapes :: s in h.objs
    ensures forall k | |sel| <= k < |SelectInRect(trig, h, shapes, sel, rect)| ::
      && SelectInRect(trig, h, shapes, sel, rect)[k] !in sel
      && SelectInRect(trig, h, shapes, sel, rect)[k] in shapes
      && Intersects(rect, BBox(trig, h, SelectInRect(trig, h, shapes, sel, rect)[k]))
    decreases |shapes|
  {
    if shapes != [] {
      var s, rest := shapes[0], shapes[1..];
      var next := if Intersects(rect, BBox(trig, h, s)) && s !in sel then sel + [s] else sel;
      assert forall x | x in rest :: x in shapes;
      SelectInRectAddsNew(trig, h, rest, next, rect);
      var r := SelectInRect(trig, h, rest, next, rect);
      assert SelectInRect(trig, h, shapes, sel, rect) == r;
      assert r[..|next|] == next;
      forall k | |sel| <= k < |r|
        ensures r[k] !in sel && r[k] in shapes && Intersects(rect, BBox(trig, h, r[k]))
      {
        if k < |next| {
          assert r[k] == next[k] == s;
        } else {
          assert r[k] !in next && r[k] in rest;
          assert forall x | x in sel :: x in next;
        }
      }
    }
  }

  /** The rubber band appends no shape twice, whatever the selection and the list
      already hold. */
  lemma {:induction false} SelectInRectNoRepeats(trig: Trig, h: Heap, shapes: seq<Id>, sel: seq<Id>, rect: Box)
    requires forall s | s in shapes :: s in h.objs
    ensures forall k, l | |sel| <= k < l < |SelectInRect(trig, h, shapes, sel, rect)| ::
      SelectInRect(trig, h, shapes, sel, rect)[k] != SelectInRect(trig, h, shapes, sel, rect)[l]
    decreases |shapes|
  {
    if shapes != [] {
      var s, rest := shapes[0], shapes[1..];
      var next := if Intersects(rect, BBox(trig, h, s)) && s !in sel then sel + [s] else sel;
      assert forall x | x in rest :: x in shapes;
      SelectInRectNoRepeats(trig, h, rest, next, rect);
      SelectInRectAddsNew(trig, h, rest, next, rect);
    }
  }

  /** The rubber band appends in list order: a shape appended earlier first occurs
      earlier in the list. */
  lemma {:induction false} SelectInRectInOrder(trig: Trig, h: Heap, shapes: seq<Id>, sel: seq<Id>, rect: Box)
    requires forall s | s in shapes :: s in h.objs
    ensures forall k, l | |sel| <= k < l < |SelectInRect(trig, h, shapes, sel, rect)| ::
      && SelectInRect(trig, h, shapes, sel, rect)[k] in shapes
      && SelectInRect(trig, h, shapes, sel, rect)[l] in shapes
      && IndexIn(shapes, SelectInRect(trig, h, shapes, sel, rect)[k])
         < IndexIn(shapes, SelectInRect(trig, h, shapes, sel, rect)[l])
    decreases |shapes|
  {
    if shapes != [] {
      var s, rest := shapes[0], shapes[1..];
      var next := if Intersects(rect, BBox(trig, h, s)) && s !in sel then sel + [s] else sel;
      assert forall x | x in rest :: x in shapes;
      SelectInRectInOrder(trig, h, rest, next, rect);
      SelectInRectAddsNew(trig, h, rest, next, rect);
      var r := SelectInRect(trig, h, rest, next, rect);
      assert SelectInRect(trig, h, shapes, sel, rect) == r;
      assert r[..|next|] == next;
      AppendedInOrder(shapes, sel, next, r);
    } else {
      assert SelectInRect(trig, h, shapes, sel, rect) == sel;
    }
  }

  /** One step of `SelectInRectInOrder`: the head was appended first or not at all, and
      the shapes appended after it come from the tail in the tail's order. */
  lemma AppendedInOrder(shapes: seq<Id>, sel: seq<Id>, next: seq<Id>, r: seq<Id>)
    requires shapes != [] && |sel| <= |next| <= |sel| + 1 && |next| <= |r| && r[..|next|] == next
    requires |sel| < |next| ==> next[|sel|] == shapes[0]
    requires forall k | |next| <= k < |r| :: r[k] != shapes[0] && r[k] in shapes[1..]
    requires forall k, l | |next| <= k < l < |r| ::
      && r[k] in shapes[1..] && r[l] in shapes[1..]
      && IndexIn(shapes[1..], r[k]) < IndexIn(shapes[1..], r[l])
    ensures forall k, l | |sel| <= k < l < |r| ::
      r[k] in shapes && r[l] in shapes && IndexIn(shapes, r[k]) < IndexIn(shapes, r[l])
  {
    forall k, l | |sel| <= k < l < |r|
      ensures r[k] in shapes && r[l] in shapes && IndexIn(shapes, r[k]) < IndexIn(shapes, r[l])
    {
      IndexInTail(shapes, r[l]);
      if k < |next| {
        assert r[k] == next[k] == shapes[0];
      } else {
        IndexInTail(shapes, r[k]);
      }
    }
  }
}
