/** The shape counts of `StatusBarPanel`: `countShapesRecursive` gives one shape tree's
    `ShapeCounter`, and `updateCounts` adds those up over the top-level list. */
module Counts {
  import opened JavaLang
  import opened Store

  /** `ShapeCounter`. */
  datatype Tally = Tally(rectangles: nat, polygons: nat, total: nat)

  const Zero := Tally(0, 0, 0)

  function Plus(a: Tally, b: Tally): Tally
  {
    Tally(a.rectangles + b.rectangles, a.polygons + b.polygons, a.total + b.total)
  }

  /** `countShapesRecursive`: a rectangle counts (1, 0, 1), a polygon (0, 1, 1), and a
      group the sum over its children, adding nothing for itself. */
  function CountShape(objs: Objs, id: Id): (t: Tally)
    ensures t.total == t.rectangles + t.polygons
    ensures id in objs && objs[id].kind.Rect? ==> t == Tally(1, 0, 1)
    ensures id in objs && objs[id].kind.Poly? ==> t == Tally(0, 1, 1)
    ensures id in objs && objs[id].kind == Group([]) ==> t == Zero
    decreases id, 1
  {
    if id !in objs then Zero
    else
      match objs[id].kind
      case Rect(_, _, _) => Tally(1, 0, 1)
      case Poly(_, _, _) => Tally(0, 1, 1)
      case Group(cs) => CountKids(objs, cs, id)
  }

  /** The loop over a group's children. */
  function CountKids(objs: Objs, cs: seq<Id>, bound: Id): (t: Tally)
    ensures t.total == t.rectangles + t.polygons
    decreases bound, 0, |cs|
  {
    if cs == [] then Zero
    else Plus(if cs[0] < bound then CountShape(objs, cs[0]) else Zero, CountKids(objs, cs[1..], bound))
  }

  /** `updateCounts`: the counts of the top-level shapes added up. */
  function CountAll(objs: Objs, ts: seq<Id>): (t: Tally)
    ensures t.total == t.rectangles + t.polygons
  {
    if ts == [] then Zero else Plus(CountShape(objs, ts[0]), CountAll(objs, ts[1..]))
  }

  lemma {:induction false} CountAllAppend(objs: Objs, a: seq<Id>, b: seq<Id>)
    ensures CountAll(objs, a + b) == Plus(CountAll(objs, a), CountAll(objs, b))
  {
    if a == [] {
      assert a + b == b;
    } else {
      assert (a + b)[0] == a[0];
      assert (a + b)[1..] == a[1..] + b;
      CountAllAppend(objs, a[1..], b);
    }
  }

  lemma CountAllSingle(objs: Objs, t: Id)
    ensures CountAll(objs, [t]) == CountShape(objs, t)
  {
    var c := CountShape(objs, t);
    assert [t][1..] == [];
    assert CountAll(objs, [t]) == Plus(c, Zero);
    PlusZero(c);
  }

  /** Tally arithmetic for the proofs here: `Zero` is a right unit of `Plus`. */
  lemma PlusZero(a: Tally)
    ensures Plus(a, Zero) == a
  {
  }

  /** Taking one occurrence of `x` out of a list takes `x`'s count out of the sum. */
  lemma {:induction false} CountAllRemoveFirst(objs: Objs, s: seq<Id>, x: Id)
    requires x in s
    ensures CountAll(objs, s) == Plus(CountShape(objs, x), CountAll(objs, RemoveFirst(s, x)))
  {
    var a := s[0];
    var rest := CountAll(objs, s[1..]);
    assert CountAll(objs, s) == Plus(CountShape(objs, a), rest);
    if a == x {
      assert RemoveFirst(s, x) == s[1..];
    } else {
      var r := RemoveFirst(s[1..], x);
      assert RemoveFirst(s, x) == [a] + r;
      CountAllCons(objs, a, r);
      CountAllRemoveFirst(objs, s[1..], x);
      PlusSwap(CountShape(objs, a), CountShape(objs, x), CountAll(objs, r));
    }
  }

  lemma CountAllCons(objs: Objs, a: Id, v: seq<Id>)
    ensures CountAll(objs, [a] + v) == Plus(CountShape(objs, a), CountAll(objs, v))
  {
    assert ([a] + v)[0] == a && ([a] + v)[1..] == v;
  }

  /** Tally arithmetic for the proofs here: one summand moves past another. */
  lemma PlusSwap(a: Tally, x: Tally, b: Tally)
    ensures Plus(a, Plus(x, b)) == Plus(x, Plus(a, b))
  {
  }

  /** The sum over a list depends only on which shapes it holds, how many times each:
      reordering the top-level list does not change the counts. */
  lemma {:induction false} CountAllPermutation(objs: Objs, a: seq<Id>, b: seq<Id>)
    requires multiset(a) == multiset(b)
    ensures CountAll(objs, a) == CountAll(objs, b)
    decreases |a|
  {
    if a == [] {
      assert |b| == |multiset(b)| == 0;
    } else {
      assert a == [a[0]] + a[1..];
      assert a[0] in multiset(b);
      CountAllRemoveFirst(objs, b, a[0]);
      RemoveFirstCounts(b, a[0]);
      assert multiset(a[1..]) == multiset(RemoveFirst(b, a[0]));
      CountAllPermutation(objs, a[1..], RemoveFirst(b, a[0]));
    }
  }

  /** When every child passes the traversal guard, the children's loop is the plain sum. */
  lemma {:induction false} CountKidsIsSum(objs: Objs, cs: seq<Id>, bound: Id)
    requires forall c | c in cs :: c < bound
    ensures CountKids(objs, cs, bound) == CountAll(objs, cs)
  {
    if cs != [] {
      assert cs[0] in cs;
      assert forall c | c in cs[1..] :: c in cs;
      CountKidsIsSum(objs, cs[1..], bound);
    }
  }

  /** In a valid heap a group counts as the sum of its children, and nothing for itself. */
  lemma GroupCountIsChildrenSum(h: Heap, g: Id)
    requires Valid(h) && g in h.objs && h.objs[g].kind.Group?
    ensures CountShape(h.objs, g) == CountAll(h.objs, Children(h.objs[g]))
  {
    CountKidsIsSum(h.objs, Children(h.objs[g]), g);
  }

  /** The counts of a shape depend only on the kinds of the objects below it: a table
      that keeps the kind of every object of a valid heap counts its shapes alike. */
  lemma {:induction false} CountAgree(h: Heap, objs2: Objs, id: Id)
    requires Valid(h) && id in h.objs
    requires forall o | o in h.objs :: o in objs2 && objs2[o].kind == h.objs[o].kind
    ensures CountShape(objs2, id) == CountShape(h.objs, id)
    decreases id, 1
  {
    CountKidsAgree(h, objs2, Children(h.objs[id]), id);
  }

  lemma {:induction false} CountKidsAgree(h: Heap, objs2: Objs, cs: seq<Id>, bound: Id)
    requires Valid(h) && forall c | c in cs :: c in h.objs
    requires forall o | o in h.objs :: o in objs2 && objs2[o].kind == h.objs[o].kind
    ensures CountKids(objs2, cs, bound) == CountKids(h.objs, cs, bound)
    decreases bound, 0, |cs|
  {
    if cs != [] {
      assert cs[0] in cs;
      assert forall c | c in cs[1..] :: c in cs;
      if cs[0] < bound {
        CountAgree(h, objs2, cs[0]);
      }
      CountKidsAgree(h, objs2, cs[1..], bound);
    }
  }

  lemma {:induction false} CountAllAgree(h: Heap, objs2: Objs, ts: seq<Id>)
    requires Valid(h) && forall t | t in ts :: t in h.objs
    requires forall o | o in h.objs :: o in objs2 && objs2[o].kind == h.objs[o].kind
    ensures CountAll(objs2, ts) == CountAll(h.objs, ts)
  {
    if ts != [] {
      assert ts[0] in ts;
      assert forall t | t in ts[1..] :: t in ts;
      CountAgree(h, objs2, ts[0]);
      CountAllAgree(h, objs2, ts[1..]);
    }
  }
}
