/** The document `WhiteboardPanel` keeps: the top-level `shapes` list in drawing order
    and the `selectedShapes` list, over the heap of shape objects. The `direct…` methods
    the commands call, and the history-free edits of the panel (`clearShapes`,
    `selectAll`, `deselectAll`, `deleteSelected`), are functions from board to board.
    All list operations compare shapes by identity, as `Shape` does not override
    `equals`. */
module Whiteboard {
  import opened JavaLang
  import opened Store
  import opened Shapes
  import opened Counts

  datatype Board = Board(heap: Heap, shapes: seq<Id>, selected: seq<Id>)

  /** A board together with what the method returned. */
  datatype Out<T> = Out(board: Board, value: T)

  /** Every listed shape is an object of a valid heap, as Java references always are. */
  predicate Sound(b: Board)
  {
    Valid(b.heap)
    && (forall s | s in b.shapes :: s in b.heap.objs)
    && (forall s | s in b.selected :: s in b.heap.objs)
  }

  /** `directAddShape`: the shape goes to the top of the drawing order. */
  function DirectAdd(b: Board, s: Id): (r: Board)
    ensures r.heap == b.heap && r.selected == b.selected
    ensures |r.shapes| == |b.shapes| + 1 && r.shapes[|b.shapes|] == s
    ensures r.shapes[..|b.shapes|] == b.shapes
    ensures Sound(b) && s in b.heap.objs ==> Sound(r)
  {
    b.(shapes := b.shapes + [s])
  }

  /** `directRemoveShape`: `List.remove`, so only the first occurrence goes. */
  function DirectRemove(b: Board, s: Id): (r: Board)
    ensures r.heap == b.heap && r.selected == b.selected
    ensures s !in b.shapes ==> r == b
    ensures s in b.shapes ==> |r.shapes| == |b.shapes| - 1
    ensures Sound(b) ==> Sound(r)
  {
    RemoveFirstWithin(b.shapes, s);
    b.(shapes := RemoveFirst(b.shapes, s))
  }

  /** Removing takes exactly one occurrence of the shape off the top level. */
  lemma DirectRemoveCounts(b: Board, s: Id)
    ensures multiset(DirectRemove(b, s).shapes) == multiset(b.shapes) - multiset{s}
  {
    RemoveFirstCounts(b.shapes, s);
  }

  /** Adding a shape the list did not hold and removing it again gives the board back. */
  lemma AddThenRemove(b: Board, s: Id)
    requires s !in b.shapes
    ensures DirectRemove(DirectAdd(b, s), s) == b
  {
    RemoveFirstAfterAppend(b.shapes, [], s);
    assert b.shapes + [s] + [] == b.shapes + [s];
    assert b.shapes + [] == b.shapes;
  }

  /** Adding a shape the list already held and then removing it takes out the earlier
      occurrence: the shape ends on top. */
  lemma AddThenRemoveEarlier(b: Board, s: Id)
    requires s in b.shapes
    ensures DirectRemove(DirectAdd(b, s), s).shapes == RemoveFirst(b.shapes, s) + [s]
  {
    RemoveFirstBeforeTail(b.shapes, [s], s);
  }

  /** `directDeselectShape`. */
  function DirectDeselect(b: Board, s: Id): (r: Board)
    ensures r.heap == b.heap && r.shapes == b.shapes
    ensures s !in b.selected ==> r == b
    ensures s in b.selected ==> |r.selected| == |b.selected| - 1
    ensures Sound(b) ==> Sound(r)
  {
    RemoveFirstWithin(b.selected, s);
    b.(selected := RemoveFirst(b.selected, s))
  }

  /** Deselecting takes exactly one occurrence of the shape out of the selection. */
  lemma DirectDeselectCounts(b: Board, s: Id)
    ensures multiset(DirectDeselect(b, s).selected) == multiset(b.selected) - multiset{s}
  {
    RemoveFirstCounts(b.selected, s);
  }

  /** `directSelectShape`: the selection becomes the one shape, or empty for null. */
  function DirectSelect(b: Board, s: Option<Id>): (r: Board)
    ensures r.heap == b.heap && r.shapes == b.shapes
    ensures forall x :: x in r.selected <==> s == Some(x)
    ensures |r.selected| <= 1
    ensures Sound(b) && (s.Some? ==> s.value in b.heap.objs) ==> Sound(r)
  {
    b.(selected := if s.Some? then [s.value] else [])
  }

  /** `directSelectShapes`: the selection becomes a copy of the list, or empty for
      null. */
  function DirectSelectShapes(b: Board, ss: Option<seq<Id>>): (r: Board)
    ensures r.heap == b.heap && r.shapes == b.shapes
    ensures r.selected == if ss.Some? then ss.value else []
    ensures Sound(b) && (ss.Some? ==> forall x | x in ss.value :: x in b.heap.objs) ==> Sound(r)
  {
    b.(selected := if ss.Some? then ss.value else [])
  }

  /** `shapesToGroup.forEach(group::addShape)`. */
  function AddShapes(h: Heap, g: Id, ms: seq<Id>): (r: Heap)
    requires IsGroup(h.objs, g)
    ensures IsGroup(r.objs, g) && GetShapes(r.objs, g) == GetShapes(h.objs, g) + ms
    ensures OnlyChanged(h.objs, r.objs, g)
    ensures r.objs[g] == h.objs[g].(kind := r.objs[g].kind, pos := r.objs[g].pos)
    ensures (Valid(h) && Anchored(h, g) && forall m | m in ms :: m in h.objs && m < g) ==>
      Valid(r) && Anchored(r, g)
    decreases |ms|
  {
    if ms == [] then h
    else
      var m0, rest := ms[0], ms[1..];
      assert forall m | m in rest :: m in ms;
      assert GetShapes(h.objs, g) + [m0] + rest == GetShapes(h.objs, g) + ms;
      AddShapes(AddShape(h, g, m0), g, rest)
  }

  /** `directGroupShapes`: a new group receives the members in the given order (and so
      is anchored at their smallest coordinates); the members leave the top level and
      the selection, and the group is put on top. */
  function DirectGroup(b: Board, ms: seq<Id>): (r: Out<Id>)
    ensures IsGroup(r.board.heap.objs, r.value) && GetShapes(r.board.heap.objs, r.value) == ms
    ensures forall x :: x in r.board.shapes <==> (x in b.shapes && x !in ms) || x == r.value
    ensures r.board.shapes != [] && r.board.shapes[|r.board.shapes| - 1] == r.value
    ensures forall x :: x in r.board.selected <==> x in b.selected && x !in ms
  {
    var n := NewGroup(b.heap);
    var g := n.value;
    var h := AddShapes(n.heap, g, ms);
    RemoveAllMembers(b.shapes, ms);
    RemoveAllMembers(b.selected, ms);
    Out(Board(h, RemoveAll(b.shapes, ms) + [g], RemoveAll(b.selected, ms)), g)
  }

  /** Grouping only adds to the heap: the old objects are untouched, the group is new,
      and on a sound board whose members exist the result is sound, with the group
      anchored at its members' smallest coordinates. */
  lemma GroupedBoard(b: Board, ms: seq<Id>)
    ensures var r := DirectGroup(b, ms);
      Valid(b.heap) ==> (r.value !in b.heap.objs
        && forall o | o in b.heap.objs :: o in r.board.heap.objs && r.board.heap.objs[o] == b.heap.objs[o])
    ensures var r := DirectGroup(b, ms);
      Sound(b) && (forall m | m in ms :: m in b.heap.objs) ==> Sound(r.board) && Anchored(r.board.heap, r.value)
  {
    var n := NewGroup(b.heap);
    var r := DirectGroup(b, ms);
    if Valid(b.heap) {
      assert forall o | o in b.heap.objs :: o in n.heap.objs && n.heap.objs[o] == b.heap.objs[o] && o != n.value;
      if forall m | m in ms :: m in b.heap.objs {
        assert forall m | m in ms :: m in n.heap.objs && m < n.value;
        assert Valid(r.board.heap) && Anchored(r.board.heap, r.value);
      }
    }
  }

  /** `directUngroupShape`: the group's children are appended to the top level, then the
      group itself is removed from the list and from the selection. The heap, and the
      group's own child list, are left alone. */
  function DirectUngroup(b: Board, g: Id): (r: Out<seq<Id>>)
    ensures r.value == GetShapes(b.heap.objs, g) && r.board.heap == b.heap
    ensures Valid(b.heap) && g in b.shapes ==> r.board.shapes == RemoveFirst(b.shapes, g) + r.value
    ensures r.board.selected == RemoveFirst(b.selected, g)
    ensures Sound(b) ==> Sound(r.board)
  {
    var kids := GetShapes(b.heap.objs, g);
    assert Valid(b.heap) ==> g !in kids by {
      if Valid(b.heap) && g in b.heap.objs {
        assert forall c | c in kids :: c < g;
      }
    }
    assert g in b.shapes ==> RemoveFirst(b.shapes + kids, g) == RemoveFirst(b.shapes, g) + kids by {
      if g in b.shapes {
        RemoveFirstBeforeTail(b.shapes, kids, g);
      }
    }
    assert Sound(b) ==> forall c | c in kids :: c in b.heap.objs;
    RemoveFirstWithin(b.shapes + kids, g);
    RemoveFirstWithin(b.selected, g);
    Out(b.(shapes := RemoveFirst(b.shapes + kids, g), selected := RemoveFirst(b.selected, g)), kids)
  }

  /** Ungrouping puts the children on the top level and takes one occurrence of the
      group off it and out of the selection. */
  lemma DirectUngroupCounts(b: Board, g: Id)
    ensures var r := DirectUngroup(b, g);
      && multiset(r.board.shapes) == multiset(b.shapes) + multiset(r.value) - multiset{g}
      && multiset(r.board.selected) == multiset(b.selected) - multiset{g}
  {
    var kids := GetShapes(b.heap.objs, g);
    RemoveFirstCounts(b.shapes + kids, g);
    RemoveFirstCounts(b.selected, g);
  }

  /** `directRegroupShapes`: the children leave the top level and the selection, and the
      group is put back on top. */
  function DirectRegroup(b: Board, kids: seq<Id>, g: Id): (r: Board)
    ensures r.heap == b.heap
    ensures forall x :: x in r.shapes <==> (x in b.shapes && x !in kids) || x == g
    ensures r.shapes != [] && r.shapes[|r.shapes| - 1] == g
    ensures forall x :: x in r.selected <==> x in b.selected && x !in kids
    ensures Sound(b) && g in b.heap.objs ==> Sound(r)
  {
    RemoveAllMembers(b.shapes, kids);
    RemoveAllMembers(b.selected, kids);
    Board(b.heap, RemoveAll(b.shapes, kids) + [g], RemoveAll(b.selected, kids))
  }

  /** `clearShapes`. */
  function Clear(b: Board): (r: Board)
    ensures r.heap == b.heap && r.shapes == [] && r.selected == []
    ensures Valid(b.heap) ==> Sound(r)
  {
    Board(b.heap, [], [])
  }

  /** `selectAll`: the selection becomes a copy of the top-level list. */
  function SelectAll(b: Board): (r: Board)
    ensures r.heap == b.heap && r.shapes == b.shapes && r.selected == b.shapes
    ensures Sound(b) ==> Sound(r)
  {
    b.(selected := b.shapes)
  }

  /** `deselectAll`. */
  function DeselectAll(b: Board): (r: Board)
    ensures r.heap == b.heap && r.shapes == b.shapes && r.selected == []
    ensures Sound(b) ==> Sound(r)
  {
    b.(selected := [])
  }

  /** `deleteSelected`: every occurrence of every selected shape leaves the top level,
      the rest keep their order, and the selection is emptied; no command is recorded. */
  function DeleteSelected(b: Board): (r: Board)
    ensures r.heap == b.heap && r.selected == []
    ensures forall x :: x in r.shapes <==> x in b.shapes && x !in b.selected
    ensures forall x | x !in b.selected :: multiset(r.shapes)[x] == multiset(b.shapes)[x]
    ensures Sound(b) ==> Sound(r)
  {
    var shapes := RemoveAll(b.shapes, b.selected);
    assert forall x :: multiset(shapes)[x] == if x in b.selected then 0 else multiset(b.shapes)[x] by {
      forall x ensures multiset(shapes)[x] == if x in b.selected then 0 else multiset(b.shapes)[x] {
        RemoveAllCounts(b.shapes, b.selected, x);
      }
    }
    b.(shapes := shapes, selected := [])
  }

  /** After `selectAll`, `deleteSelected` leaves an empty board, as `clearShapes` does. */
  lemma DeleteAllIsClear(b: Board)
    ensures DeleteSelected(SelectAll(b)) == Clear(b)
  {
    RemoveAllCovered(b.shapes, b.shapes);
  }

  /** Grouping a list of distinct top-level shapes, each once, leaves the status-bar
      totals unchanged: the group counts as the sum of its members. */
  lemma GroupKeepsCounts(b: Board, ms: seq<Id>)
    requires Sound(b) && Distinct(b.shapes) && Distinct(ms) && forall m | m in ms :: m in b.shapes
    ensures var r := DirectGroup(b, ms).board;
      CountAll(r.heap.objs, r.shapes) == CountAll(b.heap.objs, b.shapes)
  {
    var out := DirectGroup(b, ms);
    var r, g := out.board, out.value;
    GroupedBoard(b, ms);
    var rest := RemoveAll(b.shapes, ms);
    assert r.shapes == rest + [g];
    assert forall o | o in b.heap.objs :: o in r.heap.objs && r.heap.objs[o].kind == b.heap.objs[o].kind;
    assert forall t | t in rest :: t in b.heap.objs by {
      assert forall t | t in rest :: t in r.shapes;
    }
    CountAllAppend(r.heap.objs, rest, [g]);
    CountAllSingle(r.heap.objs, g);
    GroupCountIsChildrenSum(r.heap, g);
    CountAllAgree(b.heap, r.heap.objs, rest);
    CountAllAgree(b.heap, r.heap.objs, ms);
    CountAllAppend(b.heap.objs, rest, ms);
    SplitOff(b.shapes, ms);
    CountAllPermutation(b.heap.objs, rest + ms, b.shapes);
  }

  /** Ungrouping a top-level group leaves the status-bar totals unchanged. */
  lemma UngroupKeepsCounts(b: Board, g: Id)
    requires Sound(b) && g in b.shapes && IsGroup(b.heap.objs, g)
    ensures var r := DirectUngroup(b, g).board;
      CountAll(r.heap.objs, r.shapes) == CountAll(b.heap.objs, b.shapes)
  {
    var kids := GetShapes(b.heap.objs, g);
    var rest := RemoveFirst(b.shapes, g);
    CountAllRemoveFirst(b.heap.objs, b.shapes, g);
    GroupCountIsChildrenSum(b.heap, g);
    CountAllAppend(b.heap.objs, rest, kids);
  }

  /** Ungrouping a freshly made group appends its members, in their given order, after
      the shapes that were not grouped: [A, C, B] grouped over [A, B] comes back as
      [C, A, B]. */
  lemma GroupThenUngroup(b: Board, ms: seq<Id>)
    requires Sound(b)
    ensures var out := DirectGroup(b, ms); var back := DirectUngroup(out.board, out.value);
      back.value == ms && back.board.shapes == RemoveAll(b.shapes, ms) + ms
  {
    var out := DirectGroup(b, ms);
    var g := out.value;
    GroupedBoard(b, ms);
    var rest := RemoveAll(b.shapes, ms);
    assert g !in rest by {
      assert forall t | t in rest :: t in b.shapes;
    }
    assert out.board.shapes == rest + [g];
    RemoveFirstAfterAppend(rest, ms, g);
  }

  /** Ungrouping a top-level group whose children are not top-level shapes and then
      regrouping it puts the group back, on top of the drawing order rather than where
      it was. */
  lemma UngroupThenRegroup(b: Board, g: Id)
    requires Sound(b) && g in b.shapes && IsGroup(b.heap.objs, g)
    requires forall c | c in GetShapes(b.heap.objs, g) :: c !in b.shapes
    ensures var out := DirectUngroup(b, g);
      DirectRegroup(out.board, out.value, g).shapes == RemoveFirst(b.shapes, g) + [g]
  {
    var out := DirectUngroup(b, g);
    var kids := out.value;
    var rest := RemoveFirst(b.shapes, g);
    assert forall i | 0 <= i < |rest| :: rest[i] !in kids by {
      RemoveFirstWithin(b.shapes, g);
    }
    RemoveAllAppend(rest, kids, kids);
    RemoveAllNone(rest, kids);
    RemoveAllCovered(kids, kids);
    assert rest + [] == rest;
  }
}
