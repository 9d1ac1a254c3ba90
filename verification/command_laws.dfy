/** What the commands promise about the board: what each `execute` leaves behind, and
    how far its `undo` takes the board back. Several commands come back only
    approximately, and the lemmas below say exactly how. */
module CommandLaws {
  import opened JavaLang
  import opened Store
  import opened Shapes
  import opened Motion
  import opened Cloning
  import opened Counts
  import opened Whiteboard
  import opened Commands

  /** Undoing what `execute` returned gives back the board it started from. */
  predicate RoundTrips(b: Board, c: Command)
  {
    var e := Execute(b, c);
    Undo(e.board, e.cmd).board == b
  }

  // ------------------------------------------------------------------- add

  /** Adding a shape that is not on the board, then undoing, restores the board. */
  lemma AddRoundTrip(b: Board, c: Command)
    requires c.AddShapeCmd? && c.shape !in b.shapes && c.shape !in b.selected
    ensures RoundTrips(b, c)
  {
    AddThenRemove(b, c.shape);
  }

  /** Adding a shape that is already on the board and undoing removes its FIRST
      occurrence, so the shape ends on top of the drawing order instead of where it was. */
  lemma AddUndoMovesListedShape(b: Board, s: Id)
    requires s in b.shapes
    ensures var u := AddUndo(AddExecute(b, s), s);
      u.shapes == RemoveFirst(b.shapes, s) + [s] && u.heap == b.heap
  {
    AddThenRemoveEarlier(b, s);
  }

  // ---------------------------------------------------------------- delete

  /** `DeleteCommand.execute` clears the selection and removes from the top level every
      shape that is one of the stored clones, keeping the order of the rest. */
  lemma DeleteRemovesClones(b: Board, clones: seq<Id>)
    ensures var r := DeleteExecute(b, clones);
      && r.heap == b.heap && r.selected == []
      && r.shapes == RemoveAll(b.shapes, clones)
      && (forall x :: x in r.shapes <==> x in b.shapes && x !in clones)
  {
    RemoveEachKeptIsRemoveAll(b.shapes, clones);
    RemoveAllMembers(b.shapes, clones);
  }

  /** `execute` also remembers the selection it found, for `undo`. */
  lemma DeleteRemembersSelection(b: Board, c: Command)
    requires c.DeleteCmd?
    ensures var e := Execute(b, c);
      e.cmd.DeleteCmd? && e.cmd.clones == c.clones && e.cmd.previous == Some(b.selected)
  {
  }

  /** None of the clones a fresh `DeleteCommand` stores is on the board it was made for. */
  lemma ClonesAreNew(b: Board, ts: seq<Id>)
    requires Sound(b) && forall t | t in ts :: t in b.heap.objs
    ensures var d := NewDelete(b, ts);
      forall i | 0 <= i < |b.shapes| :: b.shapes[i] !in d.value.clones
  {
    var d := NewDelete(b, ts);
    var clones := d.value.clones;
    forall i, j | 0 <= i < |b.shapes| && 0 <= j < |clones| ensures b.shapes[i] != clones[j] {
      assert CopyOf(d.board.heap, clones[j], b.heap, ts[j]);
    }
  }

  /** The clones a fresh `DeleteCommand` stores are new objects, so its first `execute`
      finds none of them on the board: it removes nothing and only clears the selection. */
  lemma FreshDeleteRemovesNothing(b: Board, ts: seq<Id>)
    requires Sound(b) && forall t | t in ts :: t in b.heap.objs
    ensures var d := NewDelete(b, ts); var r := DeleteExecute(d.board, d.value.clones);
      r.shapes == b.shapes && r.selected == []
  {
    var d := NewDelete(b, ts);
    ClonesAreNew(b, ts);
    DeleteRemovesClones(d.board, d.value.clones);
    RemoveAllNone(b.shapes, d.value.clones);
  }

  /** Deleting with a fresh command and undoing keeps every shape and restores the
      selection, but also appends the clones: the undo adds copies next to the shapes
      that were never removed. */
  lemma DeleteUndoAddsClones(b: Board, ts: seq<Id>)
    requires Sound(b) && forall t | t in ts :: t in b.heap.objs
    ensures var d := NewDelete(b, ts); var clones := d.value.clones;
      var u := DeleteUndo(DeleteExecute(d.board, clones), clones, Some(d.board.selected));
      u.shapes == b.shapes + clones && u.selected == b.selected && |clones| == |ts|
  {
    FreshDeleteRemovesNothing(b, ts);
  }

  /** Redoing that delete takes exactly the clones off again: the board then lists the
      shapes it started with and nothing is selected. */
  lemma DeleteRedoRemovesClones(b: Board, ts: seq<Id>)
    requires Sound(b) && forall t | t in ts :: t in b.heap.objs
    ensures var d := NewDelete(b, ts); var clones := d.value.clones;
      var u := DeleteUndo(DeleteExecute(d.board, clones), clones, Some(d.board.selected));
      var again := DeleteExecute(u, clones);
      again.shapes == b.shapes && again.selected == []
  {
    var d := NewDelete(b, ts);
    var clones := d.value.clones;
    var u := DeleteUndo(DeleteExecute(d.board, clones), clones, Some(d.board.selected));
    DeleteUndoAddsClones(b, ts);
    ClonesAreNew(b, ts);
    DeleteRemovesClones(u, clones);
    RemoveAllAppend(b.shapes, clones, clones);
    RemoveAllNone(b.shapes, clones);
    RemoveAllCovered(clones, clones);
    assert b.shapes + [] == b.shapes;
  }

  // ------------------------------------------------------------------ move

  /** Moving and moving back restores the board exactly, points included. */
  lemma MoveRoundTrip(b: Board, c: Command)
    requires c.MoveCmd?
    ensures RoundTrips(b, c)
  {
    MoveEachRoundTrip(b.heap, c.targets, c.dx, c.dy);
  }

  /** A move changes only points: objects, lists and soundness stay. */
  lemma MoveKeepsBoard(b: Board, ts: seq<Id>, dx: int, dy: int)
    ensures var r := MoveExecute(b, ts, dx, dy);
      r.heap.objs == b.heap.objs && r.heap.pts.Keys == b.heap.pts.Keys
      && r.shapes == b.shapes && r.selected == b.selected
      && (Sound(b) ==> Sound(r))
  {
  }

  // ---------------------------------------------------------------- rotate

  /** An absolute rotation of separate targets leaves every target at the stored angle
      and changes nothing but rotations. */
  lemma RotateToLands(b: Board, ts: seq<Id>, amount: int)
    requires Separate(b.heap.objs, ts)
    ensures var objs := b.heap.objs; var r := RotateExecute(b, ts, amount, true).heap.objs;
      && OnlyRotations(objs, r)
      && (forall i | 0 <= i < |ts| && ts[i] in objs :: r[ts[i]].rotation == amount)
      && (forall o | o in objs && Untouched(objs, ts, o) :: r[o].rotation == objs[o].rotation)
  {
  }

  /** A relative rotation of separate targets turns each target by the amount and brings
      the result into [0, 360). */
  lemma RotateByLands(b: Board, ts: seq<Id>, amount: int)
    requires Separate(b.heap.objs, ts)
    ensures var objs := b.heap.objs; var r := RotateExecute(b, ts, amount, false).heap.objs;
      && OnlyRotations(objs, r)
      && forall i | 0 <= i < |ts| && ts[i] in objs ::
           0 <= r[ts[i]].rotation < 360 && exists q :: objs[ts[i]].rotation + amount == 360 * q + r[ts[i]].rotation
  {
  }

  /** After a rotation, separate targets are still separate and untouched objects still
      untouched: rotating does not change the shape trees. */
  lemma TurnKeepsWalks(a: Objs, r: Objs, ts: seq<Id>)
    requires OnlyRotations(a, r)
    ensures forall j | 0 <= j < |ts| :: Walk(r, ts[j]) == Walk(a, ts[j])
    ensures Separate(a, ts) ==> Separate(r, ts)
    ensures forall o :: Untouched(a, ts, o) ==> Untouched(r, ts, o)
  {
    RotationsKeepTree(a, r);
    forall j | 0 <= j < |ts| ensures Walk(r, ts[j]) == Walk(a, ts[j]) {
      WalkSameTree(a, r, ts[j]);
    }
  }

  /** Undoing a rotation command built for separate targets puts every target back at the
      rotation it had when the command was made; objects no target reaches were never
      turned; and nothing but rotations changed. */
  lemma RotateRoundTrip(b: Board, ts: seq<Id>, amount: int, absolute: bool)
    requires Separate(b.heap.objs, ts)
    ensures var objs := b.heap.objs;
      var u := RotateUndo(RotateExecute(b, ts, amount, absolute), ts, Originals(objs, ts)).heap.objs;
      && OnlyRotations(objs, u)
      && (forall i | 0 <= i < |ts| && ts[i] in objs :: u[ts[i]].rotation == objs[ts[i]].rotation)
      && (forall o | o in objs && Untouched(objs, ts, o) :: u[o].rotation == objs[o].rotation)
  {
    var mid := RotateExecute(b, ts, amount, absolute).heap.objs;
    RestoreOriginals(b.heap.objs, mid, ts);
  }

  lemma RestoreOriginals(objs: Objs, mid: Objs, ts: seq<Id>)
    requires Separate(objs, ts) && OnlyRotations(objs, mid)
    requires forall o | o in objs && Untouched(objs, ts, o) :: mid[o].rotation == objs[o].rotation
    ensures var u := TurnEach(mid, ts, Back(Originals(objs, ts)));
      && OnlyRotations(objs, u)
      && (forall i | 0 <= i < |ts| && ts[i] in objs :: u[ts[i]].rotation == objs[ts[i]].rotation)
      && (forall o | o in objs && Untouched(objs, ts, o) :: u[o].rotation == objs[o].rotation)
  {
    var orig := Originals(objs, ts);
    TurnKeepsWalks(objs, mid, ts);
    var u := TurnEach(mid, ts, Back(orig));
    forall i | 0 <= i < |ts| && ts[i] in objs ensures u[ts[i]].rotation == objs[ts[i]].rotation {
      assert ts[i] in orig;
    }
  }

  // ----------------------------------------------------------------- group

  /** A group command over fewer than two shapes does nothing, and neither does its
      undo while no group was created. */
  lemma SmallGroupIsNoop(b: Board, ms: seq<Id>)
    requires |ms| <= 1
    ensures var e := GroupExecute(b, ms, None);
      e == Out(b, None) && GroupUndo(e.board, ms, e.value) == b
  {
  }

  /** Grouping two or more shapes makes a group holding them in the given order, puts
      it on top in place of its members, and selects just the group. */
  lemma GroupMakesGroup(b: Board, ms: seq<Id>, created: Option<Id>)
    requires |ms| > 1
    ensures var e := GroupExecute(b, ms, created);
      && e.value.Some? && var g := e.value.value;
      && IsGroup(e.board.heap.objs, g) && GetShapes(e.board.heap.objs, g) == ms
      && (forall x :: x in e.board.shapes <==> (x in b.shapes && x !in ms) || x == g)
      && e.board.shapes[|e.board.shapes| - 1] == g
      && e.board.selected == [g]
  {
    var out := DirectGroup(b, ms);
    var s := DirectSelect(out.board, Some(out.value));
    assert out.value in s.selected;
    assert s.selected == [out.value];
  }

  /** The group is a new object placed at its members' top-left corner; the objects that
      were there stay as they were, and the board stays sound. */
  lemma GroupKeepsHeap(b: Board, ms: seq<Id>, created: Option<Id>)
    requires Sound(b) && |ms| > 1 && forall m | m in ms :: m in b.heap.objs
    ensures var e := GroupExecute(b, ms, created); var g := e.value.value;
      && e.value.Some? && g !in b.heap.objs && Anchored(e.board.heap, g) && Sound(e.board)
      && forall o | o in b.heap.objs :: o in e.board.heap.objs && e.board.heap.objs[o] == b.heap.objs[o]
  {
    GroupedBoard(b, ms);
  }

  /** Undoing a group puts its members back after the shapes that were not grouped and
      selects them; the group object itself stays in the heap. */
  lemma GroupUndoRestoresMembers(b: Board, ms: seq<Id>, created: Option<Id>)
    requires Sound(b) && |ms| > 1 && forall m | m in ms :: m in b.heap.objs
    ensures var e := GroupExecute(b, ms, created); var u := GroupUndo(e.board, ms, e.value);
      && u.shapes == RemoveAll(b.shapes, ms) + ms && u.selected == ms
      && u.heap == e.board.heap && Sound(u)
  {
    GroupMakesGroup(b, ms, created);
    GroupKeepsHeap(b, ms, created);
    GroupThenUngroup(b, ms);
  }

  /** When the members are, in order, the last top-level shapes, grouping and undoing
      restores the board's list exactly and leaves the members selected. */
  lemma GroupRoundTripOnTop(b: Board, rest: seq<Id>, ms: seq<Id>)
    requires Sound(b) && |ms| > 1 && b.shapes == rest + ms
    requires forall i | 0 <= i < |rest| :: rest[i] !in ms
    ensures var e := GroupExecute(b, ms, None); var u := GroupUndo(e.board, ms, e.value);
      u.shapes == b.shapes && u.selected == ms
  {
    assert forall m | m in ms :: m in b.shapes;
    GroupUndoRestoresMembers(b, ms, None);
    RemoveAllAppend(rest, ms, ms);
    RemoveAllNone(rest, ms);
    RemoveAllCovered(ms, ms);
    assert rest + [] == rest;
  }

  /** `undo` forgets the created group, so a second undo finds nothing to do. */
  lemma GroupUndoForgets(b: Board, c: Command)
    requires c.GroupCmd?
    ensures var u := Undo(b, c);
      u.cmd.GroupCmd? && u.cmd.members == c.members && u.cmd.created == None
      && Undo(u.board, u.cmd) == u
  {
  }

  /** Redoing a group makes a different group object from the first one. */
  lemma GroupRedoIsNewGroup(b: Board, ms: seq<Id>, created: Option<Id>)
    requires Sound(b) && |ms| > 1 && forall m | m in ms :: m in b.heap.objs
    ensures var e := GroupExecute(b, ms, created); var u := GroupUndo(e.board, ms, e.value);
      var again := GroupExecute(u, ms, None);
      again.value.Some? && e.value.Some? && again.value != e.value
  {
    var e := GroupExecute(b, ms, created);
    var u := GroupUndo(e.board, ms, e.value);
    GroupKeepsHeap(b, ms, created);
    GroupUndoRestoresMembers(b, ms, created);
    assert forall m | m in ms :: m in u.heap.objs;
    GroupKeepsHeap(u, ms, None);
  }

  /** Grouping distinct top-level shapes of a list without repeats keeps the status-bar
      totals. */
  lemma GroupKeepsTotals(b: Board, ms: seq<Id>, created: Option<Id>)
    requires Sound(b) && Distinct(b.shapes) && Distinct(ms) && forall m | m in ms :: m in b.shapes
    ensures var e := GroupExecute(b, ms, created);
      CountAll(e.board.heap.objs, e.board.shapes) == CountAll(b.heap.objs, b.shapes)
  {
    if |ms| > 1 {
      GroupKeepsCounts(b, ms);
    }
  }

  // --------------------------------------------------------------- ungroup

  /** Ungrouping a top-level group replaces it by its children at the top of the
      drawing order, selects the children, and keeps the status-bar totals. */
  lemma UngroupSpreadsChildren(b: Board, g: Id)
    requires Sound(b) && g in b.shapes && IsGroup(b.heap.objs, g)
    ensures var kids := GetShapes(b.heap.objs, g); var r := UngroupExecute(b, g);
      && r.shapes == RemoveFirst(b.shapes, g) + kids && r.selected == kids
      && r.heap == b.heap && Sound(r)
      && CountAll(r.heap.objs, r.shapes) == CountAll(b.heap.objs, b.shapes)
  {
    UngroupKeepsCounts(b, g);
    assert forall x | x in GetShapes(b.heap.objs, g) :: x in b.heap.objs;
  }

  /** Undoing an ungroup of a non-empty group whose children were not top-level shapes
      puts the group back on top (not where it was) and selects it alone. An ungroup
      of an empty group is not undone at all. */
  lemma UngroupUndoRegroups(b: Board, g: Id)
    requires Sound(b) && g in b.shapes && IsGroup(b.heap.objs, g)
    requires forall c | c in GetShapes(b.heap.objs, g) :: c !in b.shapes
    ensures var c := NewUngroup(b.heap.objs, g); var e := UngroupExecute(b, g);
      var u := UngroupUndo(e, g, c.children);
      && u.heap == b.heap
      && (c.children != [] ==> u.shapes == RemoveFirst(b.shapes, g) + [g] && u.selected == [g])
      && (c.children == [] ==> u == e)
  {
    var c := NewUngroup(b.heap.objs, g);
    var e := UngroupExecute(b, g);
    UngroupSpreadsChildren(b, g);
    UngroupThenRegroup(b, g);
    if c.children != [] {
      var s := DirectSelect(DirectRegroup(e, c.children, g), Some(g));
      assert g in s.selected;
      assert s.selected == [g];
    }
  }

  // ------------------------------------------------------------- composite

  /** Each part, run on the board the previous parts left, comes back under its undo. */
  predicate AllRoundTrip(b: Board, cs: seq<Command>)
    decreases |cs|
  {
    cs == [] || (RoundTrips(b, cs[0]) && AllRoundTrip(Execute(b, cs[0]).board, cs[1..]))
  }

  /** The undo loop, run on what the execute loop left, gives back the board the execute
      loop started from when each part comes back: the parts are undone in reverse. */
  lemma {:induction false} LoopsRoundTrip(b: Board, cs: seq<Command>)
    requires AllRoundTrip(b, cs)
    ensures var all := ExecuteAll(b, cs); UndoAll(all.board, all.value).board == b
    decreases |cs|
  {
    if cs != [] {
      var first := Execute(b, cs[0]);
      var rest := ExecuteAll(first.board, cs[1..]);
      LoopsRoundTrip(first.board, cs[1..]);
      assert ([first.cmd] + rest.value)[1..] == rest.value;
    }
  }

  /** A composite comes back under its undo when each part does. */
  lemma CompositeRoundTrip(b: Board, c: Command)
    requires c.CompositeCmd? && AllRoundTrip(b, c.commands)
    ensures RoundTrips(b, c)
  {
    var all := ExecuteAll(b, c.commands);
    LoopsRoundTrip(b, c.commands);
    CompositeExecutes(b, c.commands);
    CompositeUndoes(all.board, all.value);
  }

  /** A composite runs its execute loop on the parts. */
  lemma CompositeExecutes(b: Board, cs: seq<Command>)
    ensures Execute(b, CompositeCmd(cs)) == Step(ExecuteAll(b, cs).board, CompositeCmd(ExecuteAll(b, cs).value))
  {
  }

  /** A composite runs its undo loop on the parts. */
  lemma CompositeUndoes(b: Board, done: seq<Command>)
    ensures Undo(b, CompositeCmd(done)).board == UndoAll(b, done).board
  {
  }

  /** A composite of `xs + ys` acts as the composite of `xs` followed by the composite
      of `ys`, and its undo as undoing the composite of `ys`, then that of `xs`. */
  lemma CompositeConcat(b: Board, xs: seq<Command>, ys: seq<Command>)
    ensures Execute(b, CompositeCmd(xs + ys)).board
      == Execute(Execute(b, CompositeCmd(xs)).board, CompositeCmd(ys)).board
    ensures Undo(b, CompositeCmd(xs + ys)).board
      == Undo(Undo(b, CompositeCmd(ys)).board, CompositeCmd(xs)).board
  {
    ExecuteAllAppend(b, xs, ys);
    UndoAllAppend(b, xs, ys);
  }

  /** A list of moves always comes back, so a composite of moves does. */
  lemma {:induction false} MovesRoundTrip(b: Board, cs: seq<Command>)
    requires forall i | 0 <= i < |cs| :: cs[i].MoveCmd?
    ensures AllRoundTrip(b, cs)
    decreases |cs|
  {
    if cs != [] {
      MoveRoundTrip(b, cs[0]);
      MovesRoundTrip(Execute(b, cs[0]).board, cs[1..]);
    }
  }
}
