/** `WhiteboardPanel` as a whole: the board, the command history, and the state of the
    mouse gesture in progress; the entry points that build commands and hand them to
    the history; the mouse handlers; and `StateManager.save`/`restore`. */
module Editor {
  import opened JavaLang
  import opened Geometry
  import opened Store
  import opened Shapes
  import opened Bounds
  import opened Motion
  import opened Cloning
  import opened Whiteboard
  import opened Commands
  import opened CommandLaws
  import opened History
  import opened Selection

  /** Listeners are known only by their identity. */
  type Listener = nat

  /** The panel's gesture fields. `None` stands for a null `Point` or `Rectangle`.
      While the rotation centre is dragged, `centerDrag` holds the last point of that
      drag. */
  datatype Gesture = Gesture(
    selStart: Option<Point>,
    rect: Option<Box>,
    dragStart: Option<Point>,
    dragOrigin: Option<Point>,
    totalDx: int,
    totalDy: int,
    centerDrag: Option<Point>)

  /** The panel: its document, its `CommandManager`, its gesture fields. */
  datatype Panel = Panel(board: Board, history: Manager<Command, Listener>, gesture: Gesture)

  /** No gesture in progress: what every mouse release leaves behind. */
  predicate Idle(g: Gesture)
  {
    g.rect.None? && g.dragStart.None? && g.dragOrigin.None?
    && g.totalDx == 0 && g.totalDy == 0 && g.centerDrag.None?
  }

  /** A freshly constructed panel over the shapes that already exist. */
  function NewPanel(h: Heap): (e: Panel)
    requires Valid(h)
    ensures Sound(e.board) && e.board.shapes == [] && e.board.selected == []
    ensures e.history.undo == [] && e.history.redo == [] && e.history.listeners == []
    ensures Idle(e.gesture) && e.gesture.selStart.None?
  {
    Panel(Board(h, [], []), NewManager(), Gesture(None, None, None, None, 0, 0, None))
  }

  // ------------------------------------------------------------ running commands

  /** `commandManager.executeCommand(c)`; in this model `execute` always returns. */
  function Run(e: Panel, c: Command): (r: Panel)
    ensures r.history.redo == [] && |r.history.undo| == |e.history.undo| + 1
    ensures r.history.undo[..|e.history.undo|] == e.history.undo
    ensures r.history.notified == e.history.notified + 1
    ensures r.history.listeners == e.history.listeners
    ensures r.gesture == e.gesture
  {
    var step := Execute(e.board, c);
    assert (e.history.undo + [step.cmd])[..|e.history.undo|] == e.history.undo;
    e.(board := step.board, history := Executed(e.history, Some(step.cmd)))
  }

  /** `undo()`: the top of the undo stack is undone and moves to the redo stack. */
  function PanelUndo(e: Panel): (r: Panel)
    ensures e.history.undo == [] ==> r == e
    ensures e.history.undo != [] ==>
      r.history.undo == e.history.undo[..|e.history.undo| - 1]
      && |r.history.redo| == |e.history.redo| + 1 && r.history.redo[..|e.history.redo|] == e.history.redo
    ensures Total(r.history) == Total(e.history)
    ensures r.gesture == e.gesture
  {
    match NextUndo(e.history)
    case None => e
    case Some(c) =>
      var step := Undo(e.board, c);
      var m := Undone(e.history, Some(step.cmd));
      assert m.redo[..|e.history.redo|] == e.history.redo;
      MovesKeepTotal(e.history, Some(step.cmd));
      e.(board := step.board, history := m)
  }

  /** `redo()`: the top of the redo stack is executed again and moves back. */
  function PanelRedo(e: Panel): (r: Panel)
    ensures e.history.redo == [] ==> r == e
    ensures e.history.redo != [] ==>
      r.history.redo == e.history.redo[..|e.history.redo| - 1]
      && |r.history.undo| == |e.history.undo| + 1 && r.history.undo[..|e.history.undo|] == e.history.undo
    ensures Total(r.history) == Total(e.history)
    ensures r.gesture == e.gesture
  {
    match NextRedo(e.history)
    case None => e
    case Some(c) =>
      var step := Redo(e.board, c);
      var m := Redone(e.history, Some(step.cmd));
      assert m.undo[..|e.history.undo|] == e.history.undo;
      MovesKeepTotal(e.history, Some(step.cmd));
      e.(board := step.board, history := m)
  }

  /** `undo()` right after `executeCommand(c)`: the board is what the command's `undo`
      makes of what its `execute` left, the undo stack is as before, and the command
      is the only thing to redo. */
  lemma RunUndone(e: Panel, c: Command)
    ensures var step := Execute(e.board, c); var back := Undo(step.board, step.cmd);
      var u := PanelUndo(Run(e, c));
      && u.board == back.board && u.history.undo == e.history.undo
      && u.history.redo == [back.cmd] && u.gesture == e.gesture
      && u.history.notified == e.history.notified + 2
  {
    var step := Execute(e.board, c);
    var r := Run(e, c);
    assert r.history.undo == e.history.undo + [step.cmd];
    assert NextUndo(r.history) == Some(step.cmd);
    assert (e.history.undo + [step.cmd])[..|e.history.undo|] == e.history.undo;
  }

  /** A command that comes back when undone gives the panel back its board through the
      history as well. */
  lemma RunThenUndo(e: Panel, c: Command)
    requires RoundTrips(e.board, c)
    ensures var u := PanelUndo(Run(e, c));
      u.board == e.board && u.history.undo == e.history.undo && |u.history.redo| == 1
  {
    RunUndone(e, c);
  }

  /** Redo after undo re-executes the command as its `undo` left it, and brings the
      undo stack back to its length before the undo with the same commands beneath. */
  lemma PanelUndoThenRedo(e: Panel)
    requires e.history.undo != []
    ensures var u := PanelUndo(e); var r := PanelRedo(u);
      && r.history.redo == e.history.redo
      && |r.history.undo| == |e.history.undo|
      && r.history.undo[..|e.history.undo| - 1] == e.history.undo[..|e.history.undo| - 1]
      && r.board == Execute(u.board, u.history.redo[|u.history.redo| - 1]).board
  {
    var u := PanelUndo(e);
    var c := NextUndo(e.history).value;
    var step := Undo(e.board, c);
    assert u.history.redo == e.history.redo + [step.cmd];
    assert u.history.redo[..|u.history.redo| - 1] == e.history.redo;
  }

  // ------------------------------------------------------------------ adding

  /** `addShape(shape)`: a null shape is ignored; otherwise one `AddShapeCommand` runs. */
  function AddShape(e: Panel, s: Option<Id>): (r: Panel)
    ensures s.None? ==> r == e
    ensures s.Some? ==>
      && r.board == e.board.(shapes := e.board.shapes + [s.value])
      && r.history.undo == e.history.undo + [AddShapeCmd(s.value)] && r.history.redo == []
      && r.history.notified == e.history.notified + 1
      && r.gesture == e.gesture
  {
    if s.None? then e else Run(e, AddShapeCmd(s.value))
  }

  /** Undoing the addition of a shape that was neither listed nor selected gives the
      board back. */
  lemma AddShapeUndone(e: Panel, s: Id)
    requires s !in e.board.shapes && s !in e.board.selected
    ensures var u := PanelUndo(AddShape(e, Some(s)));
      u.board == e.board && u.history.undo == e.history.undo && u.history.redo == [AddShapeCmd(s)]
  {
    AddRoundTrip(e.board, AddShapeCmd(s));
    RunThenUndo(e, AddShapeCmd(s));
  }

  /** The commands of a batch that adds `ss`, one per shape, in order. */
  function Adds(ss: seq<Id>): (cs: seq<Command>)
    ensures |cs| == |ss| && forall i | 0 <= i < |ss| :: cs[i] == AddShapeCmd(ss[i])
  {
    seq(|ss|, i requires 0 <= i < |ss| => AddShapeCmd(ss[i]))
  }

  /** The `forEach` that fills the batch of `addMultipleShapes`, one `add` per shape. */
  function AddBatch(ss: seq<Id>): (c: Command)
    ensures c.CompositeCmd? && c.commands == Adds(ss)
    decreases |ss|
  {
    if ss == [] then EmptyComposite()
    else
      var n := |ss| - 1;
      var c := AddTo(AddBatch(ss[..n]), AddShapeCmd(ss[n]));
      assert c.commands == Adds(ss[..n]) + [AddShapeCmd(ss[n])];
      c
  }

  /** `addMultipleShapes(list)`: nothing for a null or empty list; otherwise one
      composite of additions runs, which lists the shapes on top in order. */
  function AddMultipleShapes(e: Panel, ss: Option<seq<Id>>): (r: Panel)
    ensures ss.None? || ss.value == [] ==> r == e
    ensures ss.Some? && ss.value != [] ==>
      && r.board == e.board.(shapes := e.board.shapes + ss.value)
      && r.history.undo == e.history.undo + [CompositeCmd(Adds(ss.value))] && r.history.redo == []
      && r.gesture == e.gesture
  {
    if ss.None? || ss.value == [] then e
    else
      ExecuteAdds(e.board, ss.value);
      Run(e, AddBatch(ss.value))
  }

  /** Executing the additions of `ss` in order puts `ss` on top of the list. */
  lemma {:induction false} ExecuteAdds(b: Board, ss: seq<Id>)
    ensures ExecuteAll(b, Adds(ss)) == Out(b.(shapes := b.shapes + ss), Adds(ss))
    decreases |ss|
  {
    if ss != [] {
      var b1 := b.(shapes := b.shapes + [ss[0]]);
      assert b1.shapes + ss[1..] == b.shapes + ss;
      assert Adds(ss) == [AddShapeCmd(ss[0])] + Adds(ss[1..]);
      ExecuteAllCons(b, AddShapeCmd(ss[0]), Adds(ss[1..]));
      AddSteps(b, ss[0]);
      ExecuteAdds(b1, ss[1..]);
    }
  }

  /** Undoing the additions of distinct new unselected shapes, last first, takes them
      off again. */
  lemma {:induction false} UndoAdds(b: Board, ss: seq<Id>)
    requires Distinct(ss) && forall x | x in ss :: x !in b.shapes && x !in b.selected
    ensures UndoAll(b.(shapes := b.shapes + ss), Adds(ss)).board == b
    decreases |ss|
  {
    if ss != [] {
      var big := b.(shapes := b.shapes + ss);
      var b1 := b.(shapes := b.shapes + [ss[0]]);
      UndoAddsTail(b, ss);
      UndoAdds(b1, ss[1..]);
      UndoAllFirst(big, Adds(ss));
      UndoLastAdd(b, ss[0]);
    }
  }

  /** What the step of `UndoAdds` needs about the rest of the list. */
  lemma UndoAddsTail(b: Board, ss: seq<Id>)
    requires ss != [] && Distinct(ss) && forall x | x in ss :: x !in b.shapes && x !in b.selected
    ensures var b1 := b.(shapes := b.shapes + [ss[0]]);
      && Distinct(ss[1..]) && (forall x | x in ss[1..] :: x !in b1.shapes && x !in b1.selected)
      && b1.(shapes := b1.shapes + ss[1..]) == b.(shapes := b.shapes + ss)
      && Adds(ss)[1..] == Adds(ss[1..]) && Adds(ss)[0] == AddShapeCmd(ss[0])
  {
    var s0, rest := ss[0], ss[1..];
    assert ss == [s0] + rest;
    assert b.shapes + [s0] + rest == b.shapes + ss;
    var cs, tail := Adds(ss), Adds(rest);
    assert cs[1..] == tail by {
      forall i | 0 <= i < |tail| ensures cs[1..][i] == tail[i] {
        assert cs[1..][i] == cs[i + 1] && rest[i] == ss[i + 1];
      }
    }
    DistinctTail(ss);
    assert forall x | x in rest :: x in ss && x != s0;
  }

  /** `UndoAll` undoes the first command last. */
  lemma UndoAllFirst(b: Board, cs: seq<Command>)
    requires cs != []
    ensures UndoAll(b, cs).board == Undo(UndoAll(b, cs[1..]).board, cs[0]).board
  {
  }

  /** Undoing the addition of a new unselected shape on top of the list. */
  lemma UndoLastAdd(b: Board, s: Id)
    requires s !in b.shapes && s !in b.selected
    ensures Undo(b.(shapes := b.shapes + [s]), AddShapeCmd(s)).board == b
  {
    AddRoundTrip(b, AddShapeCmd(s));
    assert Execute(b, AddShapeCmd(s)) == Step(b.(shapes := b.shapes + [s]), AddShapeCmd(s));
  }

  /** `undo()` right after `addMultipleShapes` of distinct new unselected shapes gives
      the board back. */
  lemma AddMultipleUndone(e: Panel, ss: seq<Id>)
    requires ss != [] && Distinct(ss)
    requires forall x | x in ss :: x !in e.board.shapes && x !in e.board.selected
    ensures var u := PanelUndo(AddMultipleShapes(e, Some(ss)));
      u.board == e.board && u.history.undo == e.history.undo
  {
    var c := AddBatch(ss);
    ExecuteAdds(e.board, ss);
    UndoAdds(e.board, ss);
    var big := e.board.(shapes := e.board.shapes + ss);
    assert Execute(e.board, c) == Step(big, c);
    assert Undo(big, c).board == UndoAll(big, Adds(ss)).board;
    RunUndone(e, c);
  }

  // ---------------------------------------------------- grouping and rotating

  /** `groupSelected()`: with more than one shape selected, one `GroupCommand` over a
      copy of the selection runs; otherwise nothing happens. */
  function GroupSelected(e: Panel): (r: Panel)
    ensures |e.board.selected| <= 1 ==> r == e
    ensures |e.board.selected| > 1 ==> |r.history.undo| == |e.history.undo| + 1 && r.history.redo == []
  {
    if |e.board.selected| > 1 then Run(e, GroupCmd(e.board.selected, None)) else e
  }

  /** Grouping the selection leaves one new group, holding the selected shapes in
      selection order, on top of the list in their place; the history remembers the
      command with that group. */
  lemma GroupSelectedGroups(e: Panel)
    requires |e.board.selected| > 1
    ensures var ms := e.board.selected; var r := GroupSelected(e);
      var top := r.history.undo[|r.history.undo| - 1];
      && top.GroupCmd? && top.members == ms && top.created.Some?
      && var g := top.created.value;
      && IsGroup(r.board.heap.objs, g) && GetShapes(r.board.heap.objs, g) == ms
      && r.board.shapes[|r.board.shapes| - 1] == g
      && (forall x :: x in r.board.shapes <==> (x in e.board.shapes && x !in ms) || x == g)
  {
    var ms := e.board.selected;
    var out := GroupExecute(e.board, ms, None);
    GroupThenUndo(e.board, ms);
    GroupMakesGroup(e.board, ms, None);
    RunParts(e, GroupCmd(ms, None));
    assert GroupSelected(e).board == out.board;
  }

  /** What `executeCommand` leaves on the board and on top of the undo stack. */
  lemma RunParts(e: Panel, c: Command)
    ensures var step := Execute(e.board, c); var r := Run(e, c);
      r.board == step.board && r.history.undo == e.history.undo + [step.cmd]
  {
  }

  /** `undo()` after `groupSelected()` brings the members back, at the end of the list,
      and selects them again. */
  lemma GroupSelectedUndone(e: Panel)
    requires Sound(e.board) && |e.board.selected| > 1
    ensures var ms := e.board.selected; var u := PanelUndo(GroupSelected(e));
      u.board.shapes == RemoveAll(e.board.shapes, ms) + ms && u.board.selected == ms
      && u.history.undo == e.history.undo
  {
    var ms := e.board.selected;
    var out := GroupExecute(e.board, ms, None);
    GroupThenUndo(e.board, ms);
    RunUndone(e, GroupCmd(ms, None));
    GroupUndoRestoresMembers(e.board, ms, None);
  }

  /** `GroupCommand` through `execute` and `undo`. */
  lemma GroupThenUndo(b: Board, ms: seq<Id>)
    ensures var out := GroupExecute(b, ms, None); var step := Execute(b, GroupCmd(ms, None));
      && step == Step(out.board, GroupCmd(ms, out.value))
      && Undo(step.board, step.cmd).board == GroupUndo(out.board, ms, out.value)
  {
    var out := GroupExecute(b, ms, None);
    GroupSteps(b, ms, None);
    GroupSteps(out.board, ms, out.value);
  }

  /** The selected shapes that are groups, in selection order. */
  function GroupsIn(objs: Objs, sel: seq<Id>): (gs: seq<Id>)
    ensures forall x :: x in gs <==> x in sel && IsGroup(objs, x)
    ensures |gs| <= |sel|
    ensures (forall x | x in sel :: !IsGroup(objs, x)) ==> gs == []
  {
    if sel == [] then []
    else (if IsGroup(objs, sel[0]) then [sel[0]] else []) + GroupsIn(objs, sel[1..])
  }

  /** The batch of `ungroupSelected`: one `UngroupCommand` per group, each capturing
      that group's children before any of them runs. */
  function UngroupBatch(objs: Objs, gs: seq<Id>): (c: Command)
    ensures c.CompositeCmd? && |c.commands| == |gs|
    ensures forall i | 0 <= i < |gs| :: c.commands[i] == UngroupCmd(gs[i], GetShapes(objs, gs[i]))
    decreases |gs|
  {
    if gs == [] then EmptyComposite()
    else
      var n := |gs| - 1;
      AddTo(UngroupBatch(objs, gs[..n]), NewUngroup(objs, gs[n]))
  }

  /** `ungroupSelected()`: a composite that ungroups every selected group, run only when
      some selected shape is a group. */
  function UngroupSelected(e: Panel): (r: Panel)
    ensures (forall x | x in e.board.selected :: !IsGroup(e.board.heap.objs, x)) ==> r == e
    ensures (exists x | x in e.board.selected :: IsGroup(e.board.heap.objs, x)) ==>
      |r.history.undo| == |e.history.undo| + 1 && r.history.redo == []
  {
    var batch := UngroupBatch(e.board.heap.objs, GroupsIn(e.board.heap.objs, e.board.selected));
    if Commands.IsEmpty(batch) then e else Run(e, batch)
  }

  /** With exactly one group selected, `ungroupSelected()` puts its children on top in
      place of the group and selects them; `undo()` puts the group back on top. */
  lemma UngroupOneSelected(e: Panel, g: Id)
    requires Sound(e.board) && e.board.selected == [g] && g in e.board.shapes
    requires IsGroup(e.board.heap.objs, g)
    requires forall c | c in GetShapes(e.board.heap.objs, g) :: c !in e.board.shapes
    ensures var kids := GetShapes(e.board.heap.objs, g); var r := UngroupSelected(e);
      && r.board.shapes == RemoveFirst(e.board.shapes, g) + kids && r.board.selected == kids
    ensures var kids := GetShapes(e.board.heap.objs, g); var u := PanelUndo(UngroupSelected(e));
      && u.board.heap == e.board.heap
      && (kids != [] ==> u.board.shapes == RemoveFirst(e.board.shapes, g) + [g] && u.board.selected == [g])
  {
    var objs := e.board.heap.objs;
    var c := NewUngroup(objs, g);
    assert GroupsIn(objs, [g]) == [g];
    var batch := UngroupBatch(objs, [g]);
    assert batch == CompositeCmd([c]);
    UngroupSpreadsChildren(e.board, g);
    UngroupUndoRegroups(e.board, g);
    UngroupAlone(e.board, g, c);
    RunUndone(e, batch);
  }

  /** A composite holding one `UngroupCommand` through `execute` and `undo`. */
  lemma UngroupAlone(b: Board, g: Id, c: Command)
    requires c.UngroupCmd? && c.group == g
    ensures var step := Execute(b, CompositeCmd([c])); var x := UngroupExecute(b, g);
      && step == Step(x, CompositeCmd([c]))
      && Undo(step.board, step.cmd).board == UngroupUndo(x, g, c.children)
  {
    var x := UngroupExecute(b, g);
    assert Execute(b, c) == Step(x, c);
    assert [c][1..] == [] && [c] + [] == [c];
    assert ExecuteAll(b, [c]) == Out(x, [c]);
    assert Undo(x, c).board == UngroupUndo(x, g, c.children);
    assert UndoAll(x, [c]).board == UngroupUndo(x, g, c.children);
  }

  /** `rotateSelectedShapes(degrees)`, behind the ±15° buttons: the `int` argument picks
      the absolute constructor of `RotateCommand`. */
  function RotateSelected(e: Panel, degrees: int): (r: Panel)
    ensures e.board.selected == [] ==> r == e
    ensures e.board.selected != [] ==>
      r.history.undo == e.history.undo + [NewRotateTo(e.board.heap.objs, e.board.selected, degrees)]
  {
    if e.board.selected == [] then e
    else Run(e, NewRotateTo(e.board.heap.objs, e.board.selected, degrees))
  }

  /** `rotateSelectedShapesTo(degrees)`. */
  function RotateSelectedTo(e: Panel, degrees: int): (r: Panel)
    ensures e.board.selected == [] ==> r == e
    ensures e.board.selected != [] ==>
      r.history.undo == e.history.undo + [NewRotateTo(e.board.heap.objs, e.board.selected, degrees)]
  {
    if e.board.selected == [] then e
    else Run(e, NewRotateTo(e.board.heap.objs, e.board.selected, degrees))
  }

  /** The two entry points do the same: each selected shape (none inside another) ends
      at the angle `degrees % 360`, whatever its rotation was, rather than turning by
      `degrees`. */
  lemma RotateSelectedIsAbsolute(e: Panel, degrees: int)
    requires e.board.selected != [] && Separate(e.board.heap.objs, e.board.selected)
    ensures RotateSelected(e, degrees) == RotateSelectedTo(e, degrees)
    ensures var objs := e.board.heap.objs; var ts := e.board.selected;
      var r := RotateSelected(e, degrees).board.heap.objs;
      && OnlyRotations(objs, r)
      && forall i | 0 <= i < |ts| && ts[i] in objs :: r[ts[i]].rotation == Rem(degrees, 360)
  {
    RotateToLands(e.board, e.board.selected, Rem(degrees, 360));
  }

  // ------------------------------------------------------------ StateManager

  /** A saved document: the panel afterwards (its heap holds the clones) and the
      memento's list. */
  datatype Saved = Saved(panel: Panel, memento: seq<Id>)

  /** `save`: an `ApplicationMemento` of clones of the top-level shapes, in order. */
  function Save(e: Panel): (r: Saved)
    requires Sound(e.board)
    ensures Sound(r.panel.board) && Extends(e.board.heap, r.panel.board.heap)
    ensures r.panel == e.(board := e.board.(heap := r.panel.board.heap))
    ensures |r.memento| == |e.board.shapes|
    ensures forall i | 0 <= i < |r.memento| ::
      CopyOf(r.panel.board.heap, r.memento[i], e.board.heap, e.board.shapes[i])
      && r.memento[i] !in e.board.heap.objs
  {
    var copies := CloneAll(e.board.heap, e.board.shapes);
    Saved(e.(board := e.board.(heap := copies.heap)), copies.value)
  }

  /** The shapes of a memento are new objects: no original is among them. */
  lemma SavedAreNew(e: Panel)
    requires Sound(e.board)
    ensures var s := Save(e);
      forall i, j | 0 <= i < |s.memento| && 0 <= j < |e.board.shapes| :: s.memento[i] != e.board.shapes[j]
  {
  }

  /** Moving an original shape after saving changes nothing a memento shape holds:
      the clones share no point with the originals. */
  lemma SaveIgnoresMove(e: Panel, t: Id, dx: int, dy: int)
    requires Sound(e.board) && t in e.board.heap.objs
    ensures var s := Save(e); var h := s.panel.board.heap; var m := Move(h, t, dx, dy);
      forall i | 0 <= i < |s.memento| :: Snapshot(m.objs, m.pts, s.memento[i]) == Snapshot(h.objs, h.pts, s.memento[i])
  {
    var s := Save(e);
    CopiesIgnoreMove(e.board.heap, s.panel.board.heap, s.memento, e.board.shapes, t, dx, dy);
  }

  lemma CopiesIgnoreMove(h0: Heap, h: Heap, ks: seq<Id>, ts: seq<Id>, t: Id, dx: int, dy: int)
    requires Valid(h0) && Valid(h) && Extends(h0, h) && t in h0.objs && |ks| == |ts|
    requires forall i | 0 <= i < |ks| :: CopyOf(h, ks[i], h0, ts[i])
    ensures var m := Move(h, t, dx, dy);
      forall i | 0 <= i < |ks| :: ks[i] in h.objs && Snapshot(m.objs, m.pts, ks[i]) == Snapshot(h.objs, h.pts, ks[i])
  {
    var m := Move(h, t, dx, dy);
    forall i | 0 <= i < |ks|
      ensures ks[i] in h.objs && Snapshot(m.objs, m.pts, ks[i]) == Snapshot(h.objs, h.pts, ks[i])
    {
      CopyIgnoresMove(h0, h, ks[i], ts[i], t, dx, dy);
    }
  }

  /** `restore`: both lists are cleared outside the history, then each memento shape
      is added through `addShape`, one command each. */
  function Restore(e: Panel, m: seq<Id>): (r: Panel)
    ensures r.board == Board(e.board.heap, m, [])
    ensures r.history.undo == e.history.undo + Adds(m)
    ensures r.history.redo == if m == [] then e.history.redo else []
    ensures r.history.notified == e.history.notified + |m|
  {
    AddEach(e.(board := Clear(e.board)), m)
  }

  /** The loop of `restore`. */
  function AddEach(e: Panel, ss: seq<Id>): (r: Panel)
    ensures r.board == e.board.(shapes := e.board.shapes + ss)
    ensures r.history.undo == e.history.undo + Adds(ss)
    ensures r.history.redo == if ss == [] then e.history.redo else []
    ensures r.history.notified == e.history.notified + |ss|
    ensures r.gesture == e.gesture
    decreases |ss|
  {
    if ss == [] then
      assert e.history.undo + Adds(ss) == e.history.undo;
      e
    else
      var e1 := AddShape(e, Some(ss[0]));
      var r := AddEach(e1, ss[1..]);
      AddEachStep(e, e1, ss, r);
      r
  }

  /** What `AddEach` promises about `r` after adding `ss` to `e`. */
  predicate AddedAll(e: Panel, ss: seq<Id>, r: Panel)
  {
    && r.board == e.board.(shapes := e.board.shapes + ss)
    && r.history.undo == e.history.undo + Adds(ss)
    && r.history.redo == (if ss == [] then e.history.redo else [])
    && r.history.notified == e.history.notified + |ss|
    && r.gesture == e.gesture
  }

  /** The step of `AddEach`: adding the first shape and then the rest adds them all. */
  lemma AddEachStep(e: Panel, e1: Panel, ss: seq<Id>, r: Panel)
    requires ss != []
    requires e1.board == e.board.(shapes := e.board.shapes + [ss[0]]) && e1.gesture == e.gesture
    requires e1.history.undo == e.history.undo + [AddShapeCmd(ss[0])] && e1.history.redo == []
    requires e1.history.notified == e.history.notified + 1
    requires AddedAll(e1, ss[1..], r)
    ensures AddedAll(e, ss, r)
  {
    var s0, rest := ss[0], ss[1..];
    assert e.board.shapes + [s0] + rest == e.board.shapes + ss;
    var c, tail := AddShapeCmd(s0), Adds(rest);
    assert Adds(ss) == [c] + tail;
    AppendAssoc(e.history.undo, [c], tail);
  }

  /** Saving and then restoring lists, in the original order, a copy of each shape that
      was listed, none of them an original, with nothing selected. */
  lemma SaveThenRestore(e: Panel)
    requires Sound(e.board)
    ensures var s := Save(e); var r := Restore(s.panel, s.memento);
      && |r.board.shapes| == |e.board.shapes| && r.board.selected == []
      && Sound(r.board)
      && forall i | 0 <= i < |e.board.shapes| ::
           CopyOf(r.board.heap, r.board.shapes[i], e.board.heap, e.board.shapes[i])
           && r.board.shapes[i] !in e.board.heap.objs
  {
  }

  /** Restoring installs the memento's own shapes, not copies: a shape moved after one
      restore stays moved through a second restore of the same memento. */
  lemma RestoreTwiceShares(e: Panel, m: seq<Id>, dx: int, dy: int)
    ensures var once := Restore(e, m);
      var moved := once.(board := MoveExecute(once.board, m, dx, dy));
      var twice := Restore(moved, m);
      twice.board.shapes == m && twice.board.heap == MoveEach(e.board.heap, m, dx, dy)
  {
  }

  // --------------------------------------------------------------- the mouse

  /** `isPointNear`: within `radius` on both axes. */
  predicate IsNear(p: Point, c: Point, radius: int)
  {
    Abs(p.x - c.x) <= radius && Abs(p.y - c.y) <= radius
  }

  /** The rotation centre of a shape. */
  function CenterOf(h: Heap, id: Id): Point
  {
    if id in h.objs then At(h.pts, h.objs[id].center) else Point(0, 0)
  }

  /** Pressing near the rotation centre of the only selected shape starts dragging
      that centre instead of anything else. */
  predicate OnCenter(b: Board, p: Point)
  {
    |b.selected| == 1 && IsNear(p, CenterOf(b.heap, b.selected[0]), 5)
  }

  /** `handleMousePress`: the press point is remembered; a right click changes nothing
      else; a press on the single selected shape's rotation centre starts dragging it;
      a ctrl-click toggles the shape under the mouse; a plain click on empty space
      clears the selection and starts a rubber band; a plain click on a shape selects it
      (keeping a selection it is already part of) and starts a drag. */
  function Press(trig: Trig, e: Panel, p: Point, ctrl: bool, right: bool): (r: Panel)
    ensures r.board.heap == e.board.heap && r.board.shapes == e.board.shapes
    ensures r.history == e.history && r.gesture.selStart == Some(p)
    ensures Sound(e.board) ==> Sound(r.board)
    ensures right ==> r.board == e.board && r.gesture == e.gesture.(selStart := Some(p))
    ensures !right && OnCenter(e.board, p) ==>
      r.board == e.board && r.gesture == e.gesture.(selStart := Some(p), centerDrag := Some(p))
    ensures !right && !OnCenter(e.board, p) && ctrl ==>
      r.board.selected == Toggle(e.board.selected, FindShapeAt(trig, e.board.heap, e.board.shapes, p))
  {
    var clicked := FindShapeAt(trig, e.board.heap, e.board.shapes, p);
    var g := e.gesture.(selStart := Some(p));
    if right then e.(gesture := g)
    else if OnCenter(e.board, p) then e.(gesture := g.(centerDrag := Some(p)))
    else if ctrl then
      e.(board := e.board.(selected := Toggle(e.board.selected, clicked)), gesture := g)
    else if clicked.None? then
      e.(board := e.board.(selected := []), gesture := g.(rect := Some(Box(p.x, p.y, 0, 0))))
    else
      e.(board := e.board.(selected := ClickSelect(e.board.selected, clicked.value)),
         gesture := g.(dragStart := Some(p), dragOrigin := Some(p), totalDx := 0, totalDy := 0))
  }

  /** A plain press on a shape selects it as `handleShapeSelection` does and starts a
      drag from the press point with zero totals; a plain press on empty space clears
      the selection and starts a rubber band of no size at the press point. */
  lemma PlainPress(trig: Trig, e: Panel, p: Point)
    requires !OnCenter(e.board, p)
    ensures var hit := FindShapeAt(trig, e.board.heap, e.board.shapes, p);
      var r := Press(trig, e, p, false, false);
      && (hit.Some? ==>
            && r.board == e.board.(selected := ClickSelect(e.board.selected, hit.value))
            && r.gesture == e.gesture.(selStart := Some(p), dragStart := Some(p), dragOrigin := Some(p),
                                       totalDx := 0, totalDy := 0))
      && (hit.None? ==>
            && r.board == e.board.(selected := [])
            && r.gesture == e.gesture.(selStart := Some(p), rect := Some(SpanRect(p, p))))
  {
    assert SpanRect(p, p) == Box(p.x, p.y, 0, 0);
  }

  /** A new point `q` becomes the rotation centre of `t`. */
  lemma RecenterValid(h: Heap, t: Id, q: Ref)
    requires t in h.objs
    ensures Valid(h) && q in h.pts ==> Valid(h.(objs := h.objs[t := h.objs[t].(center := q)]))
  {
    var objs := h.objs[t := h.objs[t].(center := q)];
    assert forall o | o in objs :: Children(objs[o]) == Children(h.objs[o]);
  }

  /** The rotation centre of each listed shape becomes a new point shifted by (dx, dy):
      unlisted shapes and every existing point stay as they were, and on a list
      without repeats each listed shape's new centre is a point that did not exist,
      at its old centre plus (dx, dy). */
  function ShiftCenters(h: Heap, ts: seq<Id>, dx: int, dy: int): (r: Heap)
    ensures Valid(h) ==> Valid(r)
    ensures r.objs.Keys == h.objs.Keys
    ensures forall o | o in h.objs :: r.objs[o] == h.objs[o].(center := r.objs[o].center)
    ensures forall o | o in h.objs && o !in ts :: r.objs[o] == h.objs[o]
    ensures Valid(h) ==> forall q | q in h.pts :: q in r.pts && r.pts[q] == h.pts[q]
    decreases |ts|
  {
    if ts == [] then h
    else if ts[0] !in h.objs then ShiftCenters(h, ts[1..], dx, dy)
    else
      var t0 := ts[0];
      var m := Recenter(h, t0, Translate(CenterOf(h, t0), dx, dy));
      assert forall x | x in ts :: x == t0 || x in ts[1..];
      ShiftCenters(m, ts[1..], dx, dy)
  }

  /** On a list without repeats, each listed shape's new centre is a point that did
      not exist before, at its old centre plus (dx, dy). */
  lemma {:induction false} ShiftCentersLand(h: Heap, ts: seq<Id>, dx: int, dy: int)
    requires Valid(h) && Distinct(ts)
    ensures var r := ShiftCenters(h, ts, dx, dy);
      forall t | t in ts && t in h.objs ::
        && r.objs[t].center !in h.pts
        && CenterOf(r, t) == Translate(CenterOf(h, t), dx, dy)
    decreases |ts|
  {
    if ts != [] {
      var t0, rest := ts[0], ts[1..];
      assert Distinct(rest) && t0 !in rest;
      assert forall x | x in ts :: x == t0 || x in rest;
      if t0 !in h.objs {
        ShiftCentersLand(h, rest, dx, dy);
      } else {
        var m := Recenter(h, t0, Translate(CenterOf(h, t0), dx, dy));
        ShiftCentersLand(m, rest, dx, dy);
        var r := ShiftCenters(m, rest, dx, dy);
        assert ShiftCenters(h, ts, dx, dy) == r;
        assert r.objs[t0] == m.objs[t0];
        assert m.objs[t0].center in m.pts;
      }
    }
  }

  /** `setRotationCenter(new Point(p))` on one shape: a new point holding `p` becomes
      its centre, and no other object and no existing point changes. */
  function Recenter(h: Heap, t: Id, p: Point): (r: Heap)
    requires t in h.objs
    ensures Valid(h) ==> Valid(r)
    ensures r.objs.Keys == h.objs.Keys
    ensures r.objs[t] == h.objs[t].(center := r.objs[t].center)
    ensures forall o | o in h.objs && o != t :: r.objs[o] == h.objs[o]
    ensures Valid(h) ==> forall q | q in h.pts :: q in r.pts && r.pts[q] == h.pts[q]
    ensures Valid(h) ==> r.objs[t].center !in h.pts && CenterOf(r, t) == p
    ensures Valid(h) ==> forall o | o in h.objs && o != t :: CenterOf(r, o) == CenterOf(h, o)
  {
    var np := NewPoint(h, p);
    RecenterValid(np.heap, t, np.value);
    np.heap.(objs := np.heap.objs[t := np.heap.objs[t].(center := np.value)])
  }

  /** `handleMouseDrag`: the rotation centre follows the mouse while it is dragged
      (and something is selected); otherwise a drag in progress moves the selection by
      the step since the last point and adds the step to the totals; otherwise the
      rubber band spans the press point and the mouse. */
  function Drag(e: Panel, p: Point): (r: Panel)
    ensures Sound(e.board) ==> Sound(r.board)
    ensures r.board.heap.objs.Keys == e.board.heap.objs.Keys
    ensures r.history == e.history
    ensures r.board.shapes == e.board.shapes && r.board.selected == e.board.selected
  {
    var g := e.gesture;
    if g.centerDrag.Some? && e.board.selected != [] then
      var start := g.centerDrag.value;
      var h := ShiftCenters(e.board.heap, e.board.selected, p.x - start.x, p.y - start.y);
      e.(board := e.board.(heap := h), gesture := g.(centerDrag := Some(p)))
    else if g.dragStart.Some? then
      var dx, dy := p.x - g.dragStart.value.x, p.y - g.dragStart.value.y;
      var h := MoveEach(e.board.heap, e.board.selected, dx, dy);
      e.(board := e.board.(heap := h),
         gesture := g.(totalDx := g.totalDx + dx, totalDy := g.totalDy + dy, dragStart := Some(p)))
    else if g.selStart.Some? then
      e.(gesture := g.(rect := Some(SpanRect(g.selStart.value, p))))
    else e
  }

  /** A sequence of drag events. */
  function Drags(e: Panel, ps: seq<Point>): (r: Panel)
    ensures Sound(e.board) ==> Sound(r.board)
    ensures r.board.heap.objs.Keys == e.board.heap.objs.Keys
    ensures r.history == e.history
    ensures r.board.shapes == e.board.shapes && r.board.selected == e.board.selected
    decreases |ps|
  {
    if ps == [] then e else Drags(Drag(e, ps[0]), ps[1..])
  }

  /** The last point of a drag, or `p` when there was none. */
  function LastOr(ps: seq<Point>, p: Point): Point
  {
    if ps == [] then p else ps[|ps| - 1]
  }

  /** The heap after a shape-drag preview that started at `s` and went through `ps`:
      the selection moved by each step between consecutive mouse positions. */
  function Preview(h: Heap, sel: seq<Id>, s: Point, ps: seq<Point>): Heap
  {
    h.(pts := PreviewPts(h.objs, h.pts, sel, s, ps))
  }

  /** The points of `Preview`, step by step. */
  function PreviewPts(objs: Objs, pts: Pts, sel: seq<Id>, s: Point, ps: seq<Point>): Pts
    decreases |ps|
  {
    if ps == [] then pts
    else PreviewPts(objs, MoveEachPts(objs, pts, sel, ps[0].x - s.x, ps[0].y - s.y), sel, ps[0], ps[1..])
  }

  /** The steps of a preview add up to one move by the mouse's total displacement. */
  lemma PreviewIsMove(h: Heap, sel: seq<Id>, s: Point, ps: seq<Point>)
    ensures var q := LastOr(ps, s); Preview(h, sel, s, ps) == MoveEach(h, sel, q.x - s.x, q.y - s.y)
  {
    PreviewPtsIsMove(h.objs, h.pts, sel, s, ps);
  }

  lemma {:induction false} PreviewPtsIsMove(objs: Objs, pts: Pts, sel: seq<Id>, s: Point, ps: seq<Point>)
    ensures var q := LastOr(ps, s);
      PreviewPts(objs, pts, sel, s, ps) == MoveEachPts(objs, pts, sel, q.x - s.x, q.y - s.y)
    decreases |ps|
  {
    if ps == [] {
      MoveEachPtsZero(objs, pts, sel);
    } else {
      var p0, rest := ps[0], ps[1..];
      PreviewPtsIsMove(objs, MoveEachPts(objs, pts, sel, p0.x - s.x, p0.y - s.y), sel, p0, rest);
      PreviewStep(objs, pts, sel, s, ps);
    }
  }

  /** The induction step of `PreviewPtsIsMove`: if the preview after the first step is
      one move, so is the whole preview. */
  lemma PreviewStep(objs: Objs, pts: Pts, sel: seq<Id>, s: Point, ps: seq<Point>)
    requires ps != []
    requires var p0, rest := ps[0], ps[1..];
      var p1 := MoveEachPts(objs, pts, sel, p0.x - s.x, p0.y - s.y); var q1 := LastOr(rest, p0);
      PreviewPts(objs, p1, sel, p0, rest) == MoveEachPts(objs, p1, sel, q1.x - p0.x, q1.y - p0.y)
    ensures var q := LastOr(ps, s);
      PreviewPts(objs, pts, sel, s, ps) == MoveEachPts(objs, pts, sel, q.x - s.x, q.y - s.y)
  {
    var p0, rest := ps[0], ps[1..];
    var q, q1 := LastOr(ps, s), LastOr(rest, p0);
    assert q1 == q;
    MoveEachPtsCompose(objs, pts, sel, p0.x - s.x, p0.y - s.y, q1.x - p0.x, q1.y - p0.y, q.x - s.x, q.y - s.y);
  }

  /** Over a shape drag, the points follow the preview, and the totals grow by the
      mouse's displacement since the drag started. */
  lemma {:induction false} DragsAccumulate(e: Panel, ps: seq<Point>)
    requires e.gesture.centerDrag.None? && e.gesture.dragStart.Some?
    ensures var r := Drags(e, ps); var g := e.gesture; var s := g.dragStart.value; var q := LastOr(ps, s);
      && r.board.heap == Preview(e.board.heap, e.board.selected, s, ps)
      && r.gesture == g.(totalDx := g.totalDx + (q.x - s.x), totalDy := g.totalDy + (q.y - s.y),
                         dragStart := Some(q))
    decreases |ps|
  {
    if ps != [] {
      var s, p0, rest := e.gesture.dragStart.value, ps[0], ps[1..];
      assert LastOr(rest, p0) == LastOr(ps, s);
      var e1 := Drag(e, p0);
      assert Drags(e, ps) == Drags(e1, rest);
      DragStep(e, p0);
      assert e1.board.heap.objs == e.board.heap.objs;
      assert Preview(e.board.heap, e.board.selected, s, ps) == Preview(e1.board.heap, e1.board.selected, p0, rest);
      DragsAccumulate(e1, rest);
    }
  }

  /** One drag event of a shape drag. */
  lemma DragStep(e: Panel, p: Point)
    requires e.gesture.centerDrag.None? && e.gesture.dragStart.Some?
    ensures var g := e.gesture; var dx, dy := p.x - g.dragStart.value.x, p.y - g.dragStart.value.y;
      var r := Drag(e, p);
      && r.board.heap == MoveEach(e.board.heap, e.board.selected, dx, dy)
      && r.gesture == g.(totalDx := g.totalDx + dx, totalDy := g.totalDy + dy, dragStart := Some(p))
  {
  }

  /** Moving by nothing changes nothing. */
  lemma ZeroMove(h: Heap, ts: seq<Id>, dx: int, dy: int)
    requires dx == 0 && dy == 0
    ensures MoveEach(h, ts, dx, dy) == h
  {
    MoveEachPtsZero(h.objs, h.pts, ts);
  }

  /** Over a rubber-band drag only the rectangle changes, and it ends spanning the
      press point and the last mouse position. */
  lemma {:induction false} RectDrags(e: Panel, ps: seq<Point>)
    requires e.gesture.centerDrag.None? && e.gesture.dragStart.None?
    requires e.gesture.selStart.Some?
    ensures var r := Drags(e, ps);
      && r.board == e.board && r.history == e.history
      && r.gesture == e.gesture.(rect := r.gesture.rect)
      && (ps != [] ==> r.gesture.rect == Some(SpanRect(e.gesture.selStart.value, ps[|ps| - 1])))
      && (ps == [] ==> r == e)
    decreases |ps|
  {
    if ps != [] {
      var e1 := Drag(e, ps[0]);
      assert e1 == e.(gesture := e.gesture.(rect := Some(SpanRect(e.gesture.selStart.value, ps[0]))));
      RectDrags(e1, ps[1..]);
      if |ps| > 1 {
        assert ps[1..][|ps| - 2] == ps[|ps| - 1];
      }
    }
  }

  /** The first half of `finalizeDragOrSelection`: a rubber band selects what it
      crosses and is dropped, together with the press point. */
  function EndBand(trig: Trig, e: Panel): (r: Panel)
    requires forall s | s in e.board.shapes :: s in e.board.heap.objs
    ensures r.board.heap == e.board.heap && r.board.shapes == e.board.shapes && r.history == e.history
    ensures e.gesture.rect.None? ==> r == e
    ensures e.gesture.rect.Some? ==>
      && r.board.selected == SelectInRect(trig, e.board.heap, e.board.shapes, e.board.selected, e.gesture.rect.value)
      && r.gesture == e.gesture.(rect := None, selStart := None)
  {
    if e.gesture.rect.Some? then
      var sel := SelectInRect(trig, e.board.heap, e.board.shapes, e.board.selected, e.gesture.rect.value);
      e.(board := e.board.(selected := sel), gesture := e.gesture.(rect := None, selStart := None))
    else e
  }

  /** The second half: a drag that went somewhere is put back by the opposite totals
      and replaced by one `MoveCommand` over a copy of the selection. Since the command
      moves the shapes forward again, the board ends as the preview left it and the
      history gains exactly that command. */
  function CommitDrag(e: Panel): (r: Panel)
    ensures r.board == e.board && r.gesture == e.gesture
    ensures e.gesture.dragStart.None? || (e.gesture.totalDx == 0 && e.gesture.totalDy == 0) ==> r == e
    ensures var g := e.gesture;
      g.dragStart.Some? && (g.totalDx != 0 || g.totalDy != 0) ==>
        r.history == Executed(e.history, Some(MoveCmd(e.board.selected, g.totalDx, g.totalDy)))
  {
    var g := e.gesture;
    if g.dragStart.Some? && (g.totalDx != 0 || g.totalDy != 0) then
      var sel := e.board.selected;
      var reverted := MoveExecute(e.board, sel, -g.totalDx, -g.totalDy);
      RevertThenMove(e, g.totalDx, g.totalDy);
      Run(e.(board := reverted), MoveCmd(sel, g.totalDx, g.totalDy))
    else e
  }

  /** Moving the selection back by an offset and then running a `MoveCommand` by that
      offset leaves the board as it was and records the command. */
  lemma RevertThenMove(e: Panel, dx: int, dy: int)
    ensures var sel := e.board.selected; var c := MoveCmd(sel, dx, dy);
      Run(e.(board := MoveExecute(e.board, sel, -dx, -dy)), c) == e.(history := Executed(e.history, Some(c)))
  {
    var sel := e.board.selected;
    RunMove(e.(board := MoveExecute(e.board, sel, -dx, -dy)), sel, dx, dy);
    MoveEachRoundTrip(e.board.heap, sel, -dx, -dy);
  }

  /** The drag state that every release clears. */
  function ClearDrag(g: Gesture): (r: Gesture)
    ensures r.rect == g.rect && r.selStart == g.selStart
    ensures r.dragStart.None? && r.dragOrigin.None? && r.centerDrag.None?
    ensures r.totalDx == 0 && r.totalDy == 0
    ensures Idle(r) <==> g.rect.None?
  {
    g.(dragStart := None, dragOrigin := None, totalDx := 0, totalDy := 0, centerDrag := None)
  }

  /** `finalizeDragOrSelection`: a rubber band selects what it crosses and is dropped;
      a drag that went somewhere is undone and replaced by one `MoveCommand` over a copy
      of the selection with the totals; then all drag state is reset. */
  function Release(trig: Trig, e: Panel): (r: Panel)
    requires forall s | s in e.board.shapes :: s in e.board.heap.objs
    ensures Idle(r.gesture) && r.board.shapes == e.board.shapes
    ensures Sound(e.board) ==> Sound(r.board)
    ensures e.gesture.rect.Some? ==>
      && r.gesture.selStart.None?
      && r.board.selected == SelectInRect(trig, e.board.heap, e.board.shapes, e.board.selected, e.gesture.rect.value)
    ensures e.gesture.rect.None? ==>
      r.board.selected == e.board.selected && r.gesture.selStart == e.gesture.selStart
    ensures e.gesture.dragStart.None? || (e.gesture.totalDx == 0 && e.gesture.totalDy == 0) ==>
      r.board.heap == e.board.heap && r.history == e.history
  {
    var banded := EndBand(trig, e);
    var committed := CommitDrag(banded);
    committed.(gesture := ClearDrag(committed.gesture))
  }

  /** Releasing after a shape drag that went somewhere: the shapes stay where the
      preview put them, now through one `MoveCommand` over the selection with the
      totals. */
  lemma ReleaseDrag(trig: Trig, e: Panel)
    requires forall s | s in e.board.shapes :: s in e.board.heap.objs
    requires e.gesture.rect.None? && e.gesture.dragStart.Some?
    requires e.gesture.totalDx != 0 || e.gesture.totalDy != 0
    ensures var g := e.gesture; var r := Release(trig, e);
      && r.board == e.board
      && r.history.undo == e.history.undo + [MoveCmd(e.board.selected, g.totalDx, g.totalDy)]
  {
    ReleaseCommits(trig, e);
  }

  /** ... and `undo()` right after that release puts every point back where it was
      before the preview. */
  lemma ReleaseDragUndone(trig: Trig, e: Panel, h0: Heap)
    requires forall s | s in e.board.shapes :: s in e.board.heap.objs
    requires e.gesture.rect.None? && e.gesture.dragStart.Some?
    requires e.gesture.totalDx != 0 || e.gesture.totalDy != 0
    requires e.board.heap == MoveEach(h0, e.board.selected, e.gesture.totalDx, e.gesture.totalDy)
    ensures PanelUndo(Release(trig, e)).board == e.board.(heap := h0)
  {
    var g := e.gesture;
    var r := Release(trig, e);
    ReleaseDrag(trig, e);
    assert NextUndo(r.history) == Some(MoveCmd(e.board.selected, g.totalDx, g.totalDy));
    UndoTopMove(r);
    RevertDrag(e.board, h0, e.board.selected, g.totalDx, g.totalDy);
    assert PanelUndo(r).board == MoveUndo(e.board, e.board.selected, g.totalDx, g.totalDy);
  }

  /** `executeCommand` on a `MoveCommand`. */
  lemma RunMove(e: Panel, ts: seq<Id>, dx: int, dy: int)
    ensures var c := MoveCmd(ts, dx, dy);
      Run(e, c) == e.(board := MoveExecute(e.board, ts, dx, dy), history := Executed(e.history, Some(c)))
  {
  }

  /** `undo()` with a `MoveCommand` on top moves its shapes back. */
  lemma UndoTopMove(e: Panel)
    requires NextUndo(e.history).Some? && NextUndo(e.history).value.MoveCmd?
    ensures var c := NextUndo(e.history).value;
      PanelUndo(e).board == MoveUndo(e.board, c.targets, c.dx, c.dy)
  {
  }

  /** Without a rubber band, what a release leaves on the board and in the history is
      what committing the drag leaves. */
  lemma ReleaseCommits(trig: Trig, e: Panel)
    requires forall s | s in e.board.shapes :: s in e.board.heap.objs
    requires e.gesture.rect.None?
    ensures Release(trig, e) == CommitDrag(e).(gesture := ClearDrag(e.gesture))
  {
    assert EndBand(trig, e) == e;
  }

  /** Moving the selection back by the totals of a preview that moved it from `h0`
      gives `h0` back. */
  lemma RevertDrag(b: Board, h0: Heap, sel: seq<Id>, dx: int, dy: int)
    requires b.heap == MoveEach(h0, sel, dx, dy)
    ensures MoveExecute(b, sel, -dx, -dy) == b.(heap := h0)
    ensures MoveUndo(b, sel, dx, dy) == b.(heap := h0)
  {
    MoveEachRoundTrip(h0, sel, dx, dy);
  }

  /** A plain press on a shape, a drag through `ps` that ends somewhere else, and the
      release: the clicked selection is where the total displacement puts it, and one
      `MoveCommand` over it with that displacement is recorded. */
  lemma ShapeDragGesture(trig: Trig, e: Panel, p: Point, ps: seq<Point>)
    requires (forall s | s in e.board.shapes :: s in e.board.heap.objs)
    requires Idle(e.gesture) && !OnCenter(e.board, p)
    requires FindShapeAt(trig, e.board.heap, e.board.shapes, p).Some?
    requires LastOr(ps, p) != p
    ensures var sel := ClickSelect(e.board.selected, FindShapeAt(trig, e.board.heap, e.board.shapes, p).value);
      var q := LastOr(ps, p);
      var r := Release(trig, Drags(Press(trig, e, p, false, false), ps));
      && r.board.selected == sel
      && r.board.heap == MoveEach(e.board.heap, sel, q.x - p.x, q.y - p.y)
      && r.history.undo == e.history.undo + [MoveCmd(sel, q.x - p.x, q.y - p.y)]
  {
    var sel := ClickSelect(e.board.selected, FindShapeAt(trig, e.board.heap, e.board.shapes, p).value);
    var q := LastOr(ps, p);
    var dragged := Drags(Press(trig, e, p, false, false), ps);
    PressThenDrag(trig, e, p, ps);
    ReleaseMoved(trig, dragged, e.history, sel, q.x - p.x, q.y - p.y);
  }

  /** `ReleaseDrag` with the drag's totals, selection and history named. */
  lemma ReleaseMoved(trig: Trig, d: Panel, hist: Manager<Command, Listener>, sel: seq<Id>, dx: int, dy: int)
    requires forall s | s in d.board.shapes :: s in d.board.heap.objs
    requires d.gesture.rect.None? && d.gesture.dragStart.Some? && (dx != 0 || dy != 0)
    requires d.history == hist && d.board.selected == sel
    requires d.gesture.totalDx == dx && d.gesture.totalDy == dy
    ensures var r := Release(trig, d);
      r.board == d.board && r.history.undo == hist.undo + [MoveCmd(sel, dx, dy)]
  {
    ReleaseDrag(trig, d);
  }

  /** ... and `undo()` right after that release puts every point back. */
  lemma ShapeDragUndone(trig: Trig, e: Panel, p: Point, ps: seq<Point>)
    requires (forall s | s in e.board.shapes :: s in e.board.heap.objs)
    requires Idle(e.gesture) && !OnCenter(e.board, p)
    requires FindShapeAt(trig, e.board.heap, e.board.shapes, p).Some?
    requires LastOr(ps, p) != p
    ensures PanelUndo(Release(trig, Drags(Press(trig, e, p, false, false), ps))).board.heap == e.board.heap
  {
    var sel := ClickSelect(e.board.selected, FindShapeAt(trig, e.board.heap, e.board.shapes, p).value);
    var q := LastOr(ps, p);
    var dragged := Drags(Press(trig, e, p, false, false), ps);
    PressThenDrag(trig, e, p, ps);
    ReleaseMovedUndone(trig, dragged, e.board.heap, sel, q.x - p.x, q.y - p.y);
  }

  /** `ReleaseDragUndone` with the drag's totals and selection named. */
  lemma ReleaseMovedUndone(trig: Trig, d: Panel, h0: Heap, sel: seq<Id>, dx: int, dy: int)
    requires forall s | s in d.board.shapes :: s in d.board.heap.objs
    requires d.gesture.rect.None? && d.gesture.dragStart.Some? && (dx != 0 || dy != 0)
    requires d.board.selected == sel && d.gesture.totalDx == dx && d.gesture.totalDy == dy
    requires d.board.heap == MoveEach(h0, sel, dx, dy)
    ensures PanelUndo(Release(trig, d)).board.heap == h0
  {
    ReleaseDragUndone(trig, d, h0);
  }

  /** A press on a shape and a drag that ends where it started move and record
      nothing. */
  lemma ShapeDragInPlace(trig: Trig, e: Panel, p: Point, ps: seq<Point>)
    requires (forall s | s in e.board.shapes :: s in e.board.heap.objs)
    requires Idle(e.gesture) && !OnCenter(e.board, p)
    requires FindShapeAt(trig, e.board.heap, e.board.shapes, p).Some?
    requires LastOr(ps, p) == p
    ensures var r := Release(trig, Drags(Press(trig, e, p, false, false), ps));
      && r.board.selected == ClickSelect(e.board.selected, FindShapeAt(trig, e.board.heap, e.board.shapes, p).value)
      && r.board.heap == e.board.heap && r.history == e.history
  {
    var d := Drags(Press(trig, e, p, false, false), ps);
    var q := LastOr(ps, p);
    PressThenDrag(trig, e, p, ps);
    ZeroMove(e.board.heap, d.board.selected, q.x - p.x, q.y - p.y);
    assert d.gesture.totalDx == 0 && d.gesture.totalDy == 0;
    assert Release(trig, d).history == d.history;
  }

  /** A plain press on a shape followed by the drag preview: the clicked selection
      has moved by the mouse's total displacement, and the gesture holds that
      displacement as its totals. */
  lemma PressThenDrag(trig: Trig, e: Panel, p: Point, ps: seq<Point>)
    requires Idle(e.gesture) && !OnCenter(e.board, p)
    requires FindShapeAt(trig, e.board.heap, e.board.shapes, p).Some?
    ensures var sel := ClickSelect(e.board.selected, FindShapeAt(trig, e.board.heap, e.board.shapes, p).value);
      var q := LastOr(ps, p); var d := Drags(Press(trig, e, p, false, false), ps);
      && d.history == e.history && d.board.shapes == e.board.shapes && d.board.selected == sel
      && d.board.heap == MoveEach(e.board.heap, sel, q.x - p.x, q.y - p.y)
      && d.gesture.rect.None? && d.gesture.dragStart == Some(q)
      && d.gesture.totalDx == q.x - p.x && d.gesture.totalDy == q.y - p.y
  {
    var pressed := Press(trig, e, p, false, false);
    PlainPress(trig, e, p);
    DragsAccumulate(pressed, ps);
    PreviewIsMove(e.board.heap, pressed.board.selected, p, ps);
  }

  /** A plain press on empty space, a drag through `ps` and the release select exactly
      the listed shapes whose bounds cross the rectangle spanned by the press point and
      the last mouse position, in list order; nothing is moved or recorded. */
  lemma RubberBandGesture(trig: Trig, e: Panel, p: Point, ps: seq<Point>)
    requires (forall s | s in e.board.shapes :: s in e.board.heap.objs)
    requires Idle(e.gesture) && !OnCenter(e.board, p)
    requires FindShapeAt(trig, e.board.heap, e.board.shapes, p).None?
    ensures var r := Release(trig, Drags(Press(trig, e, p, false, false), ps));
      && r.board.selected == SelectInRect(trig, e.board.heap, e.board.shapes, [], SpanRect(p, LastOr(ps, p)))
      && r.board.heap == e.board.heap && r.history == e.history
  {
    var pressed := Press(trig, e, p, false, false);
    PlainPress(trig, e, p);
    RectDrags(pressed, ps);
  }
}
