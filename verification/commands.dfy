/** The reversible edits of the `command` package. A `Command` value holds what the
    Java object holds, including the state its methods write back (`DeleteCommand`'s
    remembered selection, `GroupCommand`'s created group), so `Execute` and `Undo`
    return the command as it is afterwards together with the new board. Every
    command's `redo` calls its own `execute` (`CompositeCommand.redo` calls `execute`,
    which runs each part's `execute`), so redoing is `Execute` again. */
module Commands {
  import opened JavaLang
  import opened Store
  import opened Shapes
  import opened Motion
  import opened Cloning
  import opened Whiteboard

  datatype Command =
    | AddShapeCmd(shape: Id)
    | DeleteCmd(clones: seq<Id>, previous: Option<seq<Id>>)
    | MoveCmd(targets: seq<Id>, dx: int, dy: int)
    | RotateCmd(targets: seq<Id>, amount: int, absolute: bool, originals: map<Id, int>)
    | GroupCmd(members: seq<Id>, created: Option<Id>)
    | UngroupCmd(group: Id, children: seq<Id>)
    | CompositeCmd(commands: seq<Command>)

  /** The board after a command method, and the command as it is then. */
  datatype Step = Step(board: Board, cmd: Command)

  // ---------------------------------------------------------------- rotation

  /** `(current + amount) % 360`, plus 360 when that is negative: an angle in
      [0, 360) congruent to `x`. */
  function Normalize(x: int): (r: int)
    ensures 0 <= r < 360
    ensures exists q :: x == 360 * q + r
  {
    var m := Rem(x, 360);
    if m < 0 then
      var q :| x == 360 * q + m;
      assert x == 360 * (q - 1) + (m + 360);
      m + 360
    else m
  }

  /** What one pass of a rotation loop asks of a shape whose rotation is `current`:
      a relative turn, an absolute angle, or the angle captured before (skipped when
      nothing was captured for that shape). */
  datatype Goal = By(amount: int) | To(angle: int) | Back(originals: map<Id, int>)

  function Want(goal: Goal, t: Id, current: int): Option<int>
  {
    match goal
    case By(a) => Some(Normalize(current + a))
    case To(a) => Some(a)
    case Back(m) => if t in m then Some(m[t]) else None
  }

  /** The rotation a target ends with when nothing else touches it. */
  function Landed(goal: Goal, t: Id, current: int): int
  {
    var w := Want(goal, t, current);
    if w.Some? then w.value else current
  }

  /** No target lies in the hierarchy of another (nor is listed twice), so each
      `setRotation` of the loop leaves the other targets' rotations alone. */
  predicate Separate(objs: Objs, ts: seq<Id>)
  {
    forall i, j | 0 <= i < |ts| && 0 <= j < |ts| && i != j :: ts[i] !in Walk(objs, ts[j])
  }

  /** `o` is reached by none of the targets' walks. */
  predicate Untouched(objs: Objs, ts: seq<Id>, o: Id)
  {
    forall j | 0 <= j < |ts| :: o !in Walk(objs, ts[j])
  }

  /** The loops of `RotateCommand.execute` and `RotateCommand.undo`: each target in list
      order gets `setRotation` of what the goal asks, read off its rotation at that
      moment. Only rotations change; an object no target reaches keeps its rotation;
      and with separate targets each target ends exactly where the goal put it. */
  function TurnEach(objs: Objs, ts: seq<Id>, goal: Goal): (r: Objs)
    ensures OnlyRotations(objs, r)
    ensures forall o | o in objs && Untouched(objs, ts, o) :: r[o].rotation == objs[o].rotation
    ensures Separate(objs, ts) ==>
      forall i | 0 <= i < |ts| && ts[i] in objs :: r[ts[i]].rotation == Landed(goal, ts[i], objs[ts[i]].rotation)
    decreases |ts|, 1
  {
    if ts == [] then objs
    else
      var t := ts[0];
      var w := Want(goal, t, RotationOf(objs, t));
      var first := if w.Some? then SetRotation(objs, t, w.value) else objs;
      TurnStep(objs, t, w, first);
      var r := TurnEach(first, ts[1..], goal);
      TurnRest(objs, ts, goal, first, r);
      r
  }

  /** One pass of the loop: only rotations change, every walk stays the same, objects
      off the target's walk keep their rotation, and the target lands. */
  lemma TurnStep(objs: Objs, t: Id, w: Option<int>, first: Objs)
    requires first == if w.Some? then SetRotation(objs, t, w.value) else objs
    ensures OnlyRotations(objs, first) && SameTree(objs, first)
    ensures forall o | o in objs && o !in Walk(objs, t) :: first[o].rotation == objs[o].rotation
    ensures t in objs ==> first[t].rotation == if w.Some? then w.value else objs[t].rotation
  {
    if w.Some? {
      SetOne(objs, t, w.value);
    }
  }

  /** `setRotation(v)` on `t` seen from outside: only rotations change, the hierarchy
      stays, objects off `t`'s walk keep their rotation, and `t` ends at `v`. */
  lemma SetOne(objs: Objs, t: Id, v: int)
    ensures var r := SetRotation(objs, t, v);
      OnlyRotations(objs, r) && SameTree(objs, r)
      && (forall o | o in objs && o !in Walk(objs, t) :: r[o].rotation == objs[o].rotation)
      && (t in objs ==> r[t].rotation == v)
  {
    var r := SetRotation(objs, t, v);
    var d := v - RotationOf(objs, t);
    var w := Walk(objs, t);
    assert Turned(objs, r, w, d);
    RotationsKeepTree(objs, r);
    forall o | o in objs && o !in w ensures r[o].rotation == objs[o].rotation {
      TurnedElsewhere(objs, r, w, d, o);
    }
    if t in objs {
      SetRotationLands(objs, t, v);
    }
  }

  /** The rest of the loop, given the first pass. */
  lemma TurnRest(objs: Objs, ts: seq<Id>, goal: Goal, first: Objs, r: Objs)
    requires ts != []
    requires OnlyRotations(objs, first) && SameTree(objs, first)
    requires forall o | o in objs && o !in Walk(objs, ts[0]) :: first[o].rotation == objs[o].rotation
    requires ts[0] in objs ==> first[ts[0]].rotation == Landed(goal, ts[0], objs[ts[0]].rotation)
    requires r == TurnEach(first, ts[1..], goal)
    ensures OnlyRotations(objs, r)
    ensures forall o | o in objs && Untouched(objs, ts, o) :: r[o].rotation == objs[o].rotation
    ensures Separate(objs, ts) ==>
      forall i | 0 <= i < |ts| && ts[i] in objs :: r[ts[i]].rotation == Landed(goal, ts[i], objs[ts[i]].rotation)
    decreases |ts|, 0
  {
    RestUntouched(objs, ts, first, r);
    if Separate(objs, ts) {
      RestLands(objs, ts, goal, first, r);
    }
  }

  /** An object no target reaches was left alone by the first pass and by the rest. */
  lemma RestUntouched(objs: Objs, ts: seq<Id>, first: Objs, r: Objs)
    requires ts != [] && OnlyRotations(objs, first) && SameTree(objs, first) && OnlyRotations(first, r)
    requires forall o | o in objs && o !in Walk(objs, ts[0]) :: first[o].rotation == objs[o].rotation
    requires forall o | o in first && Untouched(first, ts[1..], o) :: r[o].rotation == first[o].rotation
    ensures forall o | o in objs && Untouched(objs, ts, o) :: r[o].rotation == objs[o].rotation
  {
    var rest := ts[1..];
    forall o | o in objs && Untouched(objs, ts, o) ensures r[o].rotation == objs[o].rotation {
      assert o !in Walk(objs, ts[0]);
      forall j | 0 <= j < |rest| ensures o !in Walk(first, rest[j]) {
        assert rest[j] == ts[j + 1];
        WalkSameTree(objs, first, rest[j]);
      }
    }
  }

  /** With separate targets, the first target keeps what the first pass gave it and
      the others land in the rest of the loop. */
  lemma RestLands(objs: Objs, ts: seq<Id>, goal: Goal, first: Objs, r: Objs)
    requires ts != [] && Separate(objs, ts)
    requires OnlyRotations(objs, first) && SameTree(objs, first) && OnlyRotations(first, r)
    requires forall o | o in objs && o !in Walk(objs, ts[0]) :: first[o].rotation == objs[o].rotation
    requires ts[0] in objs ==> first[ts[0]].rotation == Landed(goal, ts[0], objs[ts[0]].rotation)
    requires forall o | o in first && Untouched(first, ts[1..], o) :: r[o].rotation == first[o].rotation
    requires var rest := ts[1..]; Separate(first, rest) ==>
      forall i | 0 <= i < |rest| && rest[i] in first :: r[rest[i]].rotation == Landed(goal, rest[i], first[rest[i]].rotation)
    ensures forall i | 0 <= i < |ts| && ts[i] in objs :: r[ts[i]].rotation == Landed(goal, ts[i], objs[ts[i]].rotation)
  {
    var t, rest := ts[0], ts[1..];
    forall j | 0 <= j < |rest| ensures Walk(first, rest[j]) == Walk(objs, rest[j]) {
      WalkSameTree(objs, first, rest[j]);
    }
    assert Separate(first, rest) by {
      forall i, j | 0 <= i < |rest| && 0 <= j < |rest| && i != j ensures rest[i] !in Walk(first, rest[j]) {
        assert rest[i] == ts[i + 1] && rest[j] == ts[j + 1];
      }
    }
    forall i | 0 <= i < |ts| && ts[i] in objs
      ensures r[ts[i]].rotation == Landed(goal, ts[i], objs[ts[i]].rotation)
    {
      if i == 0 {
        forall j | 0 <= j < |rest| ensures t !in Walk(first, rest[j]) {
          assert rest[j] == ts[j + 1];
        }
      } else {
        assert ts[i] == rest[i - 1];
        assert ts[i] !in Walk(objs, t);
      }
    }
  }

  /** The rotations a rotate command captures when it is constructed. */
  function Originals(objs: Objs, ts: seq<Id>): (m: map<Id, int>)
    ensures forall t :: t in m <==> t in ts
    ensures forall t | t in m :: m[t] == RotationOf(objs, t)
  {
    if ts == [] then map[]
    else Originals(objs, ts[..|ts| - 1])[ts[|ts| - 1] := RotationOf(objs, ts[|ts| - 1])]
  }

  /** `new RotateCommand(shapes, float degreesToAdd)`: a relative turn. */
  function NewRotateBy(objs: Objs, ts: seq<Id>, degrees: int): (c: Command)
    ensures c.RotateCmd? && c.targets == ts && !c.absolute && c.amount == degrees
    ensures c.originals == Originals(objs, ts)
  {
    RotateCmd(ts, degrees, false, Originals(objs, ts))
  }

  /** `new RotateCommand(shapes, int targetDegrees)`: an absolute angle, reduced with
      Java's remainder, so it lies strictly between -360 and 360 and keeps the sign of
      the argument. */
  function NewRotateTo(objs: Objs, ts: seq<Id>, degrees: int): (c: Command)
    ensures c.RotateCmd? && c.targets == ts && c.absolute && c.originals == Originals(objs, ts)
    ensures -360 < c.amount < 360 && (c.amount == 0 || (c.amount > 0 <==> degrees > 0))
    ensures exists q :: degrees == 360 * q + c.amount
  {
    RotateCmd(ts, Rem(degrees, 360), true, Originals(objs, ts))
  }

  // ------------------------------------------------------------- construction

  /** `new DeleteCommand(whiteboard, shapes)`: a clone of each target, in order, is
      stored; the clones are new objects with new ids. */
  function NewDelete(b: Board, ts: seq<Id>): (r: Out<Command>)
    requires Sound(b) && forall t | t in ts :: t in b.heap.objs
    ensures r.value.DeleteCmd? && r.value.previous == None && |r.value.clones| == |ts|
    ensures forall i | 0 <= i < |ts| :: CopyOf(r.board.heap, r.value.clones[i], b.heap, ts[i])
    ensures Sound(r.board) && Extends(b.heap, r.board.heap)
    ensures r.board.shapes == b.shapes && r.board.selected == b.selected
  {
    var copies := CloneAll(b.heap, ts);
    Out(b.(heap := copies.heap), DeleteCmd(copies.value, None))
  }

  /** `new UngroupCommand(whiteboard, group)`: the group's children are captured now. */
  function NewUngroup(objs: Objs, g: Id): (c: Command)
    ensures c.UngroupCmd? && c.group == g && c.children == GetShapes(objs, g)
  {
    UngroupCmd(g, GetShapes(objs, g))
  }

  // ---------------------------------------------------------------- execution

  /** `execute()`: each kind of command through its own function below. */
  function Execute(b: Board, c: Command): (r: Step)
    decreases c
  {
    match c
    case AddShapeCmd(s) => Step(AddExecute(b, s), c)
    case DeleteCmd(clones, _) => Step(DeleteExecute(b, clones), DeleteCmd(clones, Some(b.selected)))
    case MoveCmd(ts, dx, dy) => Step(MoveExecute(b, ts, dx, dy), c)
    case RotateCmd(ts, amount, absolute, _) => Step(RotateExecute(b, ts, amount, absolute), c)
    case GroupCmd(ms, created) =>
      var out := GroupExecute(b, ms, created);
      Step(out.board, GroupCmd(ms, out.value))
    case UngroupCmd(g, _) => Step(UngroupExecute(b, g), c)
    case CompositeCmd(cs) =>
      var all := ExecuteAll(b, cs);
      Step(all.board, CompositeCmd(all.value))
  }

  /** The loop of `CompositeCommand.execute`: the parts in insertion order. */
  function ExecuteAll(b: Board, cs: seq<Command>): (r: Out<seq<Command>>)
    ensures |r.value| == |cs|
    decreases cs
  {
    if cs == [] then Out(b, [])
    else
      var first := Execute(b, cs[0]);
      var rest := ExecuteAll(first.board, cs[1..]);
      Out(rest.board, [first.cmd] + rest.value)
  }

  /** `undo()`. */
  function Undo(b: Board, c: Command): (r: Step)
    decreases c
  {
    match c
    case AddShapeCmd(s) => Step(AddUndo(b, s), c)
    case DeleteCmd(clones, previous) => Step(DeleteUndo(b, clones, previous), c)
    case MoveCmd(ts, dx, dy) => Step(MoveUndo(b, ts, dx, dy), c)
    case RotateCmd(ts, _, _, originals) => Step(RotateUndo(b, ts, originals), c)
    case GroupCmd(ms, created) => Step(GroupUndo(b, ms, created), GroupCmd(ms, None))
    case UngroupCmd(g, kids) => Step(UngroupUndo(b, g, kids), c)
    case CompositeCmd(cs) =>
      var all := UndoAll(b, cs);
      Step(all.board, CompositeCmd(all.value))
  }

  /** The loop of `CompositeCommand.undo`: the parts from the last to the first. */
  function UndoAll(b: Board, cs: seq<Command>): (r: Out<seq<Command>>)
    ensures |r.value| == |cs|
    decreases cs
  {
    if cs == [] then Out(b, [])
    else
      var rest := UndoAll(b, cs[1..]);
      var first := Undo(rest.board, cs[0]);
      Out(first.board, [first.cmd] + rest.value)
  }

  /** Executing a concatenation runs the first list, then the second from where the
      first left the board. */
  lemma {:induction false} ExecuteAllAppend(b: Board, xs: seq<Command>, ys: seq<Command>)
    ensures var front := ExecuteAll(b, xs); var back := ExecuteAll(front.board, ys);
      ExecuteAll(b, xs + ys) == Out(back.board, front.value + back.value)
    decreases |xs|
  {
    if xs == [] {
      assert xs + ys == ys;
      assert ExecuteAll(b, xs) == Out(b, []);
      assert [] + ExecuteAll(b, ys).value == ExecuteAll(b, ys).value;
    } else {
      var c, rest := xs[0], xs[1..];
      var first := Execute(b, c);
      var front := ExecuteAll(first.board, rest);
      var back := ExecuteAll(front.board, ys);
      calc {
        ExecuteAll(b, xs + ys);
        { assert xs + ys == [c] + (rest + ys); }
        ExecuteAll(b, [c] + (rest + ys));
        { ExecuteAllCons(b, c, rest + ys); }
        Out(ExecuteAll(first.board, rest + ys).board, [first.cmd] + ExecuteAll(first.board, rest + ys).value);
        { ExecuteAllAppend(first.board, rest, ys); }
        Out(back.board, [first.cmd] + (front.value + back.value));
        { assert [first.cmd] + (front.value + back.value) == ([first.cmd] + front.value) + back.value; }
        Out(back.board, ([first.cmd] + front.value) + back.value);
        { assert xs == [c] + rest; ExecuteAllCons(b, c, rest); }
        Out(back.board, ExecuteAll(b, xs).value + back.value);
      }
    }
  }

  /** Undoing a concatenation undoes the second list first, then the first list on the
      board that left. */
  lemma {:induction false} UndoAllAppend(b: Board, xs: seq<Command>, ys: seq<Command>)
    ensures var back := UndoAll(b, ys); var front := UndoAll(back.board, xs);
      UndoAll(b, xs + ys) == Out(front.board, front.value + back.value)
    decreases |xs|
  {
    if xs == [] {
      assert xs + ys == ys;
      var back := UndoAll(b, ys);
      assert UndoAll(back.board, xs) == Out(back.board, []);
      assert [] + back.value == back.value;
    } else {
      var c, rest := xs[0], xs[1..];
      var back := UndoAll(b, ys);
      var front := UndoAll(back.board, rest);
      var first := Undo(front.board, c);
      calc {
        UndoAll(b, xs + ys);
        { assert xs + ys == [c] + (rest + ys); }
        UndoAll(b, [c] + (rest + ys));
        { UndoAllCons(b, c, rest + ys); }
        Out(Undo(UndoAll(b, rest + ys).board, c).board, [Undo(UndoAll(b, rest + ys).board, c).cmd] + UndoAll(b, rest + ys).value);
        { UndoAllAppend(b, rest, ys); }
        Out(first.board, [first.cmd] + (front.value + back.value));
        { assert [first.cmd] + (front.value + back.value) == ([first.cmd] + front.value) + back.value; }
        Out(first.board, ([first.cmd] + front.value) + back.value);
        { assert xs == [c] + rest; UndoAllCons(back.board, c, rest); }
        Out(UndoAll(back.board, xs).board, UndoAll(back.board, xs).value + back.value);
      }
    }
  }

  /** One step of the execute loop: the head runs first, the rest from where it left
      the board. */
  lemma ExecuteAllCons(b: Board, c: Command, cs: seq<Command>)
    ensures var first := Execute(b, c); var rest := ExecuteAll(first.board, cs);
      ExecuteAll(b, [c] + cs) == Out(rest.board, [first.cmd] + rest.value)
  {
    assert ([c] + cs)[0] == c && ([c] + cs)[1..] == cs;
  }

  /** One step of the undo loop: the rest is undone first, the head on the board it
      leaves. */
  lemma UndoAllCons(b: Board, c: Command, cs: seq<Command>)
    ensures var rest := UndoAll(b, cs); var first := Undo(rest.board, c);
      UndoAll(b, [c] + cs) == Out(first.board, [first.cmd] + rest.value)
  {
    assert ([c] + cs)[0] == c && ([c] + cs)[1..] == cs;
  }

  /** The last part runs last, on the board all the earlier parts left, and its
      updated command closes the list. */
  lemma ExecuteAllLast(b: Board, cs: seq<Command>)
    requires cs != []
    ensures var before := ExecuteAll(b, cs[..|cs| - 1]);
      var last := Execute(before.board, cs[|cs| - 1]);
      ExecuteAll(b, cs) == Out(last.board, before.value + [last.cmd])
  {
    var n := |cs| - 1;
    var xs, ys := cs[..n], [cs[n]];
    assert xs + ys == cs;
    ExecuteAllAppend(b, xs, ys);
    OneEach(ExecuteAll(b, xs).board, cs[n]);
  }

  /** The last part is undone first, on the board as given, and the earlier parts on
      the board it leaves. */
  lemma UndoAllLast(b: Board, cs: seq<Command>)
    requires cs != []
    ensures var last := Undo(b, cs[|cs| - 1]);
      var before := UndoAll(last.board, cs[..|cs| - 1]);
      UndoAll(b, cs) == Out(before.board, before.value + [last.cmd])
  {
    var n := |cs| - 1;
    var xs, ys := cs[..n], [cs[n]];
    assert xs + ys == cs;
    UndoAllAppend(b, xs, ys);
    OneEach(b, cs[n]);
  }

  /** The loops over a single part. */
  lemma OneEach(b: Board, c: Command)
    ensures ExecuteAll(b, [c]) == Out(Execute(b, c).board, [Execute(b, c).cmd])
    ensures UndoAll(b, [c]) == Out(Undo(b, c).board, [Undo(b, c).cmd])
  {
    assert [c][0] == c && [c][1..] == [];
    assert ExecuteAll(Execute(b, c).board, []).value == [];
    assert [Execute(b, c).cmd] + [] == [Execute(b, c).cmd];
    assert UndoAll(b, []) == Out(b, []);
    assert [Undo(b, c).cmd] + [] == [Undo(b, c).cmd];
  }

  /** An `AddShapeCommand` puts its shape on top of the list, and its undo takes the
      first occurrence of the shape off the list and out of the selection; neither
      touches any object, and the command is unchanged. */
  lemma AddSteps(b: Board, s: Id)
    ensures Execute(b, AddShapeCmd(s)) == Step(AddExecute(b, s), AddShapeCmd(s))
    ensures Undo(b, AddShapeCmd(s)) == Step(AddUndo(b, s), AddShapeCmd(s))
    ensures var r := Execute(b, AddShapeCmd(s)).board;
      r.shapes == b.shapes + [s] && r.heap == b.heap && r.selected == b.selected
    ensures var r := Undo(b, AddShapeCmd(s)).board;
      r.shapes == RemoveFirst(b.shapes, s) && r.selected == RemoveFirst(b.selected, s)
      && r.heap == b.heap
  {
  }

  /** A `GroupCommand` with several members records a group object that did not exist
      before, holding exactly the members, on top of the list and alone selected; with
      fewer members it does nothing. Its undo always forgets the recorded group, and
      with none recorded leaves the board as it is. */
  lemma GroupSteps(b: Board, ms: seq<Id>, created: Option<Id>)
    ensures var out := GroupExecute(b, ms, created);
      Execute(b, GroupCmd(ms, created)) == Step(out.board, GroupCmd(ms, out.value))
    ensures Undo(b, GroupCmd(ms, created)) == Step(GroupUndo(b, ms, created), GroupCmd(ms, None))
    ensures var st := Execute(b, GroupCmd(ms, created));
      |ms| > 1 && Valid(b.heap) ==>
        && st.cmd.created.Some?
        && st.cmd.created.value !in b.heap.objs
        && GetShapes(st.board.heap.objs, st.cmd.created.value) == ms
        && st.board.shapes[|st.board.shapes| - 1] == st.cmd.created.value
        && st.board.selected == [st.cmd.created.value]
    ensures |ms| <= 1 ==> Execute(b, GroupCmd(ms, created)) == Step(b, GroupCmd(ms, created))
    ensures Undo(b, GroupCmd(ms, None)).board == b
  {
    GroupRuns(b, ms, created);
    GroupUndoes(b, ms, created);
    GroupUndoes(b, ms, None);
    GroupRecords(b, ms, created);
  }

  /** A `GroupCommand` runs `GroupExecute`, keeping the group it made. */
  lemma GroupRuns(b: Board, ms: seq<Id>, created: Option<Id>)
    ensures var out := GroupExecute(b, ms, created);
      Execute(b, GroupCmd(ms, created)) == Step(out.board, GroupCmd(ms, out.value))
  {
  }

  /** A `GroupCommand` is undone by `GroupUndo`, forgetting its group. */
  lemma GroupUndoes(b: Board, ms: seq<Id>, created: Option<Id>)
    ensures Undo(b, GroupCmd(ms, created)) == Step(GroupUndo(b, ms, created), GroupCmd(ms, None))
  {
  }

  /** What `GroupExecute` records when it makes a group. */
  lemma GroupRecords(b: Board, ms: seq<Id>, created: Option<Id>)
    ensures var out := GroupExecute(b, ms, created);
      |ms| > 1 && Valid(b.heap) ==>
        && out.value.Some?
        && out.value.value !in b.heap.objs
        && GetShapes(out.board.heap.objs, out.value.value) == ms
        && out.board.shapes[|out.board.shapes| - 1] == out.value.value
        && out.board.selected == [out.value.value]
  {
    if |ms| > 1 && Valid(b.heap) {
      GroupedBoard(b, ms);
    }
  }

  /** `redo()`: for every command, its `execute`. */
  function Redo(b: Board, c: Command): Step
  {
    Execute(b, c)
  }

  /** `AddShapeCommand.execute`. */
  function AddExecute(b: Board, s: Id): Board
  {
    DirectAdd(b, s)
  }

  /** `AddShapeCommand.undo`: the shape leaves the list and the selection. */
  function AddUndo(b: Board, s: Id): Board
  {
    DirectDeselect(DirectRemove(b, s), s)
  }

  /** `DeleteCommand.execute`: the top-level shapes that are among the stored clones
      are collected, the selection is cleared, and each collected shape is removed. */
  function DeleteExecute(b: Board, clones: seq<Id>): Board
  {
    var doomed := KeepAll(b.shapes, clones);
    var cleared := DeselectAll(b);
    cleared.(shapes := RemoveEach(cleared.shapes, doomed))
  }

  /** `DeleteCommand.undo`: the clones are appended and the remembered selection comes
      back (an empty one when `execute` never ran). */
  function DeleteUndo(b: Board, clones: seq<Id>, previous: Option<seq<Id>>): Board
  {
    DirectSelectShapes(b.(shapes := b.shapes + clones), previous)
  }

  /** `MoveCommand.execute`. */
  function MoveExecute(b: Board, ts: seq<Id>, dx: int, dy: int): Board
  {
    b.(heap := MoveEach(b.heap, ts, dx, dy))
  }

  /** `MoveCommand.undo`: the same shapes moved by the opposite offset. */
  function MoveUndo(b: Board, ts: seq<Id>, dx: int, dy: int): Board
  {
    b.(heap := MoveEach(b.heap, ts, -dx, -dy))
  }

  /** `RotateCommand.execute`. */
  function RotateExecute(b: Board, ts: seq<Id>, amount: int, absolute: bool): Board
  {
    var goal := if absolute then To(amount) else By(amount);
    b.(heap := b.heap.(objs := TurnEach(b.heap.objs, ts, goal)))
  }

  /** `RotateCommand.undo`: every target with a captured rotation gets it back. */
  function RotateUndo(b: Board, ts: seq<Id>, originals: map<Id, int>): Board
  {
    b.(heap := b.heap.(objs := TurnEach(b.heap.objs, ts, Back(originals))))
  }

  /** `GroupCommand.execute`: with more than one member the group is made and selected
      and remembered; otherwise nothing happens. */
  function GroupExecute(b: Board, ms: seq<Id>, created: Option<Id>): Out<Option<Id>>
  {
    if |ms| > 1 then
      var out := DirectGroup(b, ms);
      Out(DirectSelect(out.board, Some(out.value)), Some(out.value))
    else Out(b, created)
  }

  /** `GroupCommand.undo`: a remembered group is ungrouped and the members selected. */
  function GroupUndo(b: Board, ms: seq<Id>, created: Option<Id>): Board
  {
    if created.Some? then DirectSelectShapes(DirectUngroup(b, created.value).board, Some(ms))
    else b
  }

  /** `UngroupCommand.execute`: the children the group has now are selected. */
  function UngroupExecute(b: Board, g: Id): Board
  {
    var out := DirectUngroup(b, g);
    DirectSelectShapes(out.board, Some(out.value))
  }

  /** `UngroupCommand.undo`: with children captured, they are regrouped under the same
      group object, which is selected. */
  function UngroupUndo(b: Board, g: Id, kids: seq<Id>): Board
  {
    if kids != [] then DirectSelect(DirectRegroup(b, kids, g), Some(g)) else b
  }

  // ---------------------------------------------------------------- composite

  function EmptyComposite(): Command
  {
    CompositeCmd([])
  }

  /** `CompositeCommand.add`. */
  function AddTo(c: Command, part: Command): (r: Command)
    requires c.CompositeCmd?
    ensures r.CompositeCmd? && Size(r) == Size(c) + 1 && !IsEmpty(r)
    ensures r.commands[..Size(c)] == c.commands && r.commands[Size(c)] == part
  {
    CompositeCmd(c.commands + [part])
  }

  function Size(c: Command): nat
    requires c.CompositeCmd?
  {
    |c.commands|
  }

  predicate IsEmpty(c: Command)
    requires c.CompositeCmd?
  {
    c.commands == []
  }
}
