/** `CommandManager`: an undo stack and a redo stack (the last element is the top),
    the registered listeners, and how many notifications have gone out. The manager
    only moves commands between the stacks; what a command does to the board is
    `Commands.Execute`/`Commands.Undo`, run by the caller, which hands the manager
    the command as it stands afterwards, or `None` when its method threw. */
module History {
  import opened JavaLang

  datatype Manager<C, L> = Manager(undo: seq<C>, redo: seq<C>, listeners: seq<L>, notified: nat)

  function NewManager<C, L>(): (m: Manager<C, L>)
    ensures m.undo == [] && m.redo == [] && m.listeners == [] && m.notified == 0
  {
    Manager([], [], [], 0)
  }

  /** `addListener`: a null listener, or one already registered, is ignored. */
  function AddListener<C, L(==,!new)>(m: Manager<C, L>, l: Option<L>): (r: Manager<C, L>)
    ensures r.undo == m.undo && r.redo == m.redo && r.notified == m.notified
    ensures forall x :: x in r.listeners <==> x in m.listeners || l == Some(x)
    ensures l.Some? && l.value !in m.listeners ==> r.listeners == m.listeners + [l.value]
    ensures l.None? || l.value in m.listeners ==> r == m
    ensures Distinct(m.listeners) ==> Distinct(r.listeners)
  {
    if l.Some? && l.value !in m.listeners then m.(listeners := m.listeners + [l.value])
    else m
  }

  /** `removeListener`: the first registration of `l` goes. */
  function RemoveListener<C, L(==)>(m: Manager<C, L>, l: L): (r: Manager<C, L>)
    ensures r.undo == m.undo && r.redo == m.redo && r.notified == m.notified
    ensures multiset(r.listeners) == multiset(m.listeners) - multiset{l}
  {
    RemoveFirstCounts(m.listeners, l);
    m.(listeners := RemoveFirst(m.listeners, l))
  }

  /** Listeners registered only through `addListener` appear once each, so removing
      one unregisters it completely. */
  lemma RemoveListenerForgets<C, L>(m: Manager<C, L>, l: L)
    requires Distinct(m.listeners)
    ensures l !in RemoveListener(m, l).listeners
  {
    DistinctCounts(m.listeners);
    var r := RemoveListener(m, l);
    assert multiset(r.listeners)[l] == 0;
  }

  /** `executeCommand`: when `execute` returned, the command is pushed, the redo stack
      emptied, and the listeners notified; when it threw, nothing changes. */
  function Executed<C, L>(m: Manager<C, L>, c: Option<C>): (r: Manager<C, L>)
    ensures c.Some? ==> r.undo == m.undo + [c.value] && r.redo == [] && r.notified == m.notified + 1
    ensures c.None? ==> r == m
    ensures r.listeners == m.listeners
  {
    if c.Some? then m.(undo := m.undo + [c.value], redo := [], notified := m.notified + 1) else m
  }

  /** The command `undo` would pop next. */
  function NextUndo<C, L>(m: Manager<C, L>): (c: Option<C>)
    ensures c.None? <==> m.undo == []
    ensures c.Some? ==> c.value == m.undo[|m.undo| - 1]
  {
    if m.undo == [] then None else Some(m.undo[|m.undo| - 1])
  }

  /** The command `redo` would pop next. */
  function NextRedo<C, L>(m: Manager<C, L>): (c: Option<C>)
    ensures c.None? <==> m.redo == []
    ensures c.Some? ==> c.value == m.redo[|m.redo| - 1]
  {
    if m.redo == [] then None else Some(m.redo[|m.redo| - 1])
  }

  /** `undo`: with an empty undo stack nothing happens. Otherwise the top is popped
      before its `undo` runs; if that returns, the command goes onto the redo stack
      and the listeners hear of it; if it throws, the command is lost. */
  function Undone<C, L>(m: Manager<C, L>, after: Option<C>): (r: Manager<C, L>)
    ensures m.undo == [] ==> r == m
    ensures m.undo != [] ==> r.undo == m.undo[..|m.undo| - 1]
    ensures m.undo != [] && after.Some? ==> r.redo == m.redo + [after.value] && r.notified == m.notified + 1
    ensures m.undo != [] && after.None? ==> r.redo == m.redo && r.notified == m.notified
    ensures r.listeners == m.listeners
  {
    if m.undo == [] then m
    else
      var popped := m.(undo := m.undo[..|m.undo| - 1]);
      if after.Some? then popped.(redo := m.redo + [after.value], notified := m.notified + 1) else popped
  }

  /** `redo`: the mirror image of `undo`. */
  function Redone<C, L>(m: Manager<C, L>, after: Option<C>): (r: Manager<C, L>)
    ensures m.redo == [] ==> r == m
    ensures m.redo != [] ==> r.redo == m.redo[..|m.redo| - 1]
    ensures m.redo != [] && after.Some? ==> r.undo == m.undo + [after.value] && r.notified == m.notified + 1
    ensures m.redo != [] && after.None? ==> r.undo == m.undo && r.notified == m.notified
    ensures r.listeners == m.listeners
  {
    if m.redo == [] then m
    else
      var popped := m.(redo := m.redo[..|m.redo| - 1]);
      if after.Some? then popped.(undo := m.undo + [after.value], notified := m.notified + 1) else popped
  }

  /** How many commands the two stacks hold together. */
  function Total<C, L>(m: Manager<C, L>): nat
  {
    |m.undo| + |m.redo|
  }

  /** An `undo` or `redo` whose command returns keeps the number of commands held; one
      whose command throws drops exactly that command. */
  lemma MovesKeepTotal<C, L>(m: Manager<C, L>, after: Option<C>)
    ensures Total(Undone(m, after)) == if m.undo != [] && after.None? then Total(m) - 1 else Total(m)
    ensures Total(Redone(m, after)) == if m.redo != [] && after.None? then Total(m) - 1 else Total(m)
  {
  }

  /** Undoing and then redoing brings both stacks back, with the top of the undo stack
      replaced by the command as it was after the redo. */
  lemma UndoThenRedo<C, L>(m: Manager<C, L>, a: C, b: C)
    requires m.undo != []
    ensures var r := Redone(Undone(m, Some(a)), Some(b));
      r.undo == m.undo[..|m.undo| - 1] + [b] && r.redo == m.redo && r.notified == m.notified + 2
    ensures NextUndo(m) == Some(b) ==> Redone(Undone(m, Some(a)), Some(b)) == m.(notified := m.notified + 2)
  {
    var u := Undone(m, Some(a));
    assert u.redo[..|u.redo| - 1] == m.redo;
    if NextUndo(m) == Some(b) {
      assert m.undo[..|m.undo| - 1] + [b] == m.undo;
    }
  }

  /** Redoing and then undoing is the mirror image. */
  lemma RedoThenUndo<C, L>(m: Manager<C, L>, a: C, b: C)
    requires m.redo != []
    ensures var r := Undone(Redone(m, Some(a)), Some(b));
      r.redo == m.redo[..|m.redo| - 1] + [b] && r.undo == m.undo && r.notified == m.notified + 2
  {
    var u := Redone(m, Some(a));
    assert u.undo[..|u.undo| - 1] == m.undo;
  }

  /** After a command is executed, nothing can be redone until something is undone. */
  lemma ExecuteThenRedo<C, L>(m: Manager<C, L>, c: C, after: Option<C>)
    ensures Redone(Executed(m, Some(c)), after) == Executed(m, Some(c))
  {
  }
}
