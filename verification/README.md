# Geometric figure editor — a Dafny model

This project models the core of the geometric figure editor, a Swing whiteboard. There you place
rectangles, regular polygons and nested groups, select them with clicks or a rubber band, drag
and rotate them, group and ungroup them, and undo and redo every step through a command history.
The model covers:

- **Shapes** (`Store`, `Shapes`): `Shape`, `Rectangle`, `RegularPolygon`, `ShapeGroup` and
  `Shape.Point` as objects in a heap. Shapes live under an `Id`, points under a `Ref`, and one
  counter hands out fresh identities. The Java code shares objects by reference: a default
  shape's position and rotation centre are one `Point`, a `ShapeMemento` hands its own point to
  the shape, and `StateManager.restore` installs the memento's own shapes. The heap keeps that
  sharing.
- **Recursive operations** (`Motion`, `Cloning`): `move`, `setRotation`, `setFillColor` and
  `clone()` over group hierarchies. The objects such an operation visits are given by `Walk`.
- **Bounding boxes** (`Geometry`, `Bounds`): `BoundingBoxVisitor` and `java.awt.Rectangle.union`.
- **Status bar counts** (`Counts`): the rectangle, polygon and total counts of `StatusBarPanel`.
- **Commands** (`Commands`, `CommandLaws`): `AddShapeCommand`, `DeleteCommand`, `MoveCommand`,
  `RotateCommand`, `GroupCommand`, `UngroupCommand` and `CompositeCommand`, as one datatype with
  `Execute` and `Undo`. Redo is `Execute`.
- **Command history** (`History`): the `CommandManager` stacks and listeners.
- **Panel state and entry points** (`Whiteboard`, `Editor`): the shapes, selection and history of
  `WhiteboardPanel`. This covers its direct and undoable entry points, and the mouse gestures:
  press, drag, release, the rubber band, ctrl-click toggling and dragging the rotation centre.
- **Shape factories and saving** (`Factory`, `Editor`): `ShapeFactory`, `PropertyEditor` with its
  `ShapeMemento`, and `StateManager` with `ApplicationMemento`.
- **Move descriptions** (`Describe`): the text of `MoveCommand.getDescription`.
- **Java library behaviour** (`JavaLang`): the parts of `java.util.List` and Java integer
  arithmetic that the editor relies on.

Model decisions:

- A Java exception is an `Option` whose `None` case is the throw.
- Floating-point trigonometry enters as a `Trig` parameter. It covers the polygon radius,
  polygon containment and the boxes of rotated shapes.
- Rotations are whole degrees, and Java's truncating `%` and `/` are written out.

Where the code's behaviour is surprising, the model follows the code as written and states the
consequence as a lemma:

- `DeleteCommand` clones the shapes, so its first execution removes nothing from the board
  (`CommandLaws.FreshDeleteRemovesNothing`).
- The rotation buttons call the absolute `RotateCommand` constructor, because their argument is
  an `int` (`Editor.RotateSelected`). `rotateSelectedShapes` and `rotateSelectedShapesTo` have
  identical bodies, so `Editor.RotateSelectedTo` repeats `Editor.RotateSelected`.
- Undoing a group appends the members at the top (`CommandLaws.GroupUndoRestoresMembers`).
- A memento's point or shapes are shared with the document after a restore
  (`Factory.RestoreSharesPoint`, `Editor.RestoreTwiceShares`).
- The union of empty boxes depends on the child order (`Geometry.UnionOfAbsentDependsOnOrder`).

Source paths below are relative to the repository root; every one is under `src/main/java/com/geometriceditor/`.

## Model

| member | source | states |
|---|---|---|
| Geometry.Translate | src/main/java/com/geometriceditor/model/Shape.java:79-82 | a point moved by (dx, dy) differs from the original by exactly (dx, dy) in each coordinate |
| Geometry.Union | src/main/java/com/geometriceditor/visitor/BoundingBoxVisitor.java:90-94 | `java.awt.Rectangle.union`: an empty box contributes nothing, and the union of two non-empty boxes is non-empty and encloses both |
| Geometry.UnionIsLeast | src/main/java/com/geometriceditor/visitor/BoundingBoxVisitor.java:90-94 | every non-empty box enclosing both operands encloses their union, so the union is the smallest enclosing box |
| Geometry.UnionCommutes | src/main/java/com/geometriceditor/visitor/BoundingBoxVisitor.java:90-94 | when at least one box is non-empty, the union does not depend on the order of its operands |
| Geometry.UnionOfAbsentDependsOnOrder | src/main/java/com/geometriceditor/visitor/BoundingBoxVisitor.java:87-95 | with two empty boxes (negative width or height) the union returns whichever came second, so the result depends on the order of the children |
| Geometry.IntersectsSymmetric | src/main/java/com/geometriceditor/ui/WhiteboardPanel.java:529-534 | the rubber-band intersection test is symmetric, and an empty box meets nothing |
| Geometry.UnionAllIsHull | src/main/java/com/geometriceditor/visitor/BoundingBoxVisitor.java:87-95 | folding union over a non-empty list yields a box enclosing every non-empty box, and it is enclosed by any box that encloses them all |
| Geometry.UnionAllOrderFree | src/main/java/com/geometriceditor/visitor/BoundingBoxVisitor.java:87-95 | two lists with the same boxes, at least one non-empty, fold to the same union whatever their order or repetitions |
| Geometry.UnionAllSingle | src/main/java/com/geometriceditor/visitor/BoundingBoxVisitor.java:90-91 | a one-box list folds to that box, even when it is empty |
| Store.NewPoint | src/main/java/com/geometriceditor/model/Shape.java:131-134 | `new Point(x, y)` allocates a point no existing object refers to, holding the given coordinates, and leaves the shapes alone |
| Store.NewObj | src/main/java/com/geometriceditor/model/Shape.java:24-31 | allocating a shape adds exactly one object under an identity that was not in use, so the random `id` of every shape is distinct |
| Store.Walk | src/main/java/com/geometriceditor/model/ShapeGroup.java:83-88 | the objects a recursive group operation visits are existing shapes of the hierarchy, children before parents, ending with the shape itself; a missing shape visits nothing |
| Store.WalkEndsWithSelf | src/main/java/com/geometriceditor/model/ShapeGroup.java:83-88 | a shape is visited exactly once by its own recursive operation |
| Shapes.NewShape | src/main/java/com/geometriceditor/model/Shape.java:24-31 | the `Shape` constructor creates a fresh shape at (0, 0), white fill, black border, rotation 0, whose rotation centre is the very same point object as its position |
| Shapes.PlaceAt | src/main/java/com/geometriceditor/model/ShapeGroup.java:56 | `setPosition(new Point(..))` gives the shape a fresh point object at the requested place and changes no other object or existing point |
| Shapes.NewRectangle | src/main/java/com/geometriceditor/model/Rectangle.java:13-18 | the default rectangle is 100 by 50 with corner radius 0, at the origin, sharing one point for position and centre |
| Shapes.NewRectangleAt | src/main/java/com/geometriceditor/model/Rectangle.java:20-26 | the four-argument constructor places a rectangle of the given size at (x, y) and gives it a separate centre point at the origin |
| Shapes.NewPolygon | src/main/java/com/geometriceditor/model/RegularPolygon.java:13-19 | the default polygon has 6 sides of length 50, its radius computed from them, and a separate centre point |
| Shapes.NewPolygonAt | src/main/java/com/geometriceditor/model/RegularPolygon.java:21-27 | the four-argument constructor places a polygon of the given sides and side length at (x, y), white and black, rotation 0, centre at the origin |
| Shapes.NewGroup | src/main/java/com/geometriceditor/model/ShapeGroup.java:11-14 | a new group is a fresh empty group at the origin |
| Shapes.SetOwnRotation | src/main/java/com/geometriceditor/model/Shape.java:104-106 | `Shape.setRotation` changes that shape's rotation and nothing else |
| Shapes.SetBorderColor | src/main/java/com/geometriceditor/model/Shape.java:96-98 | `setBorderColor` changes only that shape's border, even for a group |
| Shapes.SetPosition | src/main/java/com/geometriceditor/model/Shape.java:75-77 | `setPosition` makes the shape refer to the given point object and changes nothing else |
| Shapes.SetRotationCenter | src/main/java/com/geometriceditor/model/Shape.java:112-114 | `setRotationCenter` makes the shape refer to the given point object and changes nothing else |
| Shapes.SetWidth | src/main/java/com/geometriceditor/model/Rectangle.java:76-78 | only the rectangle's width changes |
| Shapes.SetHeight | src/main/java/com/geometriceditor/model/Rectangle.java:84-86 | only the rectangle's height changes |
| Shapes.SetCornerRadius | src/main/java/com/geometriceditor/model/Rectangle.java:92-94 | only the rectangle's corner radius changes |
| Shapes.SetNumberOfSides | src/main/java/com/geometriceditor/model/RegularPolygon.java:85-88 | the side count changes, the side length stays, and the radius is recomputed so it matches the new dimensions |
| Shapes.SetSideLength | src/main/java/com/geometriceditor/model/RegularPolygon.java:94-97 | the side length changes, the side count stays, and the radius is recomputed so it matches the new dimensions |
| Shapes.Contains | src/main/java/com/geometriceditor/model/Rectangle.java:56-64 | a rectangle contains exactly the points of its half-open box [x, x+w) by [y, y+h); a missing shape contains nothing |
| Shapes.ContainsAny | src/main/java/com/geometriceditor/model/ShapeGroup.java:67-74 | a group contains a point exactly when one of its children does |
| Shapes.EmptyGroupContainsNothing | src/main/java/com/geometriceditor/model/ShapeGroup.java:67-74 | no point lies in an empty group, whatever its position |
| Shapes.GeometricCenter | src/main/java/com/geometriceditor/model/Rectangle.java:96-99 | a rectangle's centre is its position plus half its size, each half truncated toward zero as Java's int division does; other shapes report their position |
| Shapes.HalfTruncates | src/main/java/com/geometriceditor/model/Rectangle.java:98 | Java's `n / 2` is the half of n rounded toward zero, for negative sizes too |
| Shapes.RectIntersects | src/main/java/com/geometriceditor/model/Rectangle.java:112-128 | `Rectangle.intersects`: a rectangle with a non-positive width or height meets nothing |
| Shapes.RectIntersectsSymmetric | src/main/java/com/geometriceditor/model/Rectangle.java:112-128 | rectangle intersection is symmetric |
| Shapes.PointHash | src/main/java/com/geometriceditor/model/Shape.java:160-163 | `Point.hashCode` is `Objects.hash(x, y)`, that is 31 * (31 + x) + y = 961 + 31 * x + y taken modulo 2^32, always a Java int |
| Shapes.Wrap32 | src/main/java/com/geometriceditor/model/Shape.java:160-163 | reducing to a Java int keeps the value congruent modulo 2^32 and inside the int range |
| Shapes.PointEqualityIsCoordinates | src/main/java/com/geometriceditor/model/Shape.java:150-163 | `Point.equals` compares coordinates, is an equivalence, and equal points have equal hash codes |
| Shapes.MinX | src/main/java/com/geometriceditor/model/ShapeGroup.java:47-54 | the smallest x among the children's positions: no child is further left and some child is there |
| Shapes.MinY | src/main/java/com/geometriceditor/model/ShapeGroup.java:47-54 | the smallest y among the children's positions: no child is higher and some child is there |
| Shapes.UpdateGroupPosition | src/main/java/com/geometriceditor/model/ShapeGroup.java:43-57 | a non-empty group moves to the top-left corner of its children's positions (it becomes anchored); an empty group is left as it was; nothing else changes |
| Shapes.AddShape | src/main/java/com/geometriceditor/model/ShapeGroup.java:25-29 | `addShape` appends the child and re-anchors the group; only the group changes |
| Shapes.RemoveShape | src/main/java/com/geometriceditor/model/ShapeGroup.java:32-35 | `removeShape` drops the first occurrence of the child and re-anchors the group; a group left empty keeps its position |
| Bounds.BBox | src/main/java/com/geometriceditor/visitor/BoundingBoxVisitor.java:19-99 | an unrotated rectangle's box is its position and size, an unrotated polygon's is the square of side 2r around its position, and an empty group's is the empty box at its position |
| Bounds.KidBoxes | src/main/java/com/geometriceditor/visitor/BoundingBoxVisitor.java:88-89 | each child of a group is visited once, in order, and contributes its own bounding box |
| Bounds.AllKidsVisited | src/main/java/com/geometriceditor/visitor/BoundingBoxVisitor.java:88-89 | in a well-formed document, a group's child boxes are exactly the boxes of all its children |
| Bounds.GroupBoxIsHull | src/main/java/com/geometriceditor/visitor/BoundingBoxVisitor.java:87-98 | a non-empty group's box encloses every non-empty child box and is the smallest box that does |
| Bounds.SingleChildBox | src/main/java/com/geometriceditor/visitor/BoundingBoxVisitor.java:87-95 | a group with one child has that child's box |
| Bounds.GroupBoxOrderFree | src/main/java/com/geometriceditor/visitor/BoundingBoxVisitor.java:87-95 | two groups with the same children, one of which has a non-empty box, have the same box whatever the child order |
| Bounds.GroupBoxIsUnion | src/main/java/com/geometriceditor/visitor/BoundingBoxVisitor.java:86-95 | a non-empty group's box is the left-to-right union of its children's boxes |
| Counts.CountShape | src/main/java/com/geometriceditor/ui/StatusBarPanel.java:73-92 | a rectangle counts (1, 0, 1), a polygon (0, 1, 1), an empty group nothing, and every total is rectangles plus polygons |
| Counts.CountAll | src/main/java/com/geometriceditor/ui/StatusBarPanel.java:52-68 | the status bar's totals over the top-level list: the total is always rectangles plus polygons |
| Counts.CountAllAppend | src/main/java/com/geometriceditor/ui/StatusBarPanel.java:58-63 | the counts of two lists placed end to end are the sums of their counts |
| Counts.CountAllPermutation | src/main/java/com/geometriceditor/ui/StatusBarPanel.java:58-63 | the counts do not depend on the order of the shapes |
| Counts.CountKidsIsSum | src/main/java/com/geometriceditor/ui/StatusBarPanel.java:83-88 | the recursion over a group's children adds up the children's own counts |
| Counts.GroupCountIsChildrenSum | src/main/java/com/geometriceditor/ui/StatusBarPanel.java:81-89 | a group counts exactly what its children count, and itself not at all |
| History.NewManager | src/main/java/com/geometriceditor/command/CommandManager.java:8-10 | a new command manager has empty undo and redo stacks and no listeners |
| History.AddListener | src/main/java/com/geometriceditor/command/CommandManager.java:14-18 | a listener is added once, at the end; adding a null or an already registered listener changes nothing |
| History.RemoveListener | src/main/java/com/geometriceditor/command/CommandManager.java:20-22 | removing a listener drops one occurrence of it and touches neither stack |
| History.RemoveListenerForgets | src/main/java/com/geometriceditor/command/CommandManager.java:20-22 | with listeners registered once each, a removed listener is no longer notified |
| History.Executed | src/main/java/com/geometriceditor/command/CommandManager.java:33-43 | a command that executes is pushed onto the undo stack, the redo stack is cleared and listeners are notified once; one whose execute throws leaves the manager unchanged |
| History.NextUndo | src/main/java/com/geometriceditor/command/CommandManager.java:45-47 | the command undo acts on is the top of the undo stack, and there is none exactly when the stack is empty |
| History.NextRedo | src/main/java/com/geometriceditor/command/CommandManager.java:54-56 | the command redo acts on is the top of the redo stack, and there is none exactly when the stack is empty |
| History.Undone | src/main/java/com/geometriceditor/command/CommandManager.java:45-52 | undo pops the undo stack and pushes the command on the redo stack, notifying once; a command whose undo throws has already been popped and is lost |
| History.Redone | src/main/java/com/geometriceditor/command/CommandManager.java:54-61 | redo pops the redo stack and pushes the command on the undo stack, notifying once; a command whose redo throws is lost |
| History.MovesKeepTotal | src/main/java/com/geometriceditor/command/CommandManager.java:45-61 | undo and redo move a command between the stacks, so the number of commands held stays the same unless the command threw |
| History.UndoThenRedo | src/main/java/com/geometriceditor/command/CommandManager.java:45-61 | undo followed by redo puts the command back on top of the undo stack and leaves the redo stack as before |
| History.RedoThenUndo | src/main/java/com/geometriceditor/command/CommandManager.java:45-61 | redo followed by undo puts the command back on top of the redo stack and leaves the undo stack as before |
| History.ExecuteThenRedo | src/main/java/com/geometriceditor/command/CommandManager.java:37-38 | right after a new command, redo has nothing to do |
| Motion.Move | src/main/java/com/geometriceditor/model/ShapeGroup.java:83-88 | moving a shape or a group changes only point coordinates: no object, reference or point identity changes |
| Motion.MoveShifts | src/main/java/com/geometriceditor/model/ShapeGroup.java:83-88 | each point is displaced by (dx, dy) once for every visited shape whose position it is, so a point shared by k visited shapes moves k times |
| Motion.MoveEach | src/main/java/com/geometriceditor/command/MoveCommand.java:39-42 | moving a list of shapes changes only point coordinates |
| Motion.MoveEachPoints | src/main/java/com/geometriceditor/command/MoveCommand.java:39-42 | each point moves by (dx, dy) once per visit by the walks of all the listed shapes together |
| Motion.MoveRoundTrip | src/main/java/com/geometriceditor/model/Shape.java:79-82 | moving by (dx, dy) and then by (-dx, -dy) restores every point, aliasing included |
| Motion.MoveEachRoundTrip | src/main/java/com/geometriceditor/command/MoveCommand.java:39-48 | moving a list of shapes and moving them back restores the document exactly |
| Motion.MoveEachCompose | src/main/java/com/geometriceditor/ui/WhiteboardPanel.java:427-440 | two successive moves of the same shapes equal one move by the summed offsets, so drag segments add up |
| Motion.MoveLeaf | src/main/java/com/geometriceditor/model/Shape.java:79-82 | moving a rectangle or polygon translates its position and no other point |
| Motion.DefaultShapeMovesItsCenter | src/main/java/com/geometriceditor/model/Shape.java:24-31 | because the default constructor shares one point for position and centre, moving a default rectangle moves its rotation centre too |
| Motion.MoveTranslatesWalk | src/main/java/com/geometriceditor/model/ShapeGroup.java:83-88 | when the visited shapes have distinct position objects, every shape of the hierarchy is translated by (dx, dy) |
| Motion.MoveKeepsAnchor | src/main/java/com/geometriceditor/model/ShapeGroup.java:43-57 | moving an anchored group with distinct position objects translates each child and keeps the group at its children's top-left corner |
| Motion.SetRotation | src/main/java/com/geometriceditor/model/ShapeGroup.java:100-107 | setting a rotation v turns every shape of the hierarchy by v minus the shape's own old rotation, and touches nothing else |
| Motion.RotateKids | src/main/java/com/geometriceditor/model/ShapeGroup.java:101-105 | the loop over the children turns every shape below them by the same amount |
| Motion.SetRotationRoundTrip | src/main/java/com/geometriceditor/model/ShapeGroup.java:100-107 | setting the rotation and then setting the old value back restores every object |
| Motion.SetRotationElsewhere | src/main/java/com/geometriceditor/model/ShapeGroup.java:100-107 | shapes outside the hierarchy are untouched |
| Motion.SetRotationLands | src/main/java/com/geometriceditor/model/ShapeGroup.java:100-107 | the shape ends with rotation v and its hierarchy is unchanged |
| Motion.SetFillColor | src/main/java/com/geometriceditor/model/ShapeGroup.java:92-97 | filling a group fills exactly the shapes of its hierarchy and changes nothing but fills |
| Motion.FillKids | src/main/java/com/geometriceditor/model/ShapeGroup.java:93-95 | the loop over the children fills exactly the shapes below them |
| Cloning.Clone | src/main/java/com/geometriceditor/model/ShapeGroup.java:16-22 | `clone()` builds a fresh deep copy (same kind, colours, rotation and coordinates, children copied recursively) from new objects only, with position and centre as two separate new points |
| Cloning.CloneLeaf | src/main/java/com/geometriceditor/model/Rectangle.java:28-33 | the copy constructors of rectangle and polygon copy every field into a new object with new points |
| Cloning.CloneGroup | src/main/java/com/geometriceditor/model/ShapeGroup.java:16-22 | the group copy constructor builds a new group whose children are the copies of the original children, in order |
| Cloning.CloneKids | src/main/java/com/geometriceditor/model/ShapeGroup.java:19-21 | the children are copied one by one, each copy a fresh deep copy of the child at the same index |
| Cloning.CloneAll | src/main/java/com/geometriceditor/state/ApplicationMemento.java:12-17 | copying a list of shapes gives one fresh deep copy per shape, in order |
| Cloning.CopyIgnoresMove | src/main/java/com/geometriceditor/state/ApplicationMemento.java:12-17 | moving any original shape afterwards leaves a copy's content unchanged: copies share no points with the originals |
| Cloning.CopyIgnoresRotation | src/main/java/com/geometriceditor/state/ApplicationMemento.java:12-17 | rotating any original shape leaves a copy's content unchanged |
| Cloning.CopyIgnoresFill | src/main/java/com/geometriceditor/state/ApplicationMemento.java:12-17 | recolouring any original shape leaves a copy's content unchanged |
| Commands.Normalize | src/main/java/com/geometriceditor/command/RotateCommand.java:54-58 | the relative new rotation is in [0, 360) and congruent to the sum modulo 360 |
| Commands.TurnEach | src/main/java/com/geometriceditor/command/RotateCommand.java:43-67 | rotating the listed shapes changes only rotations and leaves shapes outside their hierarchies alone; for separate hierarchies every listed shape lands at its goal |
| Commands.Originals | src/main/java/com/geometriceditor/command/RotateCommand.java:26 | the saved rotations have exactly the listed shapes as keys, each with its rotation at construction |
| Commands.NewRotateBy | src/main/java/com/geometriceditor/command/RotateCommand.java:20-27 | the relative constructor keeps the list, the amount and the original rotations |
| Commands.NewRotateTo | src/main/java/com/geometriceditor/command/RotateCommand.java:33-40 | the absolute constructor stores the target reduced by Java's `%`: strictly between -360 and 360, same sign as the target, congruent to it |
| Commands.NewDelete | src/main/java/com/geometriceditor/command/DeleteCommand.java:27-31 | the delete command holds fresh clones of the given shapes, one per shape, and the board is unchanged except for the new objects |
| Commands.NewUngroup | src/main/java/com/geometriceditor/command/UngroupCommand.java:15-20 | the ungroup command remembers the group's children at construction |
| Commands.ExecuteAll | src/main/java/com/geometriceditor/command/CompositeCommand.java:27-31 | executing the parts yields one updated command per part; the order is stated by ExecuteAllAppend and ExecuteAllLast |
| Commands.UndoAll | src/main/java/com/geometriceditor/command/CompositeCommand.java:37-42 | undoing the parts yields one updated command per part; the order is stated by UndoAllAppend and UndoAllLast |
| Commands.ExecuteAllAppend | src/main/java/com/geometriceditor/command/CompositeCommand.java:27-31 | executing `xs + ys` runs `xs`, then `ys` on the board `xs` left, and the updated commands are concatenated in that order |
| Commands.ExecuteAllLast | src/main/java/com/geometriceditor/command/CompositeCommand.java:27-31 | the last part runs last, on the board all earlier parts left |
| Commands.UndoAllAppend | src/main/java/com/geometriceditor/command/CompositeCommand.java:37-42 | undoing `xs + ys` undoes `ys` first, then `xs` on the board that left |
| Commands.UndoAllLast | src/main/java/com/geometriceditor/command/CompositeCommand.java:37-42 | the last part is undone first, on the board as given, and the earlier parts after it |
| Commands.AddSteps | src/main/java/com/geometriceditor/command/AddShapeCommand.java:17-25 | executing an add command appends the shape to the list; undoing it removes the first occurrence from the list and from the selection; no object changes |
| Commands.GroupSteps | src/main/java/com/geometriceditor/command/GroupCommand.java:22-43 | with more than one member, executing records a group object that did not exist before, holding exactly the members, on top and alone selected; with fewer members nothing happens; undoing always forgets the recorded group and does nothing when none was recorded |
| Commands.AddTo | src/main/java/com/geometriceditor/command/CompositeCommand.java:19-21 | `add` appends the part: the size grows by one and the batch is no longer empty |
| CommandLaws.AddRoundTrip | src/main/java/com/geometriceditor/command/AddShapeCommand.java:17-25 | adding a shape that is not on the board and undoing restores the board |
| CommandLaws.AddUndoMovesListedShape | src/main/java/com/geometriceditor/command/AddShapeCommand.java:17-25 | adding a shape already on the board and undoing removes its first occurrence, so the shape moves to the top of the drawing order |
| CommandLaws.DeleteRemovesClones | src/main/java/com/geometriceditor/command/DeleteCommand.java:34-51 | delete clears the selection and removes exactly the board shapes that are among the command's list |
| CommandLaws.DeleteRemembersSelection | src/main/java/com/geometriceditor/command/DeleteCommand.java:36 | executing a delete records the selection it found |
| CommandLaws.ClonesAreNew | src/main/java/com/geometriceditor/command/DeleteCommand.java:30 | the clones a delete command holds are never shapes of the board |
| CommandLaws.FreshDeleteRemovesNothing | src/main/java/com/geometriceditor/command/DeleteCommand.java:30-48 | since the command holds clones, its first execution removes no shape from the board and only clears the selection |
| CommandLaws.DeleteUndoAddsClones | src/main/java/com/geometriceditor/command/DeleteCommand.java:54-62 | undoing a delete adds the clones to the top of the board and restores the previous selection |
| CommandLaws.DeleteRedoRemovesClones | src/main/java/com/geometriceditor/command/DeleteCommand.java:65-67 | redoing a delete removes the clones the undo added |
| CommandLaws.MoveRoundTrip | src/main/java/com/geometriceditor/command/MoveCommand.java:39-52 | executing a move and undoing it restores the board |
| CommandLaws.MoveKeepsBoard | src/main/java/com/geometriceditor/command/MoveCommand.java:39-42 | a move changes only point coordinates, not the shapes, the board list or the selection |
| CommandLaws.RotateToLands | src/main/java/com/geometriceditor/command/RotateCommand.java:50-52 | an absolute rotation sets every listed shape to the stored amount and leaves other hierarchies alone |
| CommandLaws.RotateByLands | src/main/java/com/geometriceditor/command/RotateCommand.java:53-58 | a relative rotation sets every listed shape to its old rotation plus the amount, reduced into [0, 360) |
| CommandLaws.RotateRoundTrip | src/main/java/com/geometriceditor/command/RotateCommand.java:70-78 | undo gives every listed shape its rotation at construction back and leaves other hierarchies alone |
| CommandLaws.RestoreOriginals | src/main/java/com/geometriceditor/command/RotateCommand.java:70-78 | restoring the saved rotations puts back every listed shape's rotation, whatever happened in between to their rotations |
| CommandLaws.SmallGroupIsNoop | src/main/java/com/geometriceditor/command/GroupCommand.java:22-43 | grouping fewer than two shapes does nothing, and neither does its undo |
| CommandLaws.GroupMakesGroup | src/main/java/com/geometriceditor/command/GroupCommand.java:22-31 | grouping makes a group with exactly the members, in order, replaces the members on the board by it, draws it on top and selects it alone |
| CommandLaws.GroupKeepsHeap | src/main/java/com/geometriceditor/command/GroupCommand.java:22-31 | grouping only adds a new anchored group; every existing object is unchanged |
| CommandLaws.GroupUndoRestoresMembers | src/main/java/com/geometriceditor/command/GroupCommand.java:34-43 | undoing a group puts the members back at the top of the board and selects them |
| CommandLaws.GroupRoundTripOnTop | src/main/java/com/geometriceditor/command/GroupCommand.java:22-43 | when the members were already the topmost shapes in order, grouping then undoing restores the board list exactly |
| CommandLaws.GroupUndoForgets | src/main/java/com/geometriceditor/command/GroupCommand.java:34-43 | after undo the command no longer refers to a group, and a second undo does nothing |
| CommandLaws.GroupRedoIsNewGroup | src/main/java/com/geometriceditor/command/GroupCommand.java:46-49 | redo builds a different group object from the one the first execution made |
| CommandLaws.GroupKeepsTotals | src/main/java/com/geometriceditor/command/GroupCommand.java:22-31 | grouping board shapes leaves the status bar's rectangle, polygon and total counts unchanged |
| CommandLaws.UngroupSpreadsChildren | src/main/java/com/geometriceditor/command/UngroupCommand.java:23-31 | ungrouping replaces the group by its children at the top of the board, selects the children, and keeps the counts |
| CommandLaws.UngroupUndoRegroups | src/main/java/com/geometriceditor/command/UngroupCommand.java:34-42 | undoing an ungroup puts the same group object back on top and selects it alone; a group without children stays ungrouped |
| CommandLaws.LoopsRoundTrip | src/main/java/com/geometriceditor/command/CompositeCommand.java:27-42 | running parts forwards and undoing them in reverse restores the board when each part round-trips on the board it meets |
| CommandLaws.CompositeRoundTrip | src/main/java/com/geometriceditor/command/CompositeCommand.java:27-42 | a composite whose parts round-trip in turn round-trips itself |
| CommandLaws.CompositeConcat | src/main/java/com/geometriceditor/command/CompositeCommand.java:27-42 | a composite of `xs + ys` executes as the composite of `xs` then that of `ys`, and undoes as the composite of `ys` undone, then that of `xs` |
| CommandLaws.MovesRoundTrip | src/main/java/com/geometriceditor/command/MoveCommand.java:39-52 | any batch of moves round-trips on any board |
| Describe.ClassName | src/main/java/com/geometriceditor/command/MoveCommand.java:66 | `getSimpleName()` names each kind of shape, with a distinct name per kind |
| Describe.MoveDescription | src/main/java/com/geometriceditor/command/MoveCommand.java:61-69 | the description is "Move shapes" exactly when the list is empty, and always starts with "Move " |
| Describe.DescriptionNamesSubject | src/main/java/com/geometriceditor/command/MoveCommand.java:61-69 | reading the subject back between "Move " and " by (" gives nothing for an empty list, the class name of the one shape for a single shape, and "<n> shapes" with n the list's length for several |
| Describe.DescriptionRecordsOffsets | src/main/java/com/geometriceditor/command/MoveCommand.java:61-69 | the offsets can be read back from the description of a non-empty move, and an empty move's description holds none |
| Describe.OffsetsAfter | src/main/java/com/geometriceditor/command/MoveCommand.java:68 | whatever text precedes the opening parenthesis, "(dx, dy)" reads back as (dx, dy) |
| JavaLang.IntStringRoundTrip | src/main/java/com/geometriceditor/command/MoveCommand.java:68 | the decimal text of an int reads back as the same int, negatives included |
| JavaLang.Div | src/main/java/com/geometriceditor/model/Rectangle.java:98 | Java's int `/` rounds toward zero: the remainder is smaller than the divisor and has the dividend's sign |
| JavaLang.Rem | src/main/java/com/geometriceditor/command/RotateCommand.java:35 | Java's int `%`: smaller than the divisor in size, the sign of the dividend, and congruent to it |
| JavaLang.RemoveFirst | src/main/java/com/geometriceditor/ui/WhiteboardPanel.java:117-120 | `List.remove(Object)` removes one element when it is present and nothing otherwise |
| JavaLang.RemoveFirstCounts | src/main/java/com/geometriceditor/ui/WhiteboardPanel.java:117-120 | exactly one occurrence of the element is removed |
| JavaLang.RemoveAll | src/main/java/com/geometriceditor/ui/WhiteboardPanel.java:146 | `List.removeAll` keeps exactly the elements not in the argument, in order; its order and content are stated by `JavaLang.RemoveAllAppend`, `JavaLang.RemoveAllNone` and `JavaLang.RemoveAllCovered` |
| JavaLang.RemoveAllAppend | src/main/java/com/geometriceditor/ui/WhiteboardPanel.java:146 | `removeAll` on a concatenation is the concatenation of the two results, so the kept elements stay in their order |
| JavaLang.RemoveAllNone | src/main/java/com/geometriceditor/ui/WhiteboardPanel.java:146 | `removeAll` with a list that shares nothing with the receiver leaves it unchanged |
| JavaLang.RemoveAllCovered | src/main/java/com/geometriceditor/ui/WhiteboardPanel.java:146 | `removeAll` with a list that covers every element empties the receiver |
| JavaLang.RemoveAllCounts | src/main/java/com/geometriceditor/ui/WhiteboardPanel.java:146 | `removeAll` drops every occurrence of the listed elements and keeps the others with their multiplicity |
| JavaLang.KeepAll | src/main/java/com/geometriceditor/command/DeleteCommand.java:39-42 | the filter keeps exactly the board shapes whose identity is among the command's list |
| JavaLang.RemoveEachCounts | src/main/java/com/geometriceditor/command/DeleteCommand.java:48 | removing the listed shapes one at a time takes away one occurrence per listed shape |
| JavaLang.RemoveEachKeptIsRemoveAll | src/main/java/com/geometriceditor/command/DeleteCommand.java:39-48 | removing one by one every board shape that matches the list is the same as `removeAll` with the list |
| JavaLang.RemoveFirstAfterAppend | src/main/java/com/geometriceditor/command/AddShapeCommand.java:17-25 | removing a shape just appended, when it was not already present, gives back the list before the append |
| Factory.CreateRectangle | src/main/java/com/geometriceditor/factory/ShapeFactory.java:24-26 | the factory's default rectangle is a fresh 100 by 50 rectangle at the origin, white and black, unrotated |
| Factory.CreateRectangleAt | src/main/java/com/geometriceditor/factory/ShapeFactory.java:28-32 | the factory places a fresh rectangle of the given size at (x, y) and fills it blue |
| Factory.CreatePolygon | src/main/java/com/geometriceditor/factory/ShapeFactory.java:35-37 | the factory's default polygon is a fresh hexagon of side 50 at the origin |
| Factory.CreatePolygonAt | src/main/java/com/geometriceditor/factory/ShapeFactory.java:39-43 | the factory places a fresh polygon with the given sides at (x, y), fills it green and keeps its radius consistent |
| Factory.CloneShape | src/main/java/com/geometriceditor/factory/ShapeFactory.java:46-48 | cloning through the factory gives a deep copy that is a different object |
| Factory.EditPosition | src/main/java/com/geometriceditor/factory/PropertyEditor.java:25-27 | the property editor moves the shape to (x, y) through a new point, changing no existing point and no other object |
| Factory.EditColor | src/main/java/com/geometriceditor/factory/PropertyEditor.java:29-32 | the fill reaches every shape of the hierarchy while the border is set on the edited shape alone |
| Factory.EditRotation | src/main/java/com/geometriceditor/factory/PropertyEditor.java:34-36 | the edited shape ends at the requested rotation and only rotations change |
| Factory.EditRectangle | src/main/java/com/geometriceditor/factory/PropertyEditor.java:39-46 | width, height and corner radius are set and nothing else changes |
| Factory.EditPolygon | src/main/java/com/geometriceditor/factory/PropertyEditor.java:49-54 | sides and side length are set, the radius is recomputed, nothing else changes |
| Factory.CreateMemento | src/main/java/com/geometriceditor/factory/PropertyEditor.java:57-73 | a shape memento holds a new point with the shape's coordinates and the shape's colours and rotation, and allocates nothing but that point |
| Factory.RestoreMemento | src/main/java/com/geometriceditor/factory/PropertyEditor.java:75-80 | restore installs the memento's own point as the position and its colours and rotation; the hierarchy and all points are unchanged |
| Factory.RestoreKeepsValid | src/main/java/com/geometriceditor/factory/PropertyEditor.java:75-80 | restoring a memento keeps the document well formed |
| Factory.RestoreBringsBack | src/main/java/com/geometriceditor/factory/PropertyEditor.java:75-80 | restoring a rectangle or polygon brings back its saved position, colours and rotation |
| Factory.RestoreSharesPoint | src/main/java/com/geometriceditor/factory/PropertyEditor.java:76 | the memento hands out its own point, so a shape moved after one restore comes back moved from the second restore |
| Whiteboard.DirectAdd | src/main/java/com/geometriceditor/ui/WhiteboardPanel.java:112-115 | `directAddShape` appends the shape to the drawing order and changes nothing else |
| Whiteboard.DirectRemove | src/main/java/com/geometriceditor/ui/WhiteboardPanel.java:117-120 | `directRemoveShape` removes one occurrence when present and nothing otherwise |
| Whiteboard.DirectRemoveCounts | src/main/java/com/geometriceditor/ui/WhiteboardPanel.java:117-120 | exactly one occurrence of the shape leaves the board list |
| Whiteboard.AddThenRemove | src/main/java/com/geometriceditor/ui/WhiteboardPanel.java:112-120 | removing a shape just added, when it was new to the board, restores the board |
| Whiteboard.AddThenRemoveEarlier | src/main/java/com/geometriceditor/ui/WhiteboardPanel.java:112-120 | adding a shape already on the board and removing it drops the earlier occurrence |
| Whiteboard.DirectDeselect | src/main/java/com/geometriceditor/ui/WhiteboardPanel.java:122-125 | `directDeselectShape` removes one occurrence from the selection only |
| Whiteboard.DirectDeselectCounts | src/main/java/com/geometriceditor/ui/WhiteboardPanel.java:122-125 | exactly one occurrence of the shape leaves the selection |
| Whiteboard.DirectSelect | src/main/java/com/geometriceditor/ui/WhiteboardPanel.java:127-133 | `directSelectShape` replaces the selection by the shape alone, or empties it for null |
| Whiteboard.DirectSelectShapes | src/main/java/com/geometriceditor/ui/WhiteboardPanel.java:135-141 | `directSelectShapes` replaces the selection by the given list, or empties it for null |
| Whiteboard.AddShapes | src/main/java/com/geometriceditor/ui/WhiteboardPanel.java:145 | adding the members one by one gives a group with the members in order, still anchored |
| Whiteboard.DirectGroup | src/main/java/com/geometriceditor/ui/WhiteboardPanel.java:143-151 | `directGroupShapes` makes a group of the members, replaces them on the board by it on top, and deselects them |
| Whiteboard.GroupedBoard | src/main/java/com/geometriceditor/ui/WhiteboardPanel.java:143-151 | the new group is a fresh, anchored object and no existing object changes |
| Whiteboard.DirectUngroup | src/main/java/com/geometriceditor/ui/WhiteboardPanel.java:153-160 | `directUngroupShape` replaces the group by its children at the top and deselects the group, returning the children |
| Whiteboard.DirectUngroupCounts | src/main/java/com/geometriceditor/ui/WhiteboardPanel.java:153-160 | the board list loses one occurrence of the group and gains the children; the selection loses the group |
| Whiteboard.DirectRegroup | src/main/java/com/geometriceditor/ui/WhiteboardPanel.java:162-168 | `directRegroupShapes` removes the children from the board, puts the group on top and deselects the children |
| Whiteboard.Clear | src/main/java/com/geometriceditor/ui/WhiteboardPanel.java:174-178 | `clearShapes` empties the board and the selection |
| Whiteboard.SelectAll | src/main/java/com/geometriceditor/ui/WhiteboardPanel.java:181-185 | `selectAll` selects the board list as it is |
| Whiteboard.DeselectAll | src/main/java/com/geometriceditor/ui/WhiteboardPanel.java:187-190 | `deselectAll` empties the selection |
| Whiteboard.DeleteSelected | src/main/java/com/geometriceditor/ui/WhiteboardPanel.java:192-196 | `deleteSelected` removes exactly the selected shapes, keeps the others with their multiplicity, and clears the selection |
| Whiteboard.DeleteAllIsClear | src/main/java/com/geometriceditor/ui/WhiteboardPanel.java:181-196 | select all followed by delete selected clears the board |
| Whiteboard.GroupKeepsCounts | src/main/java/com/geometriceditor/ui/WhiteboardPanel.java:143-151 | grouping board shapes keeps the status bar counts |
| Whiteboard.UngroupKeepsCounts | src/main/java/com/geometriceditor/ui/WhiteboardPanel.java:153-160 | ungrouping a board group keeps the status bar counts |
| Whiteboard.GroupThenUngroup | src/main/java/com/geometriceditor/ui/WhiteboardPanel.java:143-160 | ungrouping a group just made gives back the members, now at the top of the board |
| Whiteboard.UngroupThenRegroup | src/main/java/com/geometriceditor/ui/WhiteboardPanel.java:153-168 | regrouping the children of a group just ungrouped puts the group back on top |
| Selection.FindShapeAt | src/main/java/com/geometriceditor/ui/WhiteboardPanel.java:519-527 | a hit, when found, is a top-level shape that contains the point |
| Selection.FindShapeAtIsTopmost | src/main/java/com/geometriceditor/ui/WhiteboardPanel.java:519-527 | there is no hit exactly when no shape contains the point, and a hit is the last shape in drawing order that does |
| Selection.Toggle | src/main/java/com/geometriceditor/ui/WhiteboardPanel.java:482-490 | ctrl-click removes one occurrence of a selected shape, appends an unselected one, and a miss changes nothing |
| Selection.ToggleFlips | src/main/java/com/geometriceditor/ui/WhiteboardPanel.java:482-490 | on a selection without repeats, toggling flips membership of that shape only and keeps the selection without repeats |
| Selection.ToggleTwice | src/main/java/com/geometriceditor/ui/WhiteboardPanel.java:482-490 | toggling the same shape twice leaves the same shapes selected |
| Selection.ClickSelect | src/main/java/com/geometriceditor/ui/WhiteboardPanel.java:497-505 | a plain click on an unselected shape selects it alone; on a selected shape it keeps the selection |
| Selection.SpanRect | src/main/java/com/geometriceditor/ui/WhiteboardPanel.java:510-517 | the rubber band spans the press point and the current point, whichever corners they are, with a non-negative size |
| Selection.SpanRectSymmetric | src/main/java/com/geometriceditor/ui/WhiteboardPanel.java:510-517 | the rubber band is the same whichever end the drag started from |
| Selection.SelectInRect | src/main/java/com/geometriceditor/ui/WhiteboardPanel.java:529-534 | the selection is kept as a prefix and the result holds exactly the old selection plus the top-level shapes whose bounding box meets the rectangle; a selection without repeats stays without repeats |
| Selection.SelectInRectAddsNew | src/main/java/com/geometriceditor/ui/WhiteboardPanel.java:529-534 | every appended shape was not selected before, is in the list and has a bounding box meeting the rectangle |
| Selection.SelectInRectNoRepeats | src/main/java/com/geometriceditor/ui/WhiteboardPanel.java:529-534 | the appended part holds no shape twice, whatever the old selection holds |
| Selection.SelectInRectInOrder | src/main/java/com/geometriceditor/ui/WhiteboardPanel.java:529-534 | the appended shapes come in the order of their first occurrence in the list |
| Editor.NewPanel | src/main/java/com/geometriceditor/ui/WhiteboardPanel.java:51-84 | a new panel has no shapes, no selection, empty history and no gesture in progress |
| Editor.Run | src/main/java/com/geometriceditor/command/CommandManager.java:33-43 | executing a command through the panel pushes one command on the undo stack, clears redo and notifies once |
| Editor.PanelUndo | src/main/java/com/geometriceditor/ui/WhiteboardPanel.java:245-248 | undo pops the top command onto the redo stack, or does nothing when there is none |
| Editor.PanelRedo | src/main/java/com/geometriceditor/ui/WhiteboardPanel.java:250-253 | redo pops the top redo command onto the undo stack, or does nothing when there is none |
| Editor.RunUndone | src/main/java/com/geometriceditor/command/CommandManager.java:33-52 | running a command and undoing it leaves the board as the command's undo makes it and the undo stack as before |
| Editor.RunThenUndo | src/main/java/com/geometriceditor/command/CommandManager.java:33-52 | for a command that round-trips, run followed by undo restores the board and the undo stack |
| Editor.PanelUndoThenRedo | src/main/java/com/geometriceditor/command/CommandManager.java:45-61 | undo followed by redo re-executes the undone command and restores both stack depths |
| Editor.AddShape | src/main/java/com/geometriceditor/ui/WhiteboardPanel.java:98-102 | `addShape` adds a non-null shape on top through an add command and ignores null |
| Editor.AddShapeUndone | src/main/java/com/geometriceditor/ui/WhiteboardPanel.java:98-102 | adding a new shape and pressing undo restores the board |
| Editor.AddBatch | src/main/java/com/geometriceditor/ui/WhiteboardPanel.java:104-110 | the batch holds one add command per shape, in order |
| Editor.AddMultipleShapes | src/main/java/com/geometriceditor/ui/WhiteboardPanel.java:104-110 | `addMultipleShapes` adds all the shapes on top as one undoable step, and ignores null or empty lists |
| Editor.ExecuteAdds | src/main/java/com/geometriceditor/ui/WhiteboardPanel.java:104-110 | executing the batch appends all the shapes in order |
| Editor.UndoAdds | src/main/java/com/geometriceditor/command/CompositeCommand.java:37-42 | undoing a batch of distinct new shapes restores the board |
| Editor.AddMultipleUndone | src/main/java/com/geometriceditor/ui/WhiteboardPanel.java:104-110 | one undo takes back a whole batch of added shapes |
| Editor.GroupSelected | src/main/java/com/geometriceditor/ui/WhiteboardPanel.java:198-205 | `groupSelected` records one step when more than one shape is selected and does nothing otherwise |
| Editor.GroupSelectedGroups | src/main/java/com/geometriceditor/ui/WhiteboardPanel.java:198-205 | the recorded group command holds the selection as members and a group with exactly those children, drawn on top |
| Editor.GroupSelectedUndone | src/main/java/com/geometriceditor/ui/WhiteboardPanel.java:198-205 | undoing a grouping of the selection puts the members back on top and selects them |
| Editor.GroupsIn | src/main/java/com/geometriceditor/ui/WhiteboardPanel.java:209-213 | the groups to ungroup are exactly the selected shapes that are groups |
| Editor.UngroupBatch | src/main/java/com/geometriceditor/ui/WhiteboardPanel.java:209-213 | the batch has one ungroup command per selected group, each remembering that group's children |
| Editor.UngroupSelected | src/main/java/com/geometriceditor/ui/WhiteboardPanel.java:207-219 | `ungroupSelected` records one step when some selected shape is a group and does nothing otherwise |
| Editor.UngroupOneSelected | src/main/java/com/geometriceditor/ui/WhiteboardPanel.java:207-219 | ungrouping one selected group spreads its children on top and selects them; undo puts the group back and selects it |
| Editor.RotateSelected | src/main/java/com/geometriceditor/ui/WhiteboardPanel.java:224-232 | the rotation buttons record an absolute rotation command, because the int argument selects the absolute constructor |
| Editor.RotateSelectedTo | src/main/java/com/geometriceditor/ui/WhiteboardPanel.java:234-242 | setting the rotation records an absolute rotation command for the selection |
| Editor.RotateSelectedIsAbsolute | src/main/java/com/geometriceditor/ui/WhiteboardPanel.java:224-242 | the two entry points coincide: each selected shape ends at degrees reduced by Java's `%` |
| Editor.Save | src/main/java/com/geometriceditor/state/StateManager.java:14-16 | saving copies every board shape into fresh objects, one per shape in order, and leaves the panel's own state alone |
| Editor.SavedAreNew | src/main/java/com/geometriceditor/state/ApplicationMemento.java:15 | no saved copy is a board shape |
| Editor.SaveIgnoresMove | src/main/java/com/geometriceditor/state/ApplicationMemento.java:12-17 | moving a board shape after saving leaves the saved copies unchanged |
| Editor.Restore | src/main/java/com/geometriceditor/state/StateManager.java:18-23 | restore clears the board and adds the memento's own shapes one by one, each an undoable add |
| Editor.AddEach | src/main/java/com/geometriceditor/state/StateManager.java:20-22 | adding shapes one at a time appends them in order with one add command each |
| Editor.SaveThenRestore | src/main/java/com/geometriceditor/state/StateManager.java:14-23 | save then restore yields a board of copies of the old shapes, one per shape, with no selection |
| Editor.RestoreTwiceShares | src/main/java/com/geometriceditor/state/ApplicationMemento.java:19-21 | the memento hands out its own shapes, so edits made after one restore show up after a second restore |
| Editor.Press | src/main/java/com/geometriceditor/ui/WhiteboardPanel.java:363-404 | a press records its point; a right click changes nothing else; a press on the rotation centre of the single selected shape starts a centre drag; ctrl-click toggles the shape under the point |
| Editor.PlainPress | src/main/java/com/geometriceditor/ui/WhiteboardPanel.java:383-401 | a plain press on a shape selects it and starts a shape drag; a press on empty space clears the selection and starts a rubber band |
| Editor.ShiftCenters | src/main/java/com/geometriceditor/ui/WhiteboardPanel.java:411-425 | dragging the rotation centre keeps the heap valid, changes only the centre of each shape, leaves unlisted shapes and every existing point as they were |
| Editor.ShiftCentersLand | src/main/java/com/geometriceditor/ui/WhiteboardPanel.java:411-425 | on a list without repeats, each listed shape's centre becomes a point that did not exist before, at its old centre plus the offset |
| Editor.Recenter | src/main/java/com/geometriceditor/ui/WhiteboardPanel.java:416-419 | giving one shape a new centre point at p changes only that shape's centre, keeps every existing point and every other shape's centre |
| Editor.Drag | src/main/java/com/geometriceditor/ui/WhiteboardPanel.java:410-446 | a drag step keeps the shapes, the selection and the history |
| Editor.Drags | src/main/java/com/geometriceditor/ui/WhiteboardPanel.java:410-446 | a sequence of drag steps keeps the shapes, the selection and the history |
| Editor.PreviewIsMove | src/main/java/com/geometriceditor/ui/WhiteboardPanel.java:427-440 | the live preview of a shape drag equals one move of the selection from the press point to the last point |
| Editor.DragsAccumulate | src/main/java/com/geometriceditor/ui/WhiteboardPanel.java:427-440 | a shape drag accumulates the total offset of all its steps and moves the selection by it |
| Editor.DragStep | src/main/java/com/geometriceditor/ui/WhiteboardPanel.java:427-440 | one drag step moves the selection by the distance from the previous point and adds it to the totals |
| Editor.RectDrags | src/main/java/com/geometriceditor/ui/WhiteboardPanel.java:442-444 | dragging a rubber band changes only the rectangle, which spans the press point and the last point |
| Editor.EndBand | src/main/java/com/geometriceditor/ui/WhiteboardPanel.java:451-455 | releasing a rubber band selects what it crosses and discards the band |
| Editor.CommitDrag | src/main/java/com/geometriceditor/ui/WhiteboardPanel.java:458-469 | releasing a shape drag with a non-zero total records one move command for it, and a zero drag records nothing |
| Editor.RevertThenMove | src/main/java/com/geometriceditor/ui/WhiteboardPanel.java:461-468 | reverting the preview and executing the move command leaves the board as the preview left it, with the command recorded |
| Editor.ClearDrag | src/main/java/com/geometriceditor/ui/WhiteboardPanel.java:472-476 | the drag start, drag origin and centre drag are cleared and the offsets zeroed, while the rubber band and its start are kept; the result is idle exactly when no rubber band is open |
| Editor.Release | src/main/java/com/geometriceditor/ui/WhiteboardPanel.java:449-479 | a release ends every gesture, selects what a rubber band crosses, and records a move only for a non-zero drag |
| Editor.ReleaseDrag | src/main/java/com/geometriceditor/ui/WhiteboardPanel.java:458-469 | after a shape drag the board stays where the preview put it and one move command is recorded |
| Editor.ReleaseDragUndone | src/main/java/com/geometriceditor/ui/WhiteboardPanel.java:458-469 | undo right after a shape drag puts the shapes back where they were before the drag |
| Editor.ReleaseCommits | src/main/java/com/geometriceditor/ui/WhiteboardPanel.java:449-479 | without a rubber band, release is commit followed by resetting the drag state |
| Editor.RevertDrag | src/main/java/com/geometriceditor/ui/WhiteboardPanel.java:461-463 | moving back by the totals, or undoing the move, restores the board from before the drag |
| Editor.ShapeDragGesture | src/main/java/com/geometriceditor/ui/WhiteboardPanel.java:363-479 | press on a shape, drag and release moves the clicked selection by the press-to-release offset and records exactly that move |
| Editor.ShapeDragUndone | src/main/java/com/geometriceditor/ui/WhiteboardPanel.java:363-479 | undo after a shape drag gesture restores every point |
| Editor.ShapeDragInPlace | src/main/java/com/geometriceditor/ui/WhiteboardPanel.java:458 | a drag that ends where it began only selects and records nothing |
| Editor.PressThenDrag | src/main/java/com/geometriceditor/ui/WhiteboardPanel.java:363-446 | after a press on a shape and some drag steps the selection is moved by the offset so far, with the totals kept for release |
| Editor.RubberBandGesture | src/main/java/com/geometriceditor/ui/WhiteboardPanel.java:363-479 | press on empty space, drag and release selects exactly the shapes the band crosses and changes nothing else |

## Left out

- Painting and rendering are not modelled: `draw`, `AWTRenderer`, `ShapeRenderer`, `SelectionDecorator` and `paintComponent`. They produce pixels only.
- The grid settings (`WhiteboardPanel.java:608-635`) are not modelled: they affect only painting.
- The context menu's "Reset Rotation Center" (`WhiteboardPanel.java:547-559`) is not modelled. It is menu wiring around `setRotationCenter`, which `Shapes.SetRotationCenter` covers.
- `setSelectedFillColor` and `setSelectedBorderColor` (`WhiteboardPanel.java:598-606`) are not modelled. They apply `setFillColor` and `setBorderColor` to each selected shape without a command, and those per-shape operations are `Motion.SetFillColor` and `Shapes.SetBorderColor`.
- Drag and drop from the toolbar and the panel's drop handler are not modelled: `ToolbarPanel`, `TransferableShape`, `TransferableShapeList` and `WhiteboardPanel.java:638-695`. They are Swing data-transfer plumbing.
- The key handler (`WhiteboardPanel.java:328-340`) is not modelled: it only tracks the ctrl key, which reaches `Editor.Press` as a parameter.
- Focus, repaint calls, `MainWindow`, `App` and `PropertyEditDialog` are not modelled: they are user-interface wiring.
- `saveToFile`, `loadFromFile` and `SerializationManager` are not modelled: they are file I/O and Java serialization. `StateManager.save` and `restore` are modelled.
- The `getInstance` singletons of `ShapeFactory` and `PropertyEditor` are not modelled: there is no global state.
- The debugging output of `RotateCommand` and the error message of `CommandManager.executeCommand` are not modelled: they are console printing.
- The ctrl branch at `WhiteboardPanel.java:387-393`, which sets rotation centres, is not modelled. It is unreachable, because the earlier `if (isCtrlPressed)` already catches every ctrl press.
- The null guards in `UngroupCommand` (lines 24 and 35) are not modelled: the group is never null when the panel builds the command.
- Listeners are not modelled as callbacks. The manager keeps the registered list and counts notifications; the status bar update they trigger is `Counts.CountAll`.
- A few places in the source do not compile as written, and the model reads them by their evident intent. `Shape` declares neither `accept` nor `getX`/`getY`, yet `BoundingBoxVisitor` and `RegularPolygon` call them: the model reads the getters as the position's coordinates and `accept` as dispatch on the shape's kind. `Rectangle` and `RegularPolygon` override a `draw` signature that `Shape` does not declare; drawing is not modelled. `StatusBarPanel.updateCounts` iterates over the panel, which is not `Iterable`: the model reads this as iteration over the panel's shape list. `StatusBarPanel.countShapesRecursive` (StatusBarPanel.java:83) iterates over a `ShapeGroup`, which is not `Iterable` either: `Counts.CountKids` reads this as iteration over the group's `getShapes()` list.
- Exceptions are not modelled as exceptions. A command that throws is the `None` argument of `History.Executed`, `History.Undone` and `History.Redone`. The modelled commands themselves never throw.
- Floating point is not modelled. Rotations are whole degrees, and the corner radius is a `real`. The polygon radius (`RegularPolygon.java:38-40`), polygon containment (`RegularPolygon.java:61-73`) and the boxes of rotated shapes (`BoundingBoxVisitor.java:27-41` and `56-76`) are the `Trig` parameter, because they go through `Math.sin`, `Math.cos` and `AffineTransform`.
- Bounds.BBox: the contract states the unrotated rectangle, the unrotated polygon and the empty group. A rotated shape's box is whatever `Trig` supplies.
- Shapes.Contains: the contract states rectangles and missing shapes. Polygon containment is `Trig`, and group containment is stated by `Shapes.ContainsAny`.
- Shapes.RectIntersects: the contract states only that a degenerate rectangle meets nothing. Symmetry is `Shapes.RectIntersectsSymmetric`.
- Coordinates, sizes and offsets are unbounded integers, so 32-bit overflow in `move`, in `x + width` and in drag totals is not modelled. `Point.hashCode` does wrap (`Shapes.PointHash`).
- Motion.MoveTranslatesWalk: stated only when the visited shapes' position objects are distinct. When shapes share a point, the point moves once per sharer, and `Motion.MoveShifts` states that general case.
- Motion.MoveKeepsAnchor: stated only when the visited shapes' position objects are distinct, for the same reason.
- Commands.TurnEach: every listed shape lands at its goal only when no listed shape lies in another listed shape's hierarchy. Otherwise a later `setRotation` on a group overrides an earlier one inside it, and only "nothing but rotations changes" is stated.
- Commands.ExecuteAll: its own contract states only one updated command per part. The in-order execution is stated by `Commands.ExecuteAllAppend` and `Commands.ExecuteAllLast`, because a postcondition that mentions `ExecuteAll` itself would unfold without bound at every use.
- Commands.UndoAll: its own contract states only one updated command per part. The reverse-order undo is stated by `Commands.UndoAllAppend` and `Commands.UndoAllLast`, for the same reason.
- CommandLaws.RotateToLands: requires separate hierarchies, for the same reason as `Commands.TurnEach`.
- CommandLaws.RotateByLands: requires separate hierarchies, for the same reason.
- CommandLaws.RotateRoundTrip: requires separate hierarchies, for the same reason.
- CommandLaws.RestoreOriginals: requires separate hierarchies, for the same reason.
- Editor.RotateSelectedIsAbsolute: requires separate hierarchies, for the same reason.
- Bounds.GroupBoxOrderFree: requires some child with a non-empty box, because unions of empty boxes depend on order (`Geometry.UnionOfAbsentDependsOnOrder`).
- Cloning.Clone: requires a well-formed document, meaning every referenced object exists and every child is older than its group. The same holds for `Cloning.CloneAll`, `Factory.CloneShape`, `Commands.NewDelete` and `Editor.Save`. Every object graph the editor builds satisfies this, and it rules out cyclic groups, which the editor cannot create.
- Describe.MoveDescription: the contract states the prefix and the empty case. The subject part of the text is stated by `Describe.DescriptionNamesSubject`, and the offsets by `Describe.DescriptionRecordsOffsets`.
- Editor.ShiftCentersLand: stated for a selection without repeats; with a repeated shape the source moves its centre twice, and the model promises only the frame stated by `Editor.ShiftCenters`.
- Editor.ShapeDragGesture: stated for a gesture that starts idle, with a press away from the rotation centre. The rotation-centre drag is stated by `Editor.ShiftCenters` and `Editor.ShiftCentersLand`. The same holds for the other gesture lemmas: `Editor.ShapeDragUndone`, `Editor.ShapeDragInPlace`, `Editor.PressThenDrag` and `Editor.RubberBandGesture`.
- Editor.GroupSelected: the contract states only that one step is recorded. The group's content is `Editor.GroupSelectedGroups`.
- Editor.UngroupSelected: the contract states only that one step is recorded. The effect of ungrouping one group is `Editor.UngroupOneSelected`.
