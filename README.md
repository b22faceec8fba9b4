# Christmas Tree Light-On: the rule engine

This project models the rule engine of the two-player "Christmas Tree
Light-On" game. The rules live in the class `ChristmasTree` (Building.java)
and in the `Light` cells it is made of (Light.java). The tree is a triangle of
lights. Floor 0 is the bottom floor. A tree of `n` floors has `n - f` lights on
floor `f`, so the top floor has one light. A player turns lights on with
`turnOnLight`. Each successful move is pushed on a history stack, and
`undoLastMove` pops the last move and turns that light off again.
`isAllOnExceptTop` says whether every light below the top floor is on; the GUI
uses it to decide whether the top light may be lit. `isAllOn` is the win
condition. `reset` rebuilds an 8-floor tree with every light off.

The project has three modules:

- `Lights` (light.dfy): the class `Light`, a mutable `isOff` flag and two
  constant fields `floor` and `position`.
- `TreeSpec` (tree_spec.dfy): the tree as a value. `lit[f][p]` says whether
  the light at position `p` of floor `f` is on, and `history` is the undo
  stack, top last. Every operation of the class is a function here. The
  lemmas state what the game relies on: the undo invariant, undo reversing
  turnOnLight, the relation between the two win predicates, and what reset
  does.
- `Building` (building.dfy): the class `ChristmasTree`. Its real fields are
  `building: seq<seq<Light>>` and `history: seq<Move>`. It has a ghost `Grid`
  of lit flags, tied to the lights by `Valid()`, and a ghost `Repr` holding
  the lights it owns. Each method is proved to act on `Model() = Tree(Grid,
  history)` exactly as the matching `TreeSpec` function does. The lights stay
  objects. Two cells never share a light, because `Valid()` says the light at
  `[f][p]` has `floor == f` and `position == p`.

Where the code and its comments disagree, the model follows the code:

- `reset` does not clear the history (Building.java:126-137), although the
  game's restart action calls it (LightPyramidGUI.java:204). The model keeps the history across
  `Reset`. `ResetIsFreshTree` shows that the undo invariant then holds after
  reset only when the history was empty. `ResetLeavesStaleEntry` shows a
  history entry that points off the new tree: light the top of a 9-floor tree,
  then reset.
- The doc comments of `undoLastMove`, `isAllOnExceptTop`, `isAllOn`, `reset`,
  `Light.turnOn` and `Light.turnOff` describe other behaviour than their
  bodies. The model follows the bodies.

`undoLastMove` faults at Building.java:84 when the top entry of the history
addresses no light. The model therefore requires `CanUndo`: the top entry, if
there is one, is in range. The undo invariant `Consistent` implies it
(`UndoPreservesConsistent`). `Consistent` says that history entries are in
range, pairwise distinct, and are exactly the lit cells. The constructor
establishes it, turnOnLight and undoLastMove keep it, and reset does not.

## Model

| member | source | states |
|---|---|---|
| `Lights.Light.constructor` | Light.java:19-23 | a new light is off and reports the floor and position it was created with |
| `Lights.Light.TurnOn` | Light.java:37-39 | afterwards the light is on, whatever it was before, so a second call changes nothing; `floor` and `position` are constants and cannot change |
| `Lights.Light.TurnOff` | Light.java:44-46 | afterwards the light is off, whatever it was before, so a second call changes nothing; `floor` and `position` cannot change |
| `TreeSpec.AllOff` | Building.java:28-35 | the fresh grid has `max(n, 0)` floors, floor `f` has `n - f` lights, and every light is off |
| `TreeSpec.TurnOnLight` | Building.java:54-69 | succeeds iff the address is on the tree and that light is off; on failure the tree is unchanged; on success exactly that light turns on, the shape is kept, and the move is pushed on the history |
| `TreeSpec.UndoLastMove` | Building.java:77-87 | succeeds iff the history is non-empty; on failure nothing changes; on success the top entry is popped, exactly that light is off afterwards, and every other light keeps its state |
| `TreeSpec.Step` | Building.java:54-87 | one turnOnLight or undoLastMove keeps the undo invariant and the shape of the tree |
| `TreeSpec.Run` | Building.java:54-87 | any sequence of turnOnLight and undoLastMove from a consistent tree keeps the undo invariant and the shape |
| `TreeSpec.UndoTimes` | Building.java:77-87 | k calls of undoLastMove drop exactly the top k history entries and keep the shape |
| `TreeSpec.InitConsistent` | Building.java:25-36 | the freshly built tree satisfies the undo invariant |
| `TreeSpec.SecondTurnOnFails` | Building.java:62-65 | after a successful turnOnLight, a second call on the same light returns false and changes nothing |
| `TreeSpec.FreshLightTurnsOn` | Building.java:54-69 | on a freshly built tree, turnOnLight succeeds exactly for the addresses on the triangle |
| `TreeSpec.TurnOnPreservesConsistent` | Building.java:54-69 | turnOnLight keeps history entries in range, lit, pairwise distinct and equal to the set of lit cells |
| `TreeSpec.UndoPreservesConsistent` | Building.java:77-87 | on a consistent tree undoLastMove cannot fault and keeps the undo invariant |
| `TreeSpec.TurnOnThenUndo` | Building.java:54-87 | undoing a successful turnOnLight restores the original grid and history and returns true |
| `TreeSpec.UndoReversesTurnOns` | Building.java:54-87 | after k successful turnOnLight calls the k moves sit on top of the history in order, and k undos restore the starting tree |
| `TreeSpec.TurnOnKeepsShape` | Building.java:54-69 | a sequence of turnOnLight calls never changes the number of floors or of lights per floor |
| `TreeSpec.TurnOnEachPushes` | Building.java:54-69 | successful turnOnLight calls push their moves on the history in order, and each pushed move addresses a light of the tree |
| `TreeSpec.ReachableConsistent` | Building.java:25-87 | every state reached from construction by turnOnLight and undoLastMove satisfies the undo invariant, so undoLastMove never faults there |
| `TreeSpec.UndoAllThenNothing` | Building.java:25-87 | after any sequence of successful turnOnLight calls on a fresh tree, undoing them all gives back the fresh tree, and undo on the fresh tree returns false |
| `TreeSpec.AllOnIffExceptTopAndApex` | Building.java:95-121 | on a non-empty triangle, isAllOn holds iff isAllOnExceptTop holds and the single top light is on |
| `TreeSpec.AllOnImpliesAllOnExceptTop` | Building.java:95-121 | isAllOn implies isAllOnExceptTop |
| `TreeSpec.ResetIsFreshTree` | Building.java:126-137 | after reset the grid is the fresh 8-floor grid, the history is unchanged, and the undo invariant holds iff the history was empty |
| `TreeSpec.ResetLeavesStaleEntry` | Building.java:126-137 | lighting the top of a 9-floor tree and resetting leaves a history entry that addresses no light of the new tree |
| `TreeSpec.LightFloor0` | Building.java:54-69 | on a fresh 3-floor tree, lighting (0,0), (0,1), (0,2) succeeds and leaves exactly floor 0 lit |
| `TreeSpec.LightFloor1` | Building.java:54-69 | with floor 0 lit, lighting (1,0), (1,1) succeeds and leaves exactly floors 0 and 1 lit |
| `TreeSpec.LightApex` | Building.java:54-69 | with floors 0 and 1 lit, lighting (2,0) succeeds and lights everything |
| `TreeSpec.ThreeFloorScenario` | Building.java:54-121 | in that walk-through, isAllOnExceptTop is false after floor 0, true after floor 1 while isAllOn is false, and isAllOn is true after the top light |
| `TreeSpec.TopLightNotGated` | Building.java:54-69 | turnOnLight lights the top of a fresh 3-floor tree although the floors below are off; the gating is the caller's job |
| `Building.BuildFloors` | Building.java:28-35 | the nested counting loops build `max(n, 0)` floors, floor `f` holding `n - f` new lights, each off and carrying floor `f` and position `p` |
| `Building.ChristmasTree.constructor` | Building.java:25-36 | the new tree is valid, its value is the fresh tree (all off, empty history), and the undo invariant holds |
| `Building.ChristmasTree.GetBuilding` | Building.java:43-45 | the returned floors have the tree's shape, each light reports its own floor and position, and it is off exactly when the grid says it is not lit |
| `Building.ChristmasTree.TurnOnLight` | Building.java:54-69 | changes the tree exactly as `TreeSpec.TurnOnLight`, returns its success flag, owns the same lights, and keeps the undo invariant |
| `Building.ChristmasTree.UndoLastMove` | Building.java:77-87 | given an in-range top entry, changes the tree exactly as `TreeSpec.UndoLastMove`, returns its flag, and keeps the undo invariant |
| `Building.ChristmasTree.IsAllOnExceptTop` | Building.java:95-104 | returns true iff every light below the top floor is on |
| `Building.ChristmasTree.IsAllOn` | Building.java:112-121 | returns true iff every light of the tree is on |
| `Building.ChristmasTree.Reset` | Building.java:126-137 | the tree becomes the fresh 8-floor tree, all off, with new lights, and the history is left as it was |

The getters `Light.IsOff`, `Light.GetFloor` and `Light.GetPosition`
(Light.java:30-32, 53-64) are plain reads of the fields. They carry no
contract of their own, and the contracts above use them.

## Left out

- LightPyramidGUI.java and Main.java: the Swing window, button styling, dialogs, console output and event wiring. The per-turn bookkeeping of the GUI (selected floor, selected buttons, current player, the top-light gating at confirm time) is presentation-level and is not part of this model.
- Aliasing through `getBuilding()`: it returns the live lists. Callers could mutate them, but the model treats the result as read access only.
- Building.ChristmasTree.UndoLastMove: the fault path is not modelled. In the source an out-of-range top entry is popped and then `building.get` throws. The model requires `CanUndo` instead of modelling that exception.
- Java's 32-bit `int` is not modelled. Floor and position are unbounded integers. With a floor count large enough to overflow, the source would run out of memory long before.
- Building.ChristmasTree.Reset: the method does not state the undo invariant afterwards, because the source does not keep it (see `TreeSpec.ResetIsFreshTree`).
