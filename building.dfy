/** The class ChristmasTree of Building.java: a triangle of Light objects,
    floor 0 at the bottom, and the undo stack of the moves that lit them. Its
    methods change the lights and the stack in place; each is proved to do
    what the matching function of TreeSpec does to the abstract value
    Model(). */
module Building {
  import opened Lights
  import opened TreeSpec

  /** The floors of a tree of totalFloors floors, every light new and off:
      the nested counting loops of the constructor and of reset. */
  method BuildFloors(totalFloors: int) returns (floors: seq<seq<Light>>)
    ensures |floors| == FloorCount(totalFloors)
    ensures forall f :: 0 <= f < |floors| ==> |floors[f]| == |floors| - f
    ensures forall f, p :: 0 <= f < |floors| && 0 <= p < |floors[f]| ==>
              fresh(floors[f][p]) && floors[f][p].IsOff()
              && floors[f][p].floor == f && floors[f][p].position == p
  {
    floors := [];
    var floorNumber := 0;
    while floorNumber < totalFloors
      invariant 0 <= floorNumber == |floors| <= FloorCount(totalFloors)
      invariant forall f :: 0 <= f < |floors| ==> |floors[f]| == totalFloors - f
      invariant forall f, p :: 0 <= f < |floors| && 0 <= p < |floors[f]| ==>
                  fresh(floors[f][p]) && floors[f][p].IsOff()
                  && floors[f][p].floor == f && floors[f][p].position == p
    {
      var roomsOnFloor := totalFloors - floorNumber;
      var floor: seq<Light> := [];
      var roomNumber := 0;
      while roomNumber < roomsOnFloor
        invariant 0 <= roomNumber == |floor| <= roomsOnFloor
        invariant forall p :: 0 <= p < |floor| ==>
                    fresh(floor[p]) && floor[p].IsOff()
                    && floor[p].floor == floorNumber && floor[p].position == p
        invariant forall f, p :: 0 <= f < |floors| && 0 <= p < |floors[f]| ==>
                    floors[f][p].IsOff()
      {
        var light := new Light(floorNumber, roomNumber);
        floor := floor + [light];
        roomNumber := roomNumber + 1;
      }
      floors := floors + [floor];
      floorNumber := floorNumber + 1;
    }
  }

  /** The set of the lights on the floors. */
  ghost function LightsOf(floors: seq<seq<Light>>): (lights: set<Light>)
    ensures forall f, p :: 0 <= f < |floors| && 0 <= p < |floors[f]| ==> floors[f][p] in lights
  {
    set f, p | 0 <= f < |floors| && 0 <= p < |floors[f]| :: floors[f][p]
  }

  class ChristmasTree {
    /** The lights, floor by floor. */
    var building: seq<seq<Light>>
    /** The undo stack; its top is the last element. */
    var history: seq<Move>

    /** Grid[f][p] is true when the light at position p of floor f is on. */
    ghost var Grid: seq<seq<bool>>
    /** The lights this tree owns. */
    ghost var Repr: set<Light>

    /** The object invariant: Repr is exactly the lights on the floors, the
        lights form a triangle, each light sits at the address it was created
        for (so no light appears twice), and Grid records which are on. */
    ghost predicate Valid()
      reads this, Repr
    {
      && Repr == LightsOf(building)
      && |building| == |Grid|
      && Triangular(Grid)
      && (forall f :: 0 <= f < |building| ==> |building[f]| == |Grid[f]|)
      && forall f, p :: 0 <= f < |building| && 0 <= p < |building[f]| ==>
           && building[f][p] in Repr
           && building[f][p].floor == f && building[f][p].position == p
           && Grid[f][p] == !building[f][p].isOff
    }

    /** The abstract value: the lit flags and the undo stack. */
    ghost function Model(): Tree
      reads this
    {
      Tree(Grid, history)
    }

    /** The undo invariant of TreeSpec.Consistent, on the current state. */
    ghost predicate HistoryConsistent()
      reads this
    {
      Consistent(Model())
    }

    /** Builds totalFloors floors, floor f with totalFloors - f lights, all
        off, and an empty history; the undo invariant holds from here. */
    constructor (totalFloors: int)
      ensures Valid() && fresh(Repr)
      ensures Model() == Init(totalFloors)
      ensures HistoryConsistent()
    {
      var floors := BuildFloors(totalFloors);
      building := floors;
      history := [];
      Grid := AllOff(totalFloors);
      Repr := LightsOf(floors);
      new;
      InitConsistent(totalFloors);
    }

    /** Read access to the lights: each reports its own address and is off
        exactly when Grid says it is not lit. */
    function GetBuilding(): (floors: seq<seq<Light>>)
      reads this, Repr
      requires Valid()
      ensures |floors| == |Grid|
      ensures forall f :: 0 <= f < |floors| ==> |floors[f]| == |Grid[f]|
      ensures forall f, p :: 0 <= f < |floors| && 0 <= p < |floors[f]| ==>
                floors[f][p].GetFloor() == f && floors[f][p].GetPosition() == p
                && floors[f][p].IsOff() == !Grid[f][p]
    {
      building
    }

    /** Turns on the light at (floor, position) and records the move; refuses,
        changing nothing, an address off the tree or a light already on. */
    method TurnOnLight(floor: int, position: int) returns (ok: bool)
      requires Valid()
      modifies Repr, this
      ensures Valid() && Repr == old(Repr) && building == old(building)
      ensures (Model(), ok) == TreeSpec.TurnOnLight(old(Model()), floor, position)
      ensures old(HistoryConsistent()) ==> HistoryConsistent()
    {
      ghost var before := Model();
      if floor < 0 || floor >= |building| {
        return false;
      }
      var selectedFloor := building[floor];
      if position < 0 || position >= |selectedFloor| {
        return false;
      }
      var light := selectedFloor[position];
      if !light.IsOff() {
        return false;
      }
      light.TurnOn();
      history := history + [Move(floor, position)];
      Grid := Update(Grid, Move(floor, position), true);
      ok := true;
      if Consistent(before) {
        TurnOnPreservesConsistent(before, floor, position);
      }
    }

    /** Pops the most recent move and turns that light off, without looking
        at whether it was on; false, changing nothing, on an empty history.
        The top entry must address a light of the tree: the undo invariant
        guarantees it, but a history kept across reset may not. */
    method UndoLastMove() returns (ok: bool)
      requires Valid()
      requires CanUndo(Model())
      modifies Repr, this
      ensures Valid() && Repr == old(Repr) && building == old(building)
      ensures (Model(), ok) == TreeSpec.UndoLastMove(old(Model()))
      ensures old(HistoryConsistent()) ==> HistoryConsistent()
    {
      ghost var before := Model();
      if |history| == 0 {
        return false;
      }
      var lastMove := history[|history| - 1];
      history := history[..|history| - 1];
      var floor := lastMove.floor;
      var position := lastMove.position;
      var light := building[floor][position];
      light.TurnOff();
      Grid := Update(Grid, lastMove, false);
      ok := true;
      if Consistent(before) {
        UndoPreservesConsistent(before);
      }
    }

    /** Whether every light below the top floor is on. */
    method IsAllOnExceptTop() returns (allOn: bool)
      requires Valid()
      ensures allOn == AllOnExceptTop(Grid)
    {
      var i := 0;
      while i < |building| - 1
        invariant 0 <= i && (i <= |building| - 1 || i == 0)
        invariant forall f, p :: 0 <= f < i && 0 <= p < |Grid[f]| ==> Grid[f][p]
      {
        var floor := building[i];
        var j := 0;
        while j < |floor|
          invariant 0 <= j <= |floor|
          invariant forall p :: 0 <= p < j ==> Grid[i][p]
        {
          if floor[j].IsOff() {
            return false;
          }
          j := j + 1;
        }
        i := i + 1;
      }
      return true;
    }

    /** Whether every light of the tree is on: the game is won. */
    method IsAllOn() returns (allOn: bool)
      requires Valid()
      ensures allOn == AllOn(Grid)
    {
      var i := 0;
      while i < |building|
        invariant 0 <= i <= |building|
        invariant forall f, p :: 0 <= f < i && 0 <= p < |Grid[f]| ==> Grid[f][p]
      {
        var floor := building[i];
        var j := 0;
        while j < |floor|
          invariant 0 <= j <= |floor|
          invariant forall p :: 0 <= p < j ==> Grid[i][p]
        {
          if floor[j].IsOff() {
            return false;
          }
          j := j + 1;
        }
        i := i + 1;
      }
      return true;
    }

    /** Replaces the lights by a fresh 8-floor tree, all off. The history is
        left as it was, so the undo invariant is not re-established. */
    method Reset()
      requires Valid()
      modifies this
      ensures Valid() && fresh(Repr)
      ensures Model() == TreeSpec.Reset(old(Model()))
    {
      var floors := BuildFloors(ResetFloors);
      building := floors;
      Grid := AllOff(ResetFloors);
      Repr := LightsOf(floors);
    }
  }
}
