/** One light of the tree (Light.java): a mutable on/off flag and a fixed
    (floor, position) address. */
module Lights {

  class Light {
    /** True while the light is off; the only state that ever changes. */
    var isOff: bool
    /** The floor and position the light was created for; never reassigned. */
    const floor: int
    const position: int

    /** A new light is off and reports the address it was created with. */
    constructor (floor: int, position: int)
      ensures IsOff()
      ensures GetFloor() == floor && GetPosition() == position
    {
      this.isOff := true;
      this.floor := floor;
      this.position := position;
    }

    function IsOff(): bool
      reads this
    {
      isOff
    }

    /** Switches the light on, whatever it was before; so a second call
        leaves the same state as the first. */
    method TurnOn()
      modifies this
      ensures !IsOff()
    {
      isOff := false;
    }

    /** Switches the light off, whatever it was before; so a second call
        leaves the same state as the first. */
    method TurnOff()
      modifies this
      ensures IsOff()
    {
      isOff := true;
    }

    function GetFloor(): int
    {
      floor
    }

    function GetPosition(): int
    {
      position
    }
  }
}
