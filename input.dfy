/** The input gate (Assets/Scripts/InputManager.cs): one flag that taps consult. */
module Input {
  class InputManager {
    var inputBlocked: bool

    /** Input starts unblocked. */
    constructor()
      ensures !inputBlocked
    {
      inputBlocked := false;
    }

    /** `IsInputBlocked`: a read of the flag. */
    function IsInputBlocked(): (blocked: bool)
      reads this
      ensures blocked <==> inputBlocked
    {
      inputBlocked
    }

    /** `BlockInput(block)`: the last call wins, so repeating it changes nothing. */
    method BlockInput(block: bool)
      modifies this
      ensures IsInputBlocked() == block
    {
      inputBlocked := block;
    }
  }
}
