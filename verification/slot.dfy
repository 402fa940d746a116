/** A variant of a board space, unused by the board, that also carries an
    identifier. */
module Slot {
  import opened Common

  /** The identifier range the constructor accepts: 0 to 9 inclusive, one
      more than the nine slots of a board. */
  predicate IsSlotId(id: int) {
    0 <= id < 10
  }

  class MuTorereSlot {
    /** Identifier of the slot; fixed once the slot is made. */
    const id: int
    /** 0 when empty, 1 or 2 when that player's counter sits here. */
    var state: int
    /** Whether the counter here can be chosen in the current turn. */
    var isAvailable: bool

    ghost predicate Valid()
      reads this
    {
      IsState(state) && IsSlotId(id)
    }

    /** Initialisation of a slot whose arguments have already been checked;
        callers that may pass any integers use Create. */
    constructor (id: int, state: int := 0, isAvailable: bool := false)
      requires IsState(state) && IsSlotId(id)
      ensures Valid()
      ensures this.id == id && this.state == state && this.isAvailable == isAvailable
    {
      this.id := id;
      this.state := state;
      this.isAvailable := isAvailable;
    }

    /** The checked constructor: a state outside {0, 1, 2} or an identifier
        outside 0..9 raises ValueError; otherwise the slot stores all three
        arguments. */
    static method Create(id: int, state: int := 0, isAvailable: bool := false) returns (r: Result<MuTorereSlot>)
      ensures r.Failure? <==> !IsState(state) || !IsSlotId(id)
      ensures r.Success? ==> fresh(r.value) && r.value.Valid()
      ensures r.Success? ==> r.value.id == id && r.value.state == state && r.value.isAvailable == isAvailable
    {
      if !IsState(state) {
        return Failure(ValueError);
      }
      if !IsSlotId(id) {
        return Failure(ValueError);
      }
      var slot := new MuTorereSlot(id, state, isAvailable);
      r := Success(slot);
    }

    /** Sets the state when it is one of 0, 1, 2; otherwise raises ValueError
        and keeps the old state. */
    method Update(state: int) returns (outcome: Outcome)
      modifies this
      ensures outcome.Pass? <==> IsState(state)
      ensures this.state == if IsState(state) then state else old(this.state)
      ensures isAvailable == old(isAvailable)
      ensures old(Valid()) ==> Valid()
    {
      if IsState(state) {
        this.state := state;
        outcome := Pass;
      } else {
        outcome := Fail(ValueError);
      }
    }

    /** Sets the availability flag and nothing else. */
    method UpdateAvailability(isAvailable: bool)
      modifies this
      ensures this.isAvailable == isAvailable
      ensures state == old(state)
    {
      this.isAvailable := isAvailable;
    }
  }
}
