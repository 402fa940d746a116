/** One space of the board (a point of the star or its centre): what it holds
    and whether the player to move may select it. */
module Space {
  import opened Common

  class MuTorereSpace {
    /** 0 when empty, 1 or 2 when that player's counter sits here. */
    var state: int
    /** Whether the counter here can be chosen in the current turn. */
    var isAvailable: bool

    ghost predicate Valid()
      reads this
    {
      IsState(state)
    }

    /** Initialisation of a space whose state has already been checked;
        callers that may pass any integer use Create. */
    constructor (state: int := 0, isAvailable: bool := false)
      requires IsState(state)
      ensures Valid()
      ensures this.state == state && this.isAvailable == isAvailable
    {
      this.state := state;
      this.isAvailable := isAvailable;
    }

    /** The checked constructor: a state outside {0, 1, 2} raises ValueError
        and no space is made; otherwise the space stores both arguments. */
    static method Create(state: int := 0, isAvailable: bool := false) returns (r: Result<MuTorereSpace>)
      ensures r.Failure? <==> !IsState(state)
      ensures r.Success? ==> fresh(r.value) && r.value.Valid()
      ensures r.Success? ==> r.value.state == state && r.value.isAvailable == isAvailable
    {
      if !IsState(state) {
        return Failure(ValueError);
      }
      var space := new MuTorereSpace(state, isAvailable);
      r := Success(space);
    }

    /** Sets the state when it is one of 0, 1, 2; otherwise raises ValueError
        and keeps the old state. Availability is never touched. */
    method Update(state: int) returns (outcome: Outcome)
      modifies this
      ensures outcome.Pass? <==> IsState(state)
      ensures this.state == if IsState(state) then state else old(this.state)
      ensures isAvailable == old(isAvailable)
      ensures old(Valid()) ==> Valid()
    {
      if IsState(state) {
        this.state := state;
        outcome := Pass;
      } else {
        outcome := Fail(ValueError);
      }
    }

    /** Sets the availability flag and nothing else. */
    method UpdateAvailability(isAvailable: bool)
      modifies this
      ensures this.isAvailable == isAvailable
      ensures state == old(state)
    {
      this.isAvailable := isAvailable;
    }
  }
}
