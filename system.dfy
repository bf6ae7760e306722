/** The qubit register of src/system/mod.rs: a `Vec<Qubit>` that only
    grows, one fresh |0⟩ qubit per `allocate`. */
module Registers {
  import opened Qubits

  /** `System { state }`, with `allocate` pushing onto `state` in place. */
  class System {
    var state: seq<Qubit>

    /** Every slot holds a well-formed qubit. */
    predicate Valid()
      reads this
    {
      forall i :: 0 <= i < |state| ==> WellFormed(state[i])
    }

    /** `System::new`: a register with no qubits. */
    constructor ()
      ensures state == [] && Valid()
    {
      state := [];
    }

    /** `allocate`: pushes `Qubit::new()` and hands back the slot it now
        occupies. That slot is the last one, so the `expect` on
        `last_mut()` never fires. */
    method Allocate() returns (slot: nat)
      requires Valid()
      modifies this
      ensures Valid()
      ensures state == old(state) + [NewQubit()]
      ensures slot == |old(state)| && slot == |state| - 1
      ensures state[slot] == NewQubit()
    {
      state := state + [NewQubit()];
      slot := |state| - 1;
    }
  }
}
