/** The state context every handler keeps: registered states and the active one. */
module StateContext {

  import opened Options

  class StateContext<S(==)> {
    /** The value that the state object registered under a key reports as its state. */
    var states: map<S, S>
    var current: Option<S>

    /** A state is active and every registered object reports the key it is registered under. */
    ghost predicate Active()
      reads this
    {
      current.Some? && current.value in states && forall s :: s in states ==> states[s] == s
    }

    constructor ()
      ensures current == None && states == map[]
    {
      current, states := None, map[];
    }

    /** `std::map::insert`: a key that is already registered keeps its object. */
    method AddState(key: S, object_state: S)
      modifies this
      ensures states == if key in old(states) then old(states) else old(states)[key := object_state]
      ensures current == old(current)
    {
      if key !in states {
        states := states[key := object_state];
      }
    }

    method GetActiveState() returns (s: S)
      requires current.Some?
      ensures s == current.value
    {
      s := current.value;
    }

    /** A transition to a state that was never registered leaves the active state as it is. */
    method TransitionTo(key: S)
      modifies this
      ensures states == old(states)
      ensures current == if key in states then Some(states[key]) else old(current)
      ensures old(Active()) ==> Active() && current.value == if key in states then key else old(current).value
    {
      if key in states {
        current := Some(states[key]);
      }
    }
  }
}
