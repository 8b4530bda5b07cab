/** The base class of objects whose property changes can be turned into transitions. */
module Animation {
  import opened Wrappers
  import opened TransitionRegistry

  /** Whether the object's animations run; stored, never read by the router. */
  datatype AnimationPlayState = Running | Paused

  /** One call `transition.Apply(target, oldValue, newValue)`, and the registry index it came from. */
  datatype ApplyCall = ApplyCall(
    index: nat,
    transition: Transition,
    target: Animatable,
    oldValue: Value,
    newValue: Value)

  class Animatable {
    /** The `Transitions` property; None stands for a null registry. */
    var transitions: Option<seq<Transition>>
    /** The `AnimationPlayState` property. */
    var playState: AnimationPlayState
    /** Every `Apply` call made so far, oldest first, in place of the calls' effects. */
    var applied: seq<ApplyCall>

    /** A new object starts with an empty, non-null registry and the default play state. */
    constructor ()
      ensures transitions == Some([])
      ensures playState == Running
      ensures applied == []
    {
      transitions := Some([]);
      playState := Running;
      applied := [];
    }

    /** Replaces the whole registry; null is stored as given, not normalised. */
    method SetTransitions(value: Option<seq<Transition>>)
      modifies this`transitions
      ensures transitions == value
      ensures playState == old(playState) && applied == old(applied)
    {
      transitions := value;
    }

    method SetAnimationPlayState(value: AnimationPlayState)
      modifies this`playState
      ensures playState == value
      ensures transitions == old(transitions) && applied == old(applied)
    {
      playState := value;
    }

    /**
     * Routes one property change: unless it comes from an animation or the
     * registry is null, the first entry for the changed property is applied
     * to this object with the change's old and new values.
     */
    method OnPropertyChanged(e: PropertyChange)
      modifies this`applied
      ensures transitions == old(transitions) && playState == old(playState)
      ensures e.priority == Animation || transitions == None ==> applied == old(applied)
      ensures |old(applied)| <= |applied| <= |old(applied)| + 1
      ensures applied[..|old(applied)|] == old(applied)
      ensures
        match Dispatch(e, transitions)
        case None => applied == old(applied)
        case Some(i) =>
          applied == old(applied) + [ApplyCall(i, transitions.value[i], this, e.oldValue, e.newValue)]
    {
      if e.priority != Animation && transitions.Some? {
        var ts := transitions.value;
        var found := FirstMatch(ts, e.property);
        if found.Some? {
          applied := applied + [ApplyCall(found.value, ts[found.value], this, e.oldValue, e.newValue)];
        }
      }
    }
  }
}
