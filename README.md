# Animatable: routing property changes to transitions

This project models the core of Avalonia's `Animatable` base class
(`src/Avalonia.Animation/Animatable.cs`). It is the small router that turns a
property change on a control into a transition:

- Every object carries a `Transitions` registry, an ordered sequence of
  transitions that may be null.
- Every object also carries an `AnimationPlayState`, either `Running` or
  `Paused`.
- On every property change, `OnPropertyChanged` does the following:
  - It ignores writes made at `Animation` priority. These are the writes a
    running transition makes itself, so they must not start new transitions.
  - It ignores the change when the registry is null.
  - Otherwise it takes the first registry entry whose `Property` is the
    changed property and calls that entry's `Apply(this, oldValue, newValue)`.

The project has three modules:

- `Wrappers` holds `Option`. `None` stands for C#'s `null`.
- `TransitionRegistry` is pure. It holds these parts:
  - the opaque types `Property`, `Value` and `TransitionSettings`;
  - the `Transition`, `BindingPriority` and `PropertyChange` datatypes;
  - `FirstMatch`, the first-match lookup behind `FirstOrDefault`, together
    with a reference definition (`Where`) and lemmas about it;
  - `Dispatch`, the router's whole decision for one change.
- `Animation` holds the `AnimationPlayState` enum and the `Animatable` class.
  - The class fields are `transitions`, `playState` and `applied`.
  - `applied` is a log of the `Apply` calls made. It stands in for the effects
    of those calls.
  - The C# getters of `Transitions` and `AnimationPlayState` are modelled as
    reads of the `transitions` and `playState` fields.

Property identities are compared with `==` at `Animatable.cs:89`. Here they
are an opaque type compared only with `==`.

Two facts about the code shape the model:

- The setter at `Animatable.cs:76` stores null as given and does not
  normalise it. The router at line 87 treats a null registry as "apply
  nothing". `SetTransitions` stores `None` as it is.
- No line of `Animatable.cs` reads the play state. So `OnPropertyChanged`
  routes a `Paused` object exactly like a `Running` one: its postcondition
  depends on `transitions` and the change only.

## Model

| member | source | states |
|---|---|---|
| TransitionRegistry.FirstMatch | src/Avalonia.Animation/Animatable.cs:89 | a returned index lies inside the registry and names an entry whose property is the changed property |
| TransitionRegistry.FirstMatchLeast | src/Avalonia.Animation/Animatable.cs:89 | no entry before the returned index is for the property: the scan returns the first match |
| TransitionRegistry.FirstMatchExists | src/Avalonia.Animation/Animatable.cs:89 | whenever some entry is for the property, the lookup finds a match at or before that entry |
| TransitionRegistry.FirstMatchNone | src/Avalonia.Animation/Animatable.cs:89-91 | the lookup yields nothing (FirstOrDefault's null) exactly when no entry is for the property |
| TransitionRegistry.FirstOrDefault | src/Avalonia.Animation/Animatable.cs:89-91 | the lookup yields an entry of the registry for the property, and yields null (None) exactly when no entry is for it |
| TransitionRegistry.Where | src/Avalonia.Animation/Animatable.cs:89 | the filtered sequence holds exactly the registry entries for the property, and is no longer than the registry |
| TransitionRegistry.FirstOrDefaultIsHeadOfWhere | src/Avalonia.Animation/Animatable.cs:89 | the first-match lookup equals the head of the filtered entries, and is null exactly when the filter is empty |
| TransitionRegistry.FirstMatchAppend | src/Avalonia.Animation/Animatable.cs:89 | appending entries to the registry keeps an existing match unchanged; with no earlier match, the result is the appended part's match offset by the old length |
| TransitionRegistry.RemoveUnmatched | src/Avalonia.Animation/Animatable.cs:89 | removing any entry other than the matched one keeps the same match, one index earlier if the removed entry preceded it |
| TransitionRegistry.DeadDuplicateIndex | src/Avalonia.Animation/Animatable.cs:89-93 | an entry that repeats an earlier entry's property is never the match, and removing it only shifts the match index |
| TransitionRegistry.DeadDuplicateRemovable | src/Avalonia.Animation/Animatable.cs:89-93 | removing a later duplicate leaves the transition chosen for every property unchanged |
| TransitionRegistry.Dispatch | src/Avalonia.Animation/Animatable.cs:87-93 | an Animation-priority change or a null registry selects nothing; otherwise an entry is selected exactly when some entry is for the changed property, and it is the first such entry |
| TransitionRegistry.LaterDuplicateNeverApplied | src/Avalonia.Animation/Animatable.cs:89-93 | of two entries for the same property, the later one is never selected, whatever the change |
| Animation.Animatable.constructor | src/Avalonia.Animation/Animatable.cs:38-41 | a new object has a non-null, empty registry, play state Running and no Apply calls |
| Animation.Animatable.SetTransitions | src/Avalonia.Animation/Animatable.cs:73-77 | reading the registry after setting it gives the value just set, null included; play state unchanged; Apply log unchanged in the model, which does not route the setter's own change |
| Animation.Animatable.SetAnimationPlayState | src/Avalonia.Animation/Animatable.cs:53-57 | reading the play state after setting it gives the value just set; registry unchanged; Apply log unchanged in the model, which does not route the setter's own change |
| Animation.Animatable.OnPropertyChanged | src/Avalonia.Animation/Animatable.cs:85-96 | registry and play state are never modified; at most one Apply call is appended, none for an Animation-priority change, a null registry or no matching entry; otherwise exactly one call on the first matching entry with this object and the change's old and new values; the outcome does not depend on the play state |

## Left out

- SetTransitions: in Avalonia, `SetAndRaise` at line 76 raises a change of
  `TransitionsProperty`, which reaches `OnPropertyChanged` and scans the new
  registry for an entry on that property. The model's setter does not route
  its own change, so its "Apply log unchanged" postcondition holds of the
  model only.
- SetAnimationPlayState: in Avalonia, `SetValue` at line 56 raises a change of
  `AnimationPlayStateProperty` at LocalValue priority, which reaches
  `OnPropertyChanged` and would apply an entry on that property. The model's
  setter does not route its own change, so its "Apply log unchanged"
  postcondition holds of the model only.
- Property storage (`GetValue`/`SetValue`), value-priority resolution and the
  change notification raised by `SetAndRaise` (lines 55-56 and 76) belong to
  the external `AvaloniaObject` property system. The setters are modelled as
  plain field writes, and no notification is modelled.
- Static property registration (`AvaloniaProperty.Register` and
  `RegisterDirect`, lines 46-47 and 62-66) is global registry plumbing.
  Properties are opaque identities.
- The effects of `ITransition.Apply` are outside this class and are not
  modelled: interpolation, easing, clocks, observables, and cancelling or
  superseding a running transition. Each call is recorded in `applied`
  instead.
- The concrete registry collection types (`AvaloniaList`,
  `Transitions.Transitions`) and their collection-change events are not
  modelled. The registry is a value sequence that `SetTransitions` replaces
  as a whole. An edit made to the list in place shows up here as a new
  sequence.
- Null entries inside a non-null registry are not modelled. In the C# class,
  `x.Property` at line 89 would throw on such an entry. Entries here are
  values.
- `BindingPriority` is declared outside this file. Its members are given by
  their Avalonia names, and only `Animation` affects routing.
- The other arguments that the property system passes with a change (the
  sender) are left out. The router uses only the property, the old and new
  values, and the priority.
