/**
 * The ordered transition registry of an animatable object and the routing
 * decision made on every property change: skip animation-priority writes,
 * skip a null registry, otherwise pick the first entry for the changed property.
 */
module TransitionRegistry {
  import opened Wrappers

  /** Identity of a property; Avalonia's `Animatable` compares it with `==` and nothing else. */
  type Property(==)

  /** A property value (a C# `object` in Avalonia's `Animatable`); the router passes it on untouched. */
  type Value

  /** Duration, easing and whatever else a concrete transition carries; opaque to the router. */
  type TransitionSettings(==)

  /** A registry entry: the property it animates and its own parameters. */
  datatype Transition = Transition(property: Property, settings: TransitionSettings)

  /** Where a property change comes from; only `Animation` is distinguished by the router. */
  datatype BindingPriority = Animation | LocalValue | StyleTrigger | TemplatedParent | Style | Unset

  /** The arguments of one property-change notification. */
  datatype PropertyChange = PropertyChange(
    property: Property,
    oldValue: Value,
    newValue: Value,
    priority: BindingPriority)

  /**
   * Index of the first entry of `ts` that animates `p`, or None when no entry
   * does: the linear scan behind `FirstOrDefault(x => x.Property == p)`.
   * That the index is the least one, and that None means no entry matches,
   * are the lemmas FirstMatchLeast, FirstMatchExists and FirstMatchNone.
   */
  function FirstMatch(ts: seq<Transition>, p: Property): (r: Option<nat>)
    ensures r.Some? ==> r.value < |ts| && ts[r.value].property == p
  {
    if ts == [] then None
    else if ts[0].property == p then Some(0)
    else
      match FirstMatch(ts[1..], p)
      case None => None
      case Some(i) => Some(i + 1)
  }

  /** No entry before the match animates `p`. */
  lemma {:induction false} FirstMatchLeast(ts: seq<Transition>, p: Property)
    ensures FirstMatch(ts, p).Some? ==> forall j :: 0 <= j < FirstMatch(ts, p).value ==> ts[j].property != p
  {
    if ts != [] && ts[0].property != p {
      FirstMatchLeast(ts[1..], p);
      assert forall j :: 1 <= j < |ts| ==> ts[j] == ts[1..][j - 1];
    }
  }

  /** An entry animating `p` guarantees a match, at that entry or before it. */
  lemma {:induction false} FirstMatchExists(ts: seq<Transition>, p: Property, k: nat)
    requires k < |ts| && ts[k].property == p
    ensures FirstMatch(ts, p).Some? && FirstMatch(ts, p).value <= k
  {
    if ts[0].property != p {
      FirstMatchExists(ts[1..], p, k - 1);
    }
  }

  /** The lookup finds nothing exactly when no entry animates `p`. */
  lemma {:induction false} FirstMatchNone(ts: seq<Transition>, p: Property)
    ensures FirstMatch(ts, p).None? <==> forall j :: 0 <= j < |ts| ==> ts[j].property != p
  {
    if j :| 0 <= j < |ts| && ts[j].property == p {
      FirstMatchExists(ts, p, j);
    }
  }

  /** The entry `FirstOrDefault` returns: the first one animating `p`, or None. */
  function FirstOrDefault(ts: seq<Transition>, p: Property): (r: Option<Transition>)
    ensures r.None? <==> forall t :: t in ts ==> t.property != p
    ensures r.Some? ==> r.value in ts && r.value.property == p
  {
    FirstMatchNone(ts, p);
    match FirstMatch(ts, p)
    case None => None
    case Some(i) => Some(ts[i])
  }

  /** Every entry animating `p`, in registry order: a reference definition of the match. */
  function Where(ts: seq<Transition>, p: Property): (r: seq<Transition>)
    ensures |r| <= |ts|
    ensures forall t :: t in r ==> t in ts && t.property == p
    ensures forall t :: t in ts && t.property == p ==> t in r
  {
    if ts == [] then []
    else if ts[0].property == p then [ts[0]] + Where(ts[1..], p)
    else Where(ts[1..], p)
  }

  /** The first-match lookup agrees with "keep the matching entries, take the head". */
  lemma {:induction false} FirstOrDefaultIsHeadOfWhere(ts: seq<Transition>, p: Property)
    ensures FirstOrDefault(ts, p) == if Where(ts, p) == [] then None else Some(Where(ts, p)[0])
  {
    if ts != [] && ts[0].property != p {
      FirstOrDefaultIsHeadOfWhere(ts[1..], p);
    }
  }

  /**
   * Appending entries to the registry never changes a match that already
   * exists; it only supplies one, shifted past the old entries, when none did.
   */
  lemma {:induction false} FirstMatchAppend(ts: seq<Transition>, us: seq<Transition>, p: Property)
    ensures FirstMatch(ts + us, p) == Appended(FirstMatch(ts, p), FirstMatch(us, p), |ts|)
  {
    if ts == [] {
      assert ts + us == us;
    } else if ts[0].property != p {
      assert (ts + us)[0] == ts[0] && (ts + us)[1..] == ts[1..] + us;
      FirstMatchAppend(ts[1..], us, p);
      var m := FirstMatch(ts[1..], p);
      assert FirstMatch(ts, p) == if m.Some? then Some(m.value + 1) else None;
      var n := FirstMatch(ts[1..] + us, p);
      assert FirstMatch(ts + us, p) == if n.Some? then Some(n.value + 1) else None;
    } else {
      assert (ts + us)[0] == ts[0];
    }
  }

  /** The match in `ts + us`, given the match `m` in `ts`, the match `n` in `us` and `len == |ts|`. */
  function Appended(m: Option<nat>, n: Option<nat>, len: nat): Option<nat> {
    match m
    case Some(_) => m
    case None =>
      match n
      case Some(k) => Some(len + k)
      case None => None
  }

  /** A match index as it reads once the entry at `j` is gone. */
  function Shifted(m: Option<nat>, j: nat): Option<nat> {
    match m
    case Some(k) => Some(if k <= j then k else k - 1)
    case None => None
  }

  /** The match in an entry followed by `rest`, from the match in `rest`. */
  lemma FirstMatchCons(t: Transition, rest: seq<Transition>, p: Property)
    ensures FirstMatch([t] + rest, p) ==
      if t.property == p then Some(0) else Appended(None, FirstMatch(rest, p), 1)
  {
    assert ([t] + rest)[0] == t && ([t] + rest)[1..] == rest;
  }

  /**
   * Removing an entry other than the matched one keeps the match, one place
   * earlier when the removed entry stood before it.
   */
  lemma {:induction false} RemoveUnmatched(ts: seq<Transition>, j: nat, p: Property)
    requires j < |ts| && FirstMatch(ts, p) != Some(j)
    ensures FirstMatch(ts[..j] + ts[j + 1..], p) == Shifted(FirstMatch(ts, p), j)
  {
    var t, tail := ts[0], ts[1..];
    assert ts == [t] + tail;
    FirstMatchCons(t, tail, p);
    if j == 0 {
      assert ts[..j] + ts[j + 1..] == tail;
    } else {
      var rest := tail[..j - 1] + tail[j..];
      assert tail[..j - 1] == ts[1..j] && tail[j..] == ts[j + 1..];
      assert ts[..j] == [t] + ts[1..j];
      assert ts[..j] + ts[j + 1..] == [t] + rest;
      FirstMatchCons(t, rest, p);
      if t.property != p {
        RemoveUnmatched(tail, j - 1, p);
        var m := FirstMatch(tail, p);
        assert FirstMatch([t] + rest, p) == Appended(None, Shifted(m, j - 1), 1);
        assert FirstMatch(ts, p) == Appended(None, m, 1);
      }
    }
  }

  /** Where the match lands once entry `j`, a repeat of an earlier entry's property, is removed. */
  lemma DeadDuplicateIndex(ts: seq<Transition>, i: nat, j: nat, p: Property)
    requires i < j < |ts| && ts[i].property == ts[j].property
    ensures FirstMatch(ts, p) != Some(j)
    ensures FirstMatch(ts[..j] + ts[j + 1..], p) == Shifted(FirstMatch(ts, p), j)
  {
    FirstMatchLeast(ts, p);
    RemoveUnmatched(ts, j, p);
  }

  /**
   * An entry that repeats the property of an earlier entry is dead: removing
   * it changes which transition is chosen for no property at all.
   */
  lemma DeadDuplicateRemovable(ts: seq<Transition>, i: nat, j: nat, p: Property)
    requires i < j < |ts| && ts[i].property == ts[j].property
    ensures FirstOrDefault(ts[..j] + ts[j + 1..], p) == FirstOrDefault(ts, p)
  {
    DeadDuplicateIndex(ts, i, j, p);
    var us := ts[..j] + ts[j + 1..];
    var m := FirstMatch(ts, p);
    if m.Some? {
      var k := m.value;
      if k < j {
        assert us[k] == ts[k];
      } else {
        assert us[k - 1] == ts[k];
      }
    }
  }

  /**
   * The router's decision for one change: the index of the entry whose `Apply`
   * is called, or None when nothing is applied.
   */
  function Dispatch(e: PropertyChange, registry: Option<seq<Transition>>): (r: Option<nat>)
    ensures e.priority == Animation ==> r == None
    ensures registry == None ==> r == None
    ensures r.Some? <==>
      e.priority != Animation && registry.Some? &&
      exists i :: 0 <= i < |registry.value| && registry.value[i].property == e.property
    ensures r.Some? ==>
      r.value < |registry.value| && registry.value[r.value].property == e.property &&
      forall j :: 0 <= j < r.value ==> registry.value[j].property != e.property
  {
    if e.priority != Animation && registry.Some? then
      var ts := registry.value;
      FirstMatchLeast(ts, e.property);
      FirstMatchNone(ts, e.property);
      FirstMatch(ts, e.property)
    else None
  }

  /** Of two entries for the same property, the later one is never applied, whatever the change. */
  lemma LaterDuplicateNeverApplied(ts: seq<Transition>, i: nat, j: nat, e: PropertyChange)
    requires i < j < |ts| && ts[i].property == ts[j].property
    ensures Dispatch(e, Some(ts)) != Some(j)
  {
  }
}
