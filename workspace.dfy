/** The editor's workspace: it owns the column of parameter panels and remembers,
    per effect name, the slot the effect's panel should come back to when it is
    shown again. */
module Workspace {
  import opened Ordering
  import opened Panels

  /** The column `names` after `name`, new to it, is appended and then moved to its
      remembered slot `p`: it lands at `p` when `p` is a slot of the grown column and
      last otherwise; the other names keep their order. */
  function Reinserted(names: seq<string>, name: string, p: int): (r: seq<string>)
    ensures |r| == |names| + 1
    ensures 0 <= p <= |names| ==> r[p] == name && RemoveAt(r, p) == names
    ensures !(0 <= p <= |names|) ==> r == names + [name]
  {
    if 0 <= p <= |names| then names[..p] + [name] + names[p..] else names + [name]
  }

  /** The column `names` after `updateEffectPosition` asked for `name` to sit at `p`:
      a present name at another index moves there when `p` is a slot of the column. */
  function Settled(names: seq<string>, name: string, p: int): (r: seq<string>)
    ensures |r| == |names|
  {
    var cur := IndexOf(names, name);
    if 0 <= cur && cur != p && 0 <= p < |names| then Move(names, cur, p) else names
  }

  /** Settling rearranges the column without losing or adding a name, and a shown
      name asked to sit at a slot of the column ends up there. */
  lemma SettledPlaces(names: seq<string>, name: string, p: int)
    ensures multiset(Settled(names, name, p)) == multiset(names)
    ensures name in names && 0 <= p < |names| ==> Settled(names, name, p)[p] == name
  {
    var cur := IndexOf(names, name);
    if 0 <= cur && cur != p && 0 <= p < |names| {
      MoveProperties(names, cur, p);
    }
  }

  /** Every remembered slot of a name with a panel is refreshed to that panel's
      index; the slots of the other names, and the set of names, stay. */
  ghost predicate Resynced(after: map<string, int>, before: map<string, int>, names: seq<string>) {
    after.Keys == before.Keys &&
    forall n :: n in before ==> after[n] == if n in names then IndexOf(names, n) else before[n]
  }

  class WorkspaceComponent {
    const container: EffectParametersContainer
    var effectPositions: map<string, int>

    /** The column is consistent and every effect shown in it has a remembered slot. */
    ghost predicate Valid()
      reads this, container
    {
      container.Valid() &&
      forall n :: n in PanelNames(container.components) ==> n in effectPositions
    }

    /** The names shown in the column, top to bottom. */
    ghost function Shown(): seq<string>
      reads this, container
    {
      PanelNames(container.components)
    }

    constructor()
      ensures Valid() && fresh(container)
      ensures container.components == [] && effectPositions == map[]
    {
      container := new EffectParametersContainer();
      effectPositions := map[];
    }

    /** `getEffectPosition`: the index of the effect's panel in the column, or -1. */
    method GetEffectPosition(name: string) returns (r: int)
      ensures r == IndexOf(Shown(), name)
      ensures r >= 0 ==> r < |container.components| && container.components[r].name == name
    {
      r := container.FindComponentIndex(name);
    }

    /** `updateEffectPosition`: the slot is remembered, and a panel of that name
        standing elsewhere is moved to it when it is a slot of the column. */
    method UpdateEffectPosition(name: string, newPosition: int)
      requires container.Valid()
      requires forall n :: n in Shown() && n != name ==> n in effectPositions
      modifies this, container
      ensures Valid()
      ensures effectPositions == old(effectPositions)[name := newPosition]
      ensures Shown() == Settled(old(Shown()), name, newPosition)
      ensures name in old(Shown()) && 0 <= newPosition < |old(Shown())| ==> Shown()[newPosition] == name
    {
      effectPositions := effectPositions[name := newPosition];
      ghost var names := Shown();
      var currentPosition := GetEffectPosition(name);
      if currentPosition >= 0 && currentPosition != newPosition {
        if 0 <= newPosition < |container.components| {
          MovedNames(container.components, currentPosition, newPosition);
        }
        container.ReorderEffects(currentPosition, newPosition);
      }
      SettledPlaces(names, name, newPosition);
      SettledNamesKeepSlots(names, Shown(), old(effectPositions), name, newPosition);
    }

    /** `addEffectParameters`: the effect's panel is shown, at the slot remembered for
        it, or, for a name never seen, at the slot counted by the names remembered so
        far; that slot is remembered. An effect already shown is only moved to it. */
    method AddEffectParameters(name: string)
      requires Valid()
      modifies this, container
      ensures Valid()
      ensures var position := if name in old(effectPositions) then old(effectPositions)[name]
                              else |old(effectPositions)|;
        effectPositions == old(effectPositions)[name := position] &&
        Shown() == if name in old(Shown()) then Settled(old(Shown()), name, position)
                   else Reinserted(old(Shown()), name, position)
      ensures name in Shown()
    {
      var position := if name in effectPositions then effectPositions[name] else |effectPositions|;
      ghost var names := Shown();
      container.AddEffectParameters(name);
      assert name !in names ==> Shown() == names + [name];
      UpdateEffectPosition(name, position);
      if name !in names {
        AppendThenSettle(names, name, position);
      }
    }

    /** `removeEffectParameters`: the slot the panel held is remembered, and the panel
        leaves the column; the others keep their order. An absent name changes
        nothing. */
    method RemoveEffectParameters(name: string)
      requires Valid()
      modifies this, container
      ensures Valid()
      ensures var index := IndexOf(old(Shown()), name);
        if index < 0 then
          effectPositions == old(effectPositions) && Shown() == old(Shown())
        else
          effectPositions == old(effectPositions)[name := index] &&
          Shown() == RemoveAt(old(Shown()), index)
      ensures name !in Shown()
    {
      var position := GetEffectPosition(name);
      if position >= 0 {
        effectPositions := effectPositions[name := position];
        RemoveAtNames(container.components, position);
      }
      container.RemoveEffectParameters(name);
      assert forall i :: 0 <= i < |container.components| ==> container.components[i].name in Shown();
    }

    /** `setEffectEnabled`: the panel's controls are switched; disabling also
        remembers the slot the panel holds. The column's order does not change. */
    method SetEffectEnabled(name: string, shouldBeEnabled: bool)
      requires Valid()
      modifies this, container
      ensures Valid()
      ensures var index := IndexOf(old(Shown()), name);
        container.components ==
          (if index < 0 then old(container.components)
           else old(container.components)[index := old(container.components)[index].(enabled := shouldBeEnabled)]) &&
        effectPositions == if !shouldBeEnabled && index >= 0 then old(effectPositions)[name := index]
                           else old(effectPositions)
      ensures Shown() == old(Shown())
    {
      container.SetEffectEnabled(name, shouldBeEnabled);
      assert Shown() == old(Shown());
      if !shouldBeEnabled {
        var position := GetEffectPosition(name);
        if position >= 0 {
          effectPositions := effectPositions[name := position];
        }
      }
    }

    /** `reorderEffects`: the column's reorder, after which every remembered slot of
        a shown effect is refreshed to where its panel now stands. */
    method ReorderEffects(oldPosition: int, newPosition: int)
      requires Valid()
      modifies this, container
      ensures Valid()
      ensures Shown() ==
        if 0 <= oldPosition < |old(Shown())| && 0 <= newPosition < |old(Shown())| && oldPosition != newPosition
        then Move(old(Shown()), oldPosition, newPosition)
        else old(Shown())
      ensures Resynced(effectPositions, old(effectPositions), Shown())
      ensures forall i :: 0 <= i < |Shown()| ==> effectPositions[Shown()[i]] == i
    {
      ghost var before := Shown();
      if 0 <= oldPosition < |container.components| && 0 <= newPosition < |container.components| &&
         oldPosition != newPosition {
        MovedNames(container.components, oldPosition, newPosition);
        MoveProperties(before, oldPosition, newPosition);
      }
      container.ReorderEffects(oldPosition, newPosition);
      assert multiset(Shown()) == multiset(before);
      PermutedNamesKeepSlots(before, Shown(), effectPositions);
      RefreshPositions();
    }

    /** The loop of `reorderEffects` over the remembered names: each one that has a
        panel takes that panel's index. */
    method RefreshPositions()
      requires container.Valid()
      modifies this
      ensures Resynced(effectPositions, old(effectPositions), Shown())
      ensures forall i :: 0 <= i < |Shown()| ==> Shown()[i] in effectPositions ==> effectPositions[Shown()[i]] == i
    {
      ghost var names := Shown();
      ghost var start := effectPositions;
      var keys := effectPositions.Keys;
      while keys != {}
        invariant keys <= start.Keys && effectPositions.Keys == start.Keys
        invariant forall n :: n in start ==>
          effectPositions[n] == if n in keys || n !in names then start[n] else IndexOf(names, n)
        decreases |keys|
      {
        var k :| k in keys;
        var currentPosition := GetEffectPosition(k);
        if currentPosition >= 0 {
          effectPositions := effectPositions[k := currentPosition];
        }
        keys := keys - {k};
      }
      forall i | 0 <= i < |names| && names[i] in effectPositions ensures effectPositions[names[i]] == i {
        IndexOfDistinct(names, i);
      }
    }
  }

  /** Rearranging the column keeps every shown name's slot remembered. */
  lemma PermutedNamesKeepSlots(before: seq<string>, after: seq<string>, slots: map<string, int>)
    requires multiset(after) == multiset(before)
    requires forall n :: n in before ==> n in slots
    ensures forall n :: n in after ==> n in slots
  {
    forall n | n in after ensures n in slots {
      assert n in multiset(after);
    }
  }

  /** Rearranging the column after remembering a slot for `name` keeps every shown
      name's slot remembered. */
  lemma SettledNamesKeepSlots(before: seq<string>, after: seq<string>, slots: map<string, int>, name: string, p: int)
    requires multiset(after) == multiset(before)
    requires forall n :: n in before && n != name ==> n in slots
    ensures forall n :: n in after ==> n in slots[name := p]
  {
    PermutedNamesKeepSlots(before, after, slots[name := p]);
  }

  /** Appending a new name and then settling it at `p` is reinserting it at `p`. */
  lemma AppendThenSettle(names: seq<string>, name: string, p: int)
    requires name !in names
    ensures Settled(names + [name], name, p) == Reinserted(names, name, p)
  {
    var all := names + [name];
    IndexOfFirst(all, |names|, name);
    assert all[..|names|] == names;
    if 0 <= p < |names| {
      assert RemoveAt(all, |names|) == names;
      assert Settled(all, name, p) == Move(all, |names|, p);
    } else {
      assert Settled(all, name, p) == all;
    }
  }

  /** Round trip: removing a shown effect remembers its index, and showing it again
      puts it back there, so the column is as it was. */
  lemma ReAddRestoresOrder(names: seq<string>, i: nat)
    requires i < |names|
    ensures Reinserted(RemoveAt(names, i), names[i], i) == names
  {
    var r := Reinserted(RemoveAt(names, i), names[i], i);
    forall k | 0 <= k < |names| ensures r[k] == names[k] {
    }
  }
}
