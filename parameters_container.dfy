/** The column of parameter panels in the editor: an ordered list of named panels,
    each holding its own index as its position, and a map from effect name to the
    last position that name held. */
module Panels {
  import opened Ordering

  /** One parameter panel: the effect it belongs to, the position it records, and
      whether its controls are enabled. */
  datatype Panel = Panel(name: string, position: int, enabled: bool)

  /** The panel names, in list order. */
  function PanelNames(ps: seq<Panel>): (r: seq<string>)
    ensures |r| == |ps| && forall i :: 0 <= i < |ps| ==> r[i] == ps[i].name
  {
    seq(|ps|, i requires 0 <= i < |ps| => ps[i].name)
  }

  /** The panels with every position rewritten to the panel's index. */
  function Numbered(ps: seq<Panel>): (r: seq<Panel>)
    ensures |r| == |ps|
    ensures forall i :: 0 <= i < |ps| ==> r[i] == ps[i].(position := i)
    ensures PanelNames(r) == PanelNames(ps)
  {
    var r := seq(|ps|, i requires 0 <= i < |ps| => ps[i].(position := i));
    assert forall i :: 0 <= i < |ps| ==> PanelNames(r)[i] == PanelNames(ps)[i];
    r
  }

  /** `after` is `before` once every panel, in list order, has recorded its index
      in it: each panel's name maps to its index, and every key that names no
      panel is as it was. */
  ghost predicate RecordsIndices(after: map<string, int>, before: map<string, int>, ps: seq<Panel>) {
    (forall i :: 0 <= i < |ps| ==> ps[i].name in after && after[ps[i].name] == i) &&
    (forall n :: n !in PanelNames(ps) ==> (n in after <==> n in before) && (n in before ==> after[n] == before[n]))
  }

  /** Recording one more panel, at the end, extends the record. */
  lemma RecordsStep(after: map<string, int>, before: map<string, int>, ps: seq<Panel>, p: Panel)
    requires RecordsIndices(after, before, ps) && p.name !in PanelNames(ps)
    ensures RecordsIndices(after[p.name := |ps|], before, ps + [p])
  {
    var all := ps + [p];
    assert PanelNames(all) == PanelNames(ps) + [p.name];
    forall i | 0 <= i < |all| ensures all[i].name in after[p.name := |ps|] && after[p.name := |ps|][all[i].name] == i {
      if i < |ps| {
        assert all[i] == ps[i] && PanelNames(ps)[i] == ps[i].name;
      }
    }
  }

  /** `padding`, `componentHeight` and `componentSpacing` of the container. */
  const Padding: int := 20
  const ComponentHeight: int := 200
  const ComponentSpacing: int := 15

  class EffectParametersContainer {
    var components: seq<Panel>
    var effectPositions: map<string, int>

    /** No name twice, every panel's position is its index, and the map holds that
        index for every present name. */
    ghost predicate Valid()
      reads this
    {
      Distinct(PanelNames(components)) &&
      forall i :: 0 <= i < |components| ==>
        components[i].position == i &&
        components[i].name in effectPositions && effectPositions[components[i].name] == i
    }

    constructor()
      ensures Valid() && components == [] && effectPositions == map[]
    {
      components := [];
      effectPositions := map[];
    }

    /** `updatePositions`: each panel records its index, in the panel and in the
        name map. */
    method UpdatePositions()
      requires Distinct(PanelNames(components))
      modifies this
      ensures components == Numbered(old(components))
      ensures RecordsIndices(effectPositions, old(effectPositions), old(components))
      ensures Valid()
    {
      ghost var ps := components;
      var i := 0;
      assert PanelNames(ps[..0]) == [];
      while i < |components|
        invariant 0 <= i <= |components| == |ps|
        invariant forall k :: 0 <= k < i ==> components[k] == ps[k].(position := k)
        invariant forall k :: i <= k < |ps| ==> components[k] == ps[k]
        invariant RecordsIndices(effectPositions, old(effectPositions), ps[..i])
      {
        assert ps[..i + 1] == ps[..i] + [ps[i]];
        assert ps[i].name !in PanelNames(ps[..i]) by {
          forall k | 0 <= k < i ensures PanelNames(ps[..i])[k] != ps[i].name {
            assert PanelNames(ps)[k] != PanelNames(ps)[i];
          }
        }
        RecordsStep(effectPositions, old(effectPositions), ps[..i], ps[i]);
        components := components[i := components[i].(position := i)];
        effectPositions := effectPositions[components[i].name := i];
        i := i + 1;
      }
      assert ps[..i] == ps;
    }

    /** `findComponentIndex`: the first index whose panel has that name, or -1. */
    method FindComponentIndex(name: string) returns (r: int)
      ensures r == IndexOf(PanelNames(components), name)
      ensures -1 <= r < |components|
      ensures r >= 0 ==> components[r].name == name
      ensures r == -1 <==> forall i :: 0 <= i < |components| ==> components[i].name != name
    {
      var names := PanelNames(components);
      var i := 0;
      while i < |components|
        invariant 0 <= i <= |components|
        invariant name !in names[..i]
      {
        if components[i].name == name {
          IndexOfFirst(names, i, name);
          return i;
        }
        assert names[..i + 1] == names[..i] + [names[i]];
        i := i + 1;
      }
      assert names[..i] == names;
      return -1;
    }

    /** `addEffectParameters`: a name that already has a panel changes nothing;
        otherwise a new, enabled panel is appended and the positions renumbered. */
    method AddEffectParameters(name: string)
      requires Valid()
      modifies this
      ensures Valid()
      ensures name in PanelNames(old(components)) ==>
        components == old(components) && effectPositions == old(effectPositions)
      ensures name !in PanelNames(old(components)) ==>
        components == old(components) + [Panel(name, |old(components)|, true)] &&
        Assigned(effectPositions, old(effectPositions), name, |old(components)|)
      ensures name in PanelNames(components)
    {
      var index := FindComponentIndex(name);
      if index < 0 {
        var position := if name in effectPositions then effectPositions[name] else |components|;
        var ps := components + [Panel(name, position, true)];
        assert PanelNames(ps) == PanelNames(components) + [name];
        components := ps;
        effectPositions := effectPositions[name := position];
        UpdatePositions();
        NumberedAppend(old(components), Panel(name, position, true));
        AppendRecordsOne(effectPositions, old(effectPositions), name, position, old(components), Panel(name, position, true));
      }
    }

    /** `removeEffectParameters`: the named panel goes, the others keep their order
        and are renumbered, and the name keeps the index it had; an absent name
        changes nothing. */
    method RemoveEffectParameters(name: string)
      requires Valid()
      modifies this
      ensures Valid()
      ensures var index := IndexOf(PanelNames(old(components)), name);
        if index < 0 then
          components == old(components) && effectPositions == old(effectPositions)
        else
          components == Numbered(RemoveAt(old(components), index)) &&
          RecordsIndices(effectPositions, old(effectPositions)[name := index], RemoveAt(old(components), index))
      ensures name !in PanelNames(components)
      ensures name in PanelNames(old(components)) ==>
        name in effectPositions && effectPositions[name] == IndexOf(PanelNames(old(components)), name)
    {
      var index := FindComponentIndex(name);
      if index >= 0 {
        var position := components[index].position;
        var rest := RemoveAt(components, index);
        RemoveAtNames(components, index);
        components := rest;
        effectPositions := effectPositions[name := position];
        UpdatePositions();
      }
    }

    /** `reorderEffects`: with both indices in range and distinct, the panel at
        `oldPosition` moves to `newPosition`, the others keep their order, and all
        are renumbered; any other call changes nothing. */
    method ReorderEffects(oldPosition: int, newPosition: int)
      requires Valid()
      modifies this
      ensures Valid()
      ensures if 0 <= oldPosition < |old(components)| && 0 <= newPosition < |old(components)| &&
                oldPosition != newPosition
        then components == Numbered(Move(old(components), oldPosition, newPosition)) &&
          RecordsIndices(effectPositions, old(effectPositions), Move(old(components), oldPosition, newPosition))
        else components == old(components) && effectPositions == old(effectPositions)
    {
      if 0 <= oldPosition < |components| && 0 <= newPosition < |components| && oldPosition != newPosition {
        var moved := Move(components, oldPosition, newPosition);
        MovedNames(components, oldPosition, newPosition);
        components := moved;
        UpdatePositions();
      }
    }

    /** `setEffectEnabled`: the named panel's controls are switched on or off;
        nothing else changes. */
    method SetEffectEnabled(name: string, shouldBeEnabled: bool)
      requires Valid()
      modifies this`components
      ensures Valid()
      ensures var index := IndexOf(PanelNames(old(components)), name);
        if index < 0 then components == old(components)
        else components == old(components)[index := old(components)[index].(enabled := shouldBeEnabled)]
    {
      var index := FindComponentIndex(name);
      if index >= 0 {
        components := components[index := components[index].(enabled := shouldBeEnabled)];
        assert PanelNames(components) == PanelNames(old(components));
      }
    }

    /** `getMinimumHeight`: nothing for an empty column, otherwise both paddings,
        every panel and the gaps between them. */
    function GetMinimumHeight(): (h: int)
      reads this
      ensures components == [] ==> h == 0
      ensures components != [] ==> h == 215 * |components| + 25
      ensures |components| <= 1 ==> h <= 240
    {
      if components == [] then 0
      else Padding * 2 + |components| * ComponentHeight + (|components| - 1) * ComponentSpacing
    }
  }

  /** Renumbering panels that were numbered already only numbers the new last one. */
  lemma NumberedAppend(ps: seq<Panel>, p: Panel)
    requires forall i :: 0 <= i < |ps| ==> ps[i].position == i
    ensures Numbered(ps + [p]) == ps + [p.(position := |ps|)]
  {
    var r := Numbered(ps + [p]);
    assert forall i :: 0 <= i < |ps| ==> r[i] == ps[i];
  }

  /** `after` is `before` with `name` set to `v`, stated key by key. */
  ghost predicate Assigned(after: map<string, int>, before: map<string, int>, name: string, v: int) {
    name in after && after[name] == v &&
    forall n :: n != name ==> (n in after <==> n in before) && (n in before ==> after[n] == before[n])
  }

  /** Appending a panel whose name was new, to panels that had recorded their
      indices already, and recording again only sets the new name. */
  lemma AppendRecordsOne(after: map<string, int>, m: map<string, int>, name: string, position: int,
                         ps: seq<Panel>, p: Panel)
    requires p.name == name && name !in PanelNames(ps)
    requires forall i :: 0 <= i < |ps| ==> ps[i].name in m && m[ps[i].name] == i
    requires RecordsIndices(after, m[name := position], ps + [p])
    ensures Assigned(after, m, name, |ps|)
  {
    var all := ps + [p];
    assert all[|ps|] == p;
    assert PanelNames(all) == PanelNames(ps) + [name];
    forall n | n != name
      ensures (n in after <==> n in m) && (n in m ==> after[n] == m[n])
    {
      if n in PanelNames(ps) {
        AppendKeepsIndex(after, m, name, position, ps, p, n);
      }
    }
  }

  /** A name that had a panel before the append keeps the index it had recorded. */
  lemma AppendKeepsIndex(after: map<string, int>, m: map<string, int>, name: string, position: int,
                         ps: seq<Panel>, p: Panel, n: string)
    requires n in PanelNames(ps)
    requires forall i :: 0 <= i < |ps| ==> ps[i].name in m && m[ps[i].name] == i
    requires RecordsIndices(after, m[name := position], ps + [p])
    ensures n in after && n in m && after[n] == m[n]
  {
    var i :| 0 <= i < |ps| && PanelNames(ps)[i] == n;
    assert (ps + [p])[i] == ps[i];
  }

  /** Removing a panel removes its name and leaves the other names distinct. */
  lemma RemoveAtNames(ps: seq<Panel>, index: nat)
    requires index < |ps| && Distinct(PanelNames(ps))
    ensures PanelNames(RemoveAt(ps, index)) == RemoveAt(PanelNames(ps), index)
    ensures Distinct(PanelNames(RemoveAt(ps, index)))
    ensures ps[index].name !in PanelNames(RemoveAt(ps, index))
  {
    var r := RemoveAt(ps, index);
    var names := PanelNames(ps);
    forall a, b | 0 <= a < b < |r| ensures r[a].name != r[b].name {
      var ia := if a < index then a else a + 1;
      var ib := if b < index then b else b + 1;
      assert names[ia] != names[ib];
    }
    forall k | 0 <= k < |r| ensures r[k].name != ps[index].name {
      var ik := if k < index then k else k + 1;
      assert names[ik] != names[index];
    }
  }

  /** Moving a panel moves its name the same way and keeps the names distinct. */
  lemma MovedNames(ps: seq<Panel>, from: nat, to: nat)
    requires from < |ps| && to < |ps| && Distinct(PanelNames(ps))
    ensures PanelNames(Move(ps, from, to)) == Move(PanelNames(ps), from, to)
    ensures Distinct(PanelNames(Move(ps, from, to)))
  {
    var m := Move(ps, from, to);
    var names := PanelNames(ps);
    var rest := RemoveAt(ps, from);
    assert PanelNames(rest) == RemoveAt(names, from);
    assert PanelNames(m) == PanelNames(rest)[..to] + [names[from]] + PanelNames(rest)[to..];
    MoveProperties(names, from, to);
    PermutationOfDistinct(Move(names, from, to), names);
  }
}
