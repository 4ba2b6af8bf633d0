/** The effect rack: an ordered list of hosted processors, the processing graph
    they sit in, and the lifecycle flags that decide when the graph is rewired.
    The graph is represented by the ids of the effect nodes it holds, whether its
    input and output nodes exist, and the connections it holds; whether it
    accepts a connection is the `accepts` oracle (see `RackModel.Admit`). */
module Effects {
  import opened Ordering
  import opened RackModel
  import opened RackState

  /** The processor handed to `addEffect`: its class and the name it reports.
      `None` stands for a null pointer. */
  datatype Processor = Processor(kind: EffectKind, name: string)

  /** The entries with their node ids replaced by fresh ones from `first` on: what
      the rollback of a failed restore leaves when it adds the old processors back
      to the cleared graph. */
  function Reminted(s: seq<EffectNode>, first: nat): (r: seq<EffectNode>)
    ensures |r| == |s|
    ensures forall i :: 0 <= i < |s| ==> r[i] == s[i].(node := first + i)
  {
    seq(|s|, i requires 0 <= i < |s| => s[i].(node := first + i))
  }

  /** The node ids `first`, ..., `first + n - 1`. */
  function NodeRange(first: nat, n: nat): (r: set<nat>)
    ensures forall k: nat :: k in r <==> first <= k < first + n
  {
    if n == 0 then {} else NodeRange(first, n - 1) + {first + n - 1}
  }

  /** Adding the next id to a range of ids extends the range by one. */
  lemma NodeRangeGrows(base: set<nat>, first: nat, n: nat)
    ensures base + NodeRange(first, n) + {first + n} == base + NodeRange(first, n + 1)
  {
  }

  lemma InstantiateAppend(rs: seq<Restored>, x: Restored, first: nat)
    ensures Instantiate(rs + [x], first) ==
      Instantiate(rs, first) + [EffectNode(first + |rs|, x.kind, x.name, x.isActive, x.position, false)]
  {
  }

  /** The entries restored from the first `i` children, with node ids from `first`
      on, one child at a time. */
  ghost function RestoredUpTo(children: seq<ChildRecord>, i: nat, first: nat): (r: seq<EffectNode>)
    requires i <= |children|
    decreases i
  {
    if i == 0 then []
    else
      var before := RestoredUpTo(children, i - 1, first);
      match Keep(children[i - 1], i - 1)
      case Some(x) => before + [EffectNode(first + |before|, x.kind, x.name, x.isActive, x.position, false)]
      case None => before
  }

  /** Restoring child by child gives the restored entries of the whole prefix. */
  lemma {:induction false} RestoredUpToInstantiates(children: seq<ChildRecord>, i: nat, first: nat)
    requires i <= |children|
    ensures RestoredUpTo(children, i, first) == Instantiate(RestoreList(children[..i]), first)
    decreases i
  {
    if i > 0 {
      RestoredUpToInstantiates(children, i - 1, first);
      var prefix := children[..i];
      assert prefix[..i - 1] == children[..i - 1];
      var rs := RestoreList(children[..i - 1]);
      assert RestoreList(prefix) == rs + (match Keep(children[i - 1], i - 1) case Some(x) => [x] case None => []);
      match Keep(children[i - 1], i - 1)
      case Some(x) => InstantiateAppend(rs, x, first);
      case None =>
    }
  }

  /** Moving an entry keeps every entry's node id below `bound` and unflagged. */
  lemma MovedStayLive(es: seq<EffectNode>, from: nat, to: nat, bound: nat)
    requires from < |es| && to < |es|
    requires forall i :: 0 <= i < |es| ==> es[i].node < bound && !es[i].isBeingDeleted
    ensures var moved := Move(es, from, to);
      |moved| == |es| &&
      forall i :: 0 <= i < |moved| ==> moved[i].node < bound && !moved[i].isBeingDeleted
  {
    MoveProperties(es, from, to);
    var moved := Move(es, from, to);
    forall i | 0 <= i < |moved| ensures moved[i].node < bound && !moved[i].isBeingDeleted {
      assert moved[i] in multiset(es);
    }
  }

  /** The data parsed, and its root is tagged "EFFECTRACK". */
  predicate Tagged(blob: Option<StateTree>) {
    blob.Some? && blob.value.tag == RackTag
  }

  /** The entries restored from `children`, with node ids from `first` on, can be
      wired in a graph that holds exactly their nodes. */
  ghost predicate RestoreWires(accepts: Oracle, children: seq<ChildRecord>, first: nat) {
    var restored := Instantiate(RestoreList(children), first);
    Rebuilt(Admit(true, NodeRange(first, |restored|), accepts), restored).ok
  }

  class EffectRack {
    /** The routing layer's verdict on a connection between two nodes of the graph. */
    const accepts: Oracle
    var effects: seq<EffectNode>
    /** Ids of the effect nodes the graph holds. */
    var graphNodes: set<nat>
    /** The graph's input and output nodes exist. */
    var hasEndpoints: bool
    var connections: seq<Connection>
    /** The id the graph gives to the next node it adds. */
    var nextNode: nat
    var isPrepared: bool
    var graphUpdatePending: bool
    var sampleRate: real
    var blockSize: int

    /** Between calls the endpoints exist, every entry's node id was handed out by
        the graph, and no stored entry is flagged as being deleted. */
    ghost predicate Valid()
      reads this
    {
      hasEndpoints &&
      forall i :: 0 <= i < |effects| ==> effects[i].node < nextNode && !effects[i].isBeingDeleted
    }

    /** Which connections the graph accepts in its present state. */
    function Acceptance(): Oracle
      reads this
    {
      Admit(hasEndpoints, graphNodes, accepts)
    }

    /** The graph after `connectNodes`, starting from the effect nodes `nodes`: the
        rebuilt signal path when the rebuild succeeds, otherwise the basic graph,
        which holds no effect node at all. */
    ghost predicate Rewired(nodes: set<nat>)
      reads this
    {
      var r := Rebuilt(Admit(true, nodes, accepts), effects);
      if r.ok then connections == r.added && graphNodes == nodes
      else connections == AcceptedChannels(accepts, Input, Output, Channels) && graphNodes == {}
    }

    constructor (accepts: Oracle)
      ensures this.accepts == accepts && Valid()
      ensures effects == [] && graphNodes == {}
      ensures connections == AcceptedChannels(accepts, Input, Output, Channels)
      ensures !isPrepared && !graphUpdatePending
      ensures sampleRate == DefaultSampleRate && blockSize == DefaultBlockSize
    {
      this.accepts := accepts;
      effects := [];
      graphNodes := {};
      hasEndpoints := false;
      connections := [];
      nextNode := 0;
      isPrepared := false;
      graphUpdatePending := false;
      sampleRate := DefaultSampleRate;
      blockSize := DefaultBlockSize;
      new;
      CreateBasicGraph();
    }

    /** `createBasicGraph`: clear the graph (every node and connection, the
        effects' nodes included), add the endpoints and connect input to output on
        both channels, keeping whichever connections the graph accepts. */
    method CreateBasicGraph()
      modifies this`graphNodes, this`hasEndpoints, this`connections
      ensures graphNodes == {} && hasEndpoints
      ensures connections == AcceptedChannels(accepts, Input, Output, Channels)
    {
      graphNodes := {};
      hasEndpoints := true;
      connections := [];
      var channel := 0;
      while channel < Channels
        invariant 0 <= channel <= Channels
        invariant graphNodes == {} && hasEndpoints
        invariant connections == AcceptedChannels(accepts, Input, Output, channel)
      {
        if Acceptance()(Input, Output, channel) {
          connections := connections + [Connection(Input, Output, channel)];
        }
        channel := channel + 1;
      }
    }

    /** The channel loop of `rebuildConnections`: connect `from` to `to` channel
        by channel, stopping at the first connection the graph rejects. */
    method ConnectChannels(from: Node, to: Node) returns (ok: bool)
      modifies this`connections
      ensures var a := LinkChannels(Acceptance(), from, to, Channels);
        ok == a.ok && connections == old(connections) + a.added
    {
      ghost var added: seq<Connection> := [];
      ok := true;
      var channel := 0;
      while channel < Channels && ok
        invariant 0 <= channel <= Channels
        invariant connections == old(connections) + added
        invariant Attempt(added, ok) == LinkChannels(Acceptance(), from, to, channel)
      {
        if Acceptance()(from, to, channel) {
          connections := connections + [Connection(from, to, channel)];
          added := added + [Connection(from, to, channel)];
        } else {
          ok := false;
        }
        channel := channel + 1;
      }
      if !ok {
        LinkFailureSticks(Acceptance(), from, to, channel, Channels);
      }
    }

    /** `rebuildConnections`: without endpoints it fails and changes nothing;
        otherwise it rewires the graph as `Rebuilt` says and reports whether no
        connection was rejected. */
    method RebuildConnections() returns (ok: bool)
      modifies this`connections
      ensures !hasEndpoints ==> !ok && connections == old(connections)
      ensures hasEndpoints ==>
        ok == Rebuilt(Acceptance(), effects).ok && connections == Rebuilt(Acceptance(), effects).added
    {
      if !hasEndpoints {
        return false;
      }
      connections := [];
      var previous := Input;
      var failed := false;
      ghost var chain: seq<Node> := [];
      var i := 0;
      while i < |effects|
        invariant 0 <= i <= |effects|
        invariant Walk(connections, chain, previous, failed) == WalkEffects(Acceptance(), effects[..i])
      {
        var e := effects[i];
        if e.isActive {
          var linked := ConnectChannels(previous, Unit(e.node));
          if linked {
            previous := Unit(e.node);
            chain := chain + [Unit(e.node)];
          } else {
            failed := true;
          }
        }
        assert effects[..i + 1][..i] == effects[..i];
        i := i + 1;
      }
      assert effects[..i] == effects;
      var linked := ConnectChannels(previous, Output);
      if !linked {
        failed := true;
      }
      ok := !failed;
    }

    /** `connectNodes`: rebuild, and fall back to the basic graph when that fails. */
    method ConnectNodes()
      requires Valid()
      modifies this`connections, this`graphNodes, this`hasEndpoints
      ensures Valid() && Rewired(old(graphNodes))
    {
      var ok := RebuildConnections();
      if !ok {
        CreateBasicGraph();
      }
    }

    /** `updateGraph`: nothing happens before the rack is prepared; afterwards the
        graph is rewired as `connectNodes` does. */
    method UpdateGraph()
      requires Valid()
      modifies this`connections, this`graphNodes, this`hasEndpoints
      ensures Valid()
      ensures !isPrepared ==> connections == old(connections) && graphNodes == old(graphNodes)
      ensures isPrepared ==> Rewired(old(graphNodes))
    {
      if !isPrepared {
        return;
      }
      ConnectNodes();
    }

    /** `prepareToPlay` as written: the graph is updated before the rack is marked
        prepared, so coming from the unprepared state the update does nothing. */
    method PrepareToPlayAsWritten(rate: real, samplesPerBlock: int)
      requires Valid()
      modifies this`sampleRate, this`blockSize, this`isPrepared, this`connections, this`graphNodes, this`hasEndpoints
      ensures Valid() && isPrepared && sampleRate == rate && blockSize == samplesPerBlock
      ensures !old(isPrepared) ==> connections == old(connections) && graphNodes == old(graphNodes)
      ensures old(isPrepared) ==> Rewired(old(graphNodes))
    {
      sampleRate := rate;
      blockSize := samplesPerBlock;
      UpdateGraph();
      isPrepared := true;
    }

    /** `prepareToPlay` with the rack marked prepared first: the graph is always
        rewired. */
    method PrepareToPlay(rate: real, samplesPerBlock: int)
      requires Valid()
      modifies this`sampleRate, this`blockSize, this`isPrepared, this`connections, this`graphNodes, this`hasEndpoints
      ensures Valid() && isPrepared && sampleRate == rate && blockSize == samplesPerBlock
      ensures Rewired(old(graphNodes))
    {
      sampleRate := rate;
      blockSize := samplesPerBlock;
      isPrepared := true;
      UpdateGraph();
    }

    /** `releaseResources`: the rack is no longer prepared. */
    method ReleaseResources()
      modifies this`isPrepared
      ensures !isPrepared
    {
      isPrepared := false;
    }

    /** The flag handling of `processBlock`: an unprepared rack does nothing; a
        prepared one with an update pending rebuilds (ignoring the result) and
        clears the flag. */
    method ProcessBlock()
      modifies this`connections, this`graphUpdatePending
      ensures !isPrepared || !old(graphUpdatePending) ==>
        connections == old(connections) && graphUpdatePending == old(graphUpdatePending)
      ensures isPrepared && old(graphUpdatePending) && hasEndpoints ==>
        !graphUpdatePending && connections == Rebuilt(Acceptance(), effects).added
    {
      if !isPrepared {
        return;
      }
      if graphUpdatePending {
        var _ := RebuildConnections();
        graphUpdatePending := false;
      }
    }

    /** `updateGraphConnections`: a pending update is carried out whether or not
        the rack is prepared. */
    method UpdateGraphConnections()
      modifies this`connections, this`graphUpdatePending
      ensures !old(graphUpdatePending) ==> connections == old(connections) && !graphUpdatePending
      ensures old(graphUpdatePending) && hasEndpoints ==>
        !graphUpdatePending && connections == Rebuilt(Acceptance(), effects).added
    {
      if graphUpdatePending {
        var _ := RebuildConnections();
        graphUpdatePending := false;
      }
    }

    /** The renumbering loop: each entry's position becomes its index. */
    method Renumber()
      requires Valid()
      modifies this`effects
      ensures Valid() && effects == Renumbered(old(effects))
    {
      var i := 0;
      while i < |effects|
        invariant 0 <= i <= |effects| == |old(effects)|
        invariant forall k :: 0 <= k < i ==> effects[k] == old(effects)[k].(position := k)
        invariant forall k :: i <= k < |effects| ==> effects[k] == old(effects)[k]
      {
        effects := effects[i := effects[i].(position := i)];
        i := i + 1;
      }
    }

    /** `updateEffectOrder`: sort by position, then renumber. */
    method UpdateEffectOrder()
      requires Valid()
      modifies this`effects
      ensures Valid() && effects == Ordered(old(effects))
    {
      var sorted := SortByKey(effects, Position);
      forall i | 0 <= i < |sorted| ensures sorted[i].node < nextNode && !sorted[i].isBeingDeleted {
        assert sorted[i] in multiset(effects);
      }
      effects := sorted;
      Renumber();
    }

    /** `addEffect`: a processor is added to the graph as a new node and appended
        to the list as an active entry at the end, the list is re-ordered and a
        graph update is flagged; a null processor changes nothing. */
    method AddEffect(p: Option<Processor>)
      requires Valid()
      modifies this`effects, this`graphNodes, this`nextNode, this`graphUpdatePending
      ensures Valid()
      ensures p.None? ==>
        effects == old(effects) && graphNodes == old(graphNodes) &&
        nextNode == old(nextNode) && graphUpdatePending == old(graphUpdatePending)
      ensures p.Some? ==>
        effects == Added(old(effects), old(nextNode), p.value.kind, p.value.name) &&
        graphNodes == old(graphNodes) + {old(nextNode)} && nextNode == old(nextNode) + 1 &&
        graphUpdatePending
    {
      if p.Some? {
        var node := nextNode;
        nextNode := nextNode + 1;
        graphNodes := graphNodes + {node};
        effects := effects + [EffectNode(node, p.value.kind, p.value.name, true, |effects|, false)];
        UpdateEffectOrder();
        graphUpdatePending := true;
      }
    }

    /** `removeEffect`: an index in range takes that entry's node out of the graph
        and the entry out of the list, renumbers, and rewires; any other index
        changes nothing. */
    method RemoveEffect(index: int)
      requires Valid()
      modifies this`effects, this`graphNodes, this`connections, this`hasEndpoints
      ensures Valid()
      ensures !(0 <= index < |old(effects)|) ==>
        effects == old(effects) && graphNodes == old(graphNodes) && connections == old(connections)
      ensures 0 <= index < |old(effects)| ==>
        effects == Renumbered(RemoveAt(old(effects), index)) &&
        Rewired(old(graphNodes) - {old(effects)[index].node})
    {
      if 0 <= index < |effects| {
        graphNodes := graphNodes - {effects[index].node};
        effects := RemoveAt(effects, index);
        Renumber();
        ConnectNodes();
      }
    }

    /** `moveEffect`: with both indices in range and distinct, the entry is taken
        out and put back in at `toIndex`, the list renumbered and the graph
        rewired; otherwise nothing changes. */
    method MoveEffect(fromIndex: int, toIndex: int)
      requires Valid()
      modifies this`effects, this`graphNodes, this`connections, this`hasEndpoints
      ensures Valid()
      ensures !(0 <= fromIndex < |old(effects)| && 0 <= toIndex < |old(effects)| && fromIndex != toIndex) ==>
        effects == old(effects) && graphNodes == old(graphNodes) && connections == old(connections)
      ensures 0 <= fromIndex < |old(effects)| && 0 <= toIndex < |old(effects)| && fromIndex != toIndex ==>
        effects == Renumbered(Move(old(effects), fromIndex, toIndex)) && Rewired(old(graphNodes))
    {
      if 0 <= fromIndex < |effects| && 0 <= toIndex < |effects| && fromIndex != toIndex {
        MovedStayLive(effects, fromIndex, toIndex, nextNode);
        effects := Move(effects, fromIndex, toIndex);
        Renumber();
        ConnectNodes();
      }
    }

    /** `setEffectActive`: with an index in range the flag is changed and the
        connections rebuilt; when that rebuild fails the old flag is put back and
        the connections rebuilt once more. Any other index changes nothing. */
    method SetEffectActive(index: int, active: bool)
      requires Valid()
      modifies this`effects, this`connections
      ensures Valid()
      ensures !(0 <= index < |old(effects)|) ==> effects == old(effects) && connections == old(connections)
      ensures 0 <= index < |old(effects)| ==>
        effects == Toggled(Acceptance(), old(effects), index, active) &&
        connections == Rebuilt(Acceptance(), effects).added
    {
      if 0 <= index < |effects| {
        var oldState := effects[index].isActive;
        effects := effects[index := effects[index].(isActive := active)];
        var ok := RebuildConnections();
        if !ok {
          effects := effects[index := effects[index].(isActive := oldState)];
          assert effects == old(effects);
          ok := RebuildConnections();
        }
      }
    }

    /** `getNumEffects`. */
    function GetNumEffects(): (n: int)
      reads this
      ensures n >= 0 && n == |effects|
    {
      |effects|
    }

    /** `getEffect`: the node of the entry at `index`, or nothing out of range. */
    function GetEffect(index: int): (r: Option<nat>)
      reads this
      ensures r.Some? <==> 0 <= index < |effects|
      ensures r.Some? ==> r.value == effects[index].node
    {
      if 0 <= index < |effects| then Some(effects[index].node) else None
    }

    /** `isEffectActive`: false out of range. */
    function IsEffectActive(index: int): (r: bool)
      reads this
      ensures r <==> 0 <= index < |effects| && effects[index].isActive
    {
      0 <= index < |effects| && effects[index].isActive
    }

    /** `getEffectName`: the empty name out of range. */
    function GetEffectName(index: int): (r: string)
      reads this
      ensures 0 <= index < |effects| ==> r == effects[index].name
      ensures !(0 <= index < |effects|) ==> r == ""
    {
      if 0 <= index < |effects| then effects[index].name else ""
    }

    /** `getEffectOrder(index)`: the entry's position, or -1 out of range. */
    function GetEffectOrder(index: int): (r: int)
      reads this
      ensures 0 <= index < |effects| ==> r == effects[index].position
      ensures !(0 <= index < |effects|) ==> r == -1
    {
      if 0 <= index < |effects| then effects[index].position else -1
    }

    /** `findEffectPosition`: the first index whose name matches, or -1. */
    method FindEffectPosition(name: string) returns (r: int)
      ensures -1 <= r < |effects|
      ensures r >= 0 ==> effects[r].name == name && forall j :: 0 <= j < r ==> effects[j].name != name
      ensures r == -1 <==> forall j :: 0 <= j < |effects| ==> effects[j].name != name
      ensures r == IndexOf(Names(effects), name)
    {
      var i := 0;
      while i < |effects|
        invariant 0 <= i <= |effects|
        invariant forall j :: 0 <= j < i ==> effects[j].name != name
      {
        if effects[i].name == name {
          return i;
        }
        i := i + 1;
      }
      return -1;
    }

    /** `setEffectOrder`: with an index in range the entry gets the new position,
        the list is re-ordered and a graph update is flagged; any other index
        changes nothing. */
    method SetEffectOrder(index: int, newOrder: int)
      requires Valid()
      modifies this`effects, this`graphUpdatePending
      ensures Valid()
      ensures !(0 <= index < |old(effects)|) ==>
        effects == old(effects) && graphUpdatePending == old(graphUpdatePending)
      ensures 0 <= index < |old(effects)| ==>
        effects == WithOrder(old(effects), index, newOrder) && graphUpdatePending
    {
      if 0 <= index < |effects| {
        effects := effects[index := effects[index].(position := newOrder)];
        UpdateEffectOrder();
        graphUpdatePending := true;
      }
    }

    /** `clearEffects`: the list is emptied and the graph reset to the basic one. */
    method ClearEffects()
      requires Valid()
      modifies this`effects, this`graphNodes, this`hasEndpoints, this`connections
      ensures Valid() && effects == [] && graphNodes == {}
      ensures connections == AcceptedChannels(accepts, Input, Output, Channels)
    {
      effects := [];
      graphNodes := {};
      hasEndpoints := false;
      connections := [];
      CreateBasicGraph();
    }

    /** `getStateInformation`: the saved tree of the rack. */
    method GetStateInformation() returns (t: StateTree)
      ensures t == SaveTree(effects, sampleRate, blockSize)
      ensures |t.children| <= |effects| && t.tag == RackTag
    {
      var children: seq<ChildRecord> := [];
      var i := 0;
      while i < |effects|
        invariant 0 <= i <= |effects|
        invariant children == SaveRecords(effects[..i])
      {
        var e := effects[i];
        assert effects[..i + 1][..i] == effects[..i];
        if !e.isBeingDeleted {
          children := children + [ChildRecord(EffectTag(i), e.name, Some(e.isActive), Some(e.position))];
        }
        i := i + 1;
      }
      assert effects[..i] == effects;
      t := StateTree(RackTag, |effects|, Some(sampleRate), Some(blockSize), children);
    }

    /** The restore loop of `setStateInformation`: every kept child becomes an
        entry with a new graph node. */
    method RestoreChildren(children: seq<ChildRecord>)
      requires effects == []
      modifies this`effects, this`graphNodes, this`nextNode
      ensures effects == Instantiate(RestoreList(children), old(nextNode))
      ensures nextNode == old(nextNode) + |effects|
      ensures graphNodes == old(graphNodes) + NodeRange(old(nextNode), |effects|)
    {
      var i := 0;
      ghost var first := nextNode;
      ghost var base := graphNodes;
      var restored: seq<EffectNode> := [];
      var next := nextNode;
      var nodes := graphNodes;
      while i < |children|
        invariant 0 <= i <= |children|
        invariant restored == RestoredUpTo(children, i, first)
        invariant next == first + |restored|
        invariant nodes == base + NodeRange(first, |restored|)
      {
        var kept := Keep(children[i], i);
        if kept.Some? {
          var x := kept.value;
          var e := EffectNode(next, x.kind, x.name, x.isActive, x.position, false);
          assert RestoredUpTo(children, i + 1, first) == restored + [e];
          NodeRangeGrows(base, first, |restored|);
          restored := restored + [e];
          nodes := nodes + {next};
          next := next + 1;
        } else {
          assert RestoredUpTo(children, i + 1, first) == restored;
        }
        i := i + 1;
      }
      RestoredUpToInstantiates(children, i, first);
      effects, nextNode, graphNodes := restored, next, nodes;
      assert children[..i] == children;
    }

    /** The rollback loop of `setStateInformation`: every entry's processor is
        added to the graph again, as a new node. */
    method ReAddNodes()
      modifies this`effects, this`graphNodes, this`nextNode
      ensures effects == Reminted(old(effects), old(nextNode))
      ensures nextNode == old(nextNode) + |effects|
      ensures graphNodes == old(graphNodes) + NodeRange(old(nextNode), |effects|)
    {
      var i := 0;
      while i < |effects|
        invariant 0 <= i <= |effects| == |old(effects)|
        invariant forall k :: 0 <= k < i ==> effects[k] == old(effects)[k].(node := old(nextNode) + k)
        invariant forall k :: i <= k < |effects| ==> effects[k] == old(effects)[k]
        invariant nextNode == old(nextNode) + i
        invariant graphNodes == old(graphNodes) + NodeRange(old(nextNode), i)
      {
        effects := effects[i := effects[i].(node := nextNode)];
        graphNodes := graphNodes + {nextNode};
        nextNode := nextNode + 1;
        i := i + 1;
      }
    }

    /** The graph a restore or its rollback leaves behind: rebuilt on a prepared
        rack, the basic graph otherwise. */
    ghost predicate Settled()
      reads this
    {
      connections == if isPrepared then Rebuilt(Acceptance(), effects).added
                     else AcceptedChannels(accepts, Input, Output, Channels)
    }

    /** The rack holds exactly the entries `es`, whose nodes are numbered from
        `first` on and are the only effect nodes of the graph, and the graph's next
        id follows them. */
    ghost predicate Holds(es: seq<EffectNode>, first: nat)
      reads this
    {
      hasEndpoints && effects == es && nextNode == first + |es| && graphNodes == NodeRange(first, |es|)
    }

    /** The accepted branch of `setStateInformation`: reset the graph, restore the
        kept records and, on a prepared rack, rebuild; `failed` reports a failed
        rebuild. */
    method Restore(tree: StateTree) returns (failed: bool)
      modifies this`effects, this`graphNodes, this`hasEndpoints, this`connections, this`nextNode,
        this`sampleRate, this`blockSize
      ensures sampleRate == tree.sampleRate.GetOr(DefaultSampleRate)
      ensures blockSize == tree.blockSize.GetOr(DefaultBlockSize)
      ensures Holds(Instantiate(RestoreList(tree.children), old(nextNode)), old(nextNode))
      ensures failed <==> isPrepared && !RestoreWires(accepts, tree.children, old(nextNode))
      ensures Valid() && Settled()
    {
      ghost var first := nextNode;
      ghost var restored := Instantiate(RestoreList(tree.children), first);
      effects := [];
      sampleRate := tree.sampleRate.GetOr(DefaultSampleRate);
      blockSize := tree.blockSize.GetOr(DefaultBlockSize);
      CreateBasicGraph();
      RestoreChildren(tree.children);
      assert Holds(restored, first);
      assert Valid() by {
        forall i | 0 <= i < |effects|
          ensures effects[i].node < nextNode && !effects[i].isBeingDeleted
        {
          assert effects[i].node == first + i;
        }
      }
      failed := false;
      if isPrepared {
        assert Acceptance() == Admit(true, NodeRange(first, |restored|), accepts);
        var ok := RebuildConnections();
        assert ok == RestoreWires(accepts, tree.children, first);
        failed := !ok;
      }
    }

    /** The rollback of `setStateInformation`: the old entries come back, each
        with a new node in a reset graph, and a prepared rack is rebuilt. */
    method Rollback(oldEffects: seq<EffectNode>)
      requires forall i :: 0 <= i < |oldEffects| ==> !oldEffects[i].isBeingDeleted
      modifies this`effects, this`graphNodes, this`hasEndpoints, this`connections, this`nextNode
      ensures Holds(Reminted(oldEffects, old(nextNode)), old(nextNode))
      ensures Valid()
      ensures Settled()
    {
      effects := oldEffects;
      CreateBasicGraph();
      ReAddNodes();
      if isPrepared {
        var _ := RebuildConnections();
      }
    }

    /** `setStateInformation`. `blob` is the parsed tree, `None` when the data
        cannot be parsed. A tree tagged "EFFECTRACK" replaces the list by the
        records it holds (sample rate and block size defaulting to 44100 and 512);
        on a prepared rack the graph is then rebuilt. Data that cannot be parsed,
        a wrong tag, or a rebuild that fails brings back the old entries, each with
        a new graph node (the sample rate and block size read from an accepted
        tree are kept even then). */
    method SetStateInformation(blob: Option<StateTree>)
      requires Valid()
      modifies this`effects, this`graphNodes, this`hasEndpoints, this`connections, this`nextNode,
        this`sampleRate, this`blockSize
      ensures Valid() && Settled()
      ensures Tagged(blob) ==>
        sampleRate == blob.value.sampleRate.GetOr(DefaultSampleRate) &&
        blockSize == blob.value.blockSize.GetOr(DefaultBlockSize)
      ensures !Tagged(blob) ==> sampleRate == old(sampleRate) && blockSize == old(blockSize)
      ensures !Tagged(blob) ==> Holds(Reminted(old(effects), old(nextNode)), old(nextNode))
      ensures Tagged(blob) ==>
        var restored := Instantiate(RestoreList(blob.value.children), old(nextNode));
        if !isPrepared || RestoreWires(accepts, blob.value.children, old(nextNode))
        then Holds(restored, old(nextNode))
        else Holds(Reminted(old(effects), old(nextNode) + |restored|), old(nextNode) + |restored|)
    {
      var oldEffects := effects;
      var failed := true;
      if Tagged(blob) {
        failed := Restore(blob.value);
      }
      if failed {
        Rollback(oldEffects);
      }
    }
  }
  /** A saved rack holding one active Delay. */
  function OneDelay(): (t: StateTree)
    ensures Tagged(Some(t))
    ensures RestoreList(t.children) == [Restored(Delay, "Delay", true, 0)]
  {
    var child := ChildRecord(EffectTag(0), "Delay", Some(true), Some(0));
    assert [child][..0] == [];
    StateTree(RackTag, 1, None, None, [child])
  }

  /** A graph that accepts every connection between its nodes. */
  function AcceptAll(): Oracle {
    (a: Node, b: Node, ch: nat) => true
  }

  /** `OneDelay` restored into a fresh rack before it is first prepared, then
      `prepareToPlay` as written and one `processBlock`: the audio still runs from
      input straight to output. */
  method RestoreBeforePrepareAsWritten() returns (wiring: seq<Connection>)
    ensures wiring == Hop(Input, Output)
  {
    BasicWiringIsHop(AcceptAll(), Input, Output);
    var rack := new EffectRack(AcceptAll());
    rack.SetStateInformation(Some(OneDelay()));
    rack.PrepareToPlayAsWritten(48000.0, 256);
    rack.ProcessBlock();
    wiring := rack.connections;
  }

  /** The same sequence with the rack marked prepared before the graph update:
      the audio runs through the restored Delay. */
  method RestoreBeforePrepare() returns (wiring: seq<Connection>, delay: nat)
    ensures wiring == PathEdges([Input, Unit(delay), Output])
  {
    var rack := new EffectRack(AcceptAll());
    var n := rack.nextNode;
    rack.SetStateInformation(Some(OneDelay()));
    var restored := rack.effects;
    assert restored == [EffectNode(n, Delay, "Delay", true, 0, false)];
    var nodes := rack.graphNodes;
    assert n in nodes;
    rack.PrepareToPlay(48000.0, 256);
    delay := n;
    PreparedDelayIsWired(nodes, n);
    assert rack.connections == PathEdges([Input, Unit(n), Output]);
    rack.ProcessBlock();
    wiring := rack.connections;
  }

  lemma PreparedDelayIsWired(nodes: set<nat>, n: nat)
    requires n in nodes
    ensures var es := [EffectNode(n, Delay, "Delay", true, 0, false)];
      Rebuilt(Admit(true, nodes, AcceptAll()), es) == Attempt(PathEdges([Input, Unit(n), Output]), true)
  {
    var es := [EffectNode(n, Delay, "Delay", true, 0, false)];
    var acc := Admit(true, nodes, AcceptAll());
    assert InGraph(true, nodes, Input) && InGraph(true, nodes, Unit(n)) && InGraph(true, nodes, Output);
    forall a: Node, b: Node, ch: nat ensures AcceptAll()(a, b, ch) {
    }
    assert Linked(acc, Input, Unit(n)) && Linked(acc, Unit(n), Output);
    LinkOutcome(acc, Input, Unit(n));
    LinkOutcome(acc, Unit(n), Output);
    assert es[..0] == [];
    assert WalkEffects(acc, es) == Walk(Hop(Input, Unit(n)), [Unit(n)], Unit(n), false);
    SuccessfulRebuildIsSignalPath(acc, es);
    assert es[..0] == [] && ActiveUnits(es) == [Unit(n)];
    assert SignalPath(es) == [Input, Unit(n), Output];
  }
}
