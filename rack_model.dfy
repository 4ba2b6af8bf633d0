/** The values the effect rack keeps (one record per hosted processor) and the
    two computations on them that the rack's methods are specified by:
    re-ordering the records by their `position`, and the signal path that
    `EffectRack::rebuildConnections` wires from the graph input, through the
    active effects, to the graph output. */
module RackModel {
  import opened Ordering

  /** The processor classes the rack can host. */
  datatype EffectKind = Delay | Reverb | Distortion | Chorus | Equalizer

  /** One entry of the rack's `effects` vector. `node` is the id of the graph node
      that owns the processor, `kind` the processor's class, `name` the name the
      processor reported when it was added (or the name stored in a restored state). */
  datatype EffectNode = EffectNode(
    node: nat,
    kind: EffectKind,
    name: string,
    isActive: bool,
    position: int,
    isBeingDeleted: bool)

  function Position(e: EffectNode): int { e.position }

  function Names(s: seq<EffectNode>): (r: seq<string>)
    ensures |r| == |s| && forall i :: 0 <= i < |s| ==> r[i] == s[i].name
  {
    seq(|s|, i requires 0 <= i < |s| => s[i].name)
  }

  function NodeIds(s: seq<EffectNode>): (r: seq<nat>)
    ensures |r| == |s| && forall i :: 0 <= i < |s| ==> r[i] == s[i].node
  {
    seq(|s|, i requires 0 <= i < |s| => s[i].node)
  }

  /** Every entry's position equals its index: positions are exactly 0 .. n-1. */
  ghost predicate PositionsAreIndices(s: seq<EffectNode>) {
    forall i :: 0 <= i < |s| ==> s[i].position == i
  }

  /** The renumbering loop: position := index. */
  function Renumbered(s: seq<EffectNode>): (r: seq<EffectNode>)
    ensures |r| == |s| && PositionsAreIndices(r)
    ensures forall i :: 0 <= i < |s| ==> r[i] == s[i].(position := i)
  {
    seq(|s|, i requires 0 <= i < |s| => s[i].(position := i))
  }

  /** `updateEffectOrder`: sort by position, then renumber. */
  function Ordered(s: seq<EffectNode>): seq<EffectNode> {
    Renumbered(SortByKey(s, Position))
  }

  /** The entries after `updateEffectOrder` are the old entries, sorted by their
      former position and then renumbered 0 .. n-1. */
  lemma OrderedIsSortedRenumbering(s: seq<EffectNode>)
    ensures |Ordered(s)| == |s| && PositionsAreIndices(Ordered(s))
    ensures exists t :: multiset(t) == multiset(s) && SortedBy(t, Position) && Ordered(s) == Renumbered(t)
  {
    assert Ordered(s) == Renumbered(SortByKey(s, Position));
  }

  /** When the positions already are the indices, `updateEffectOrder` changes nothing. */
  lemma {:induction false} OrderedKeepsIndexed(s: seq<EffectNode>)
    requires PositionsAreIndices(s)
    ensures Ordered(s) == s
  {
    assert SortedBy(s, Position);
    SortedIsFixpoint(s, Position);
    assert Renumbered(s) == s;
  }

  /** Running `updateEffectOrder` twice is the same as running it once. */
  lemma {:induction false} OrderedIdempotent(s: seq<EffectNode>)
    ensures Ordered(Ordered(s)) == Ordered(s)
  {
    OrderedKeepsIndexed(Ordered(s));
  }

  /** `addEffect`: append an active entry at position n, then `updateEffectOrder`. */
  function Added(s: seq<EffectNode>, node: nat, kind: EffectKind, name: string): seq<EffectNode> {
    Ordered(s + [EffectNode(node, kind, name, true, |s|, false)])
  }

  /** With contiguous positions, adding an effect appends it, active, at the end. */
  lemma {:induction false} AddedAppends(s: seq<EffectNode>, node: nat, kind: EffectKind, name: string)
    requires PositionsAreIndices(s)
    ensures Added(s, node, kind, name) == s + [EffectNode(node, kind, name, true, |s|, false)]
    ensures PositionsAreIndices(Added(s, node, kind, name))
  {
    OrderedKeepsIndexed(s + [EffectNode(node, kind, name, true, |s|, false)]);
  }

  /** After `addEffect` the list is one longer, numbered 0 .. n, and holds the new,
      active entry; every old entry is still there. */
  lemma AddedHoldsNewEntry(s: seq<EffectNode>, node: nat, kind: EffectKind, name: string)
    ensures |Added(s, node, kind, name)| == |s| + 1
    ensures PositionsAreIndices(Added(s, node, kind, name))
    ensures exists k :: 0 <= k < |s| + 1 && Added(s, node, kind, name)[k] == EffectNode(node, kind, name, true, k, false)
    ensures forall i :: 0 <= i < |s| ==> exists k :: 0 <= k < |s| + 1 && Added(s, node, kind, name)[k] == s[i].(position := k)
  {
    var x := EffectNode(node, kind, name, true, |s|, false);
    var t := SortByKey(s + [x], Position);
    var r := Added(s, node, kind, name);
    assert (s + [x])[|s|] == x;
    assert x in multiset(t);
    var k :| 0 <= k < |t| && t[k] == x;
    assert r[k] == EffectNode(node, kind, name, true, k, false);
    forall i | 0 <= i < |s| ensures exists k :: 0 <= k < |s| + 1 && r[k] == s[i].(position := k) {
      assert (s + [x])[i] == s[i];
      assert s[i] in multiset(t);
      var j :| 0 <= j < |t| && t[j] == s[i];
      assert r[j] == s[i].(position := j);
    }
  }

  /** After `addEffect` a name is in the rack exactly when it was there before or
      it is the name the new processor reports. */
  lemma AddedNames(s: seq<EffectNode>, node: nat, kind: EffectKind, name: string, n: string)
    ensures n in Names(Added(s, node, kind, name)) <==> n in Names(s) || n == name
  {
    var r := Added(s, node, kind, name);
    if n in Names(r) {
      var k :| 0 <= k < |r| && Names(r)[k] == n;
      AddedEntryIsOld(s, node, kind, name, k);
    }
    if n in Names(s) || n == name {
      AddedHoldsNewEntry(s, node, kind, name);
      if n == name {
        var k :| 0 <= k < |s| + 1 && r[k] == EffectNode(node, kind, name, true, k, false);
        assert Names(r)[k] == n;
      } else {
        var i :| 0 <= i < |s| && Names(s)[i] == n;
        var k :| 0 <= k < |s| + 1 && r[k] == s[i].(position := k);
        assert Names(r)[k] == n;
      }
    }
  }

  /** Every entry after `addEffect` is the new one or an old one. */
  lemma AddedEntryIsOld(s: seq<EffectNode>, node: nat, kind: EffectKind, name: string, k: nat)
    requires k < |Added(s, node, kind, name)|
    ensures Added(s, node, kind, name)[k].name == name || Added(s, node, kind, name)[k].name in Names(s)
  {
    var x := EffectNode(node, kind, name, true, |s|, false);
    var t := SortByKey(s + [x], Position);
    assert t[k] in multiset(s + [x]);
    assert t[k] in s + [x];
    if t[k] != x {
      var i :| 0 <= i < |s| && s[i] == t[k];
      assert Names(s)[i] == t[k].name;
    }
  }

  /** `setEffectOrder`: change one position, then `updateEffectOrder`. */
  function WithOrder(s: seq<EffectNode>, index: nat, newOrder: int): seq<EffectNode>
    requires index < |s|
  {
    Ordered(s[index := s[index].(position := newOrder)])
  }

  // ---------------------------------------------------------------------------
  // Signal path

  /** A node of the processing graph: the two fixed endpoints, or an effect's node. */
  datatype Node = Input | Output | Unit(id: nat)

  /** One audio connection, from `source` to `dest`, on one channel. */
  datatype Connection = Connection(source: Node, dest: Node, channel: nat)

  /** Whether the graph accepts a connection on a channel (the library's routing layer). */
  type Oracle = (Node, Node, nat) -> bool

  /** The rack connects two channels per hop. */
  const Channels: nat := 2

  predicate InGraph(hasEndpoints: bool, nodes: set<nat>, n: Node) {
    match n
    case Unit(id) => id in nodes
    case _ => hasEndpoints
  }

  /** A connection is accepted only between nodes that are in the graph, and only
      when the routing layer agrees. */
  function Admit(hasEndpoints: bool, nodes: set<nat>, accepts: Oracle): Oracle {
    (a: Node, b: Node, ch: nat) =>
      InGraph(hasEndpoints, nodes, a) && InGraph(hasEndpoints, nodes, b) && accepts(a, b, ch)
  }

  datatype Attempt = Attempt(added: seq<Connection>, ok: bool)

  /** Connecting `from` to `to` on channels 0 .. n-1, stopping at the first rejected channel. */
  function LinkChannels(acc: Oracle, from: Node, to: Node, n: nat): Attempt
    decreases n
  {
    if n == 0 then Attempt([], true)
    else
      var a := LinkChannels(acc, from, to, n - 1);
      if !a.ok then a
      else if acc(from, to, n - 1) then Attempt(a.added + [Connection(from, to, n - 1)], true)
      else Attempt(a.added, false)
  }

  /** Both channels of the hop are accepted. */
  predicate Linked(acc: Oracle, from: Node, to: Node) {
    acc(from, to, 0) && acc(from, to, 1)
  }

  /** The two connections of a successful hop. */
  function Hop(from: Node, to: Node): seq<Connection> {
    [Connection(from, to, 0), Connection(from, to, 1)]
  }

  /** A hop succeeds exactly when both channels are accepted, and then adds both
      connections; a hop whose first channel is rejected adds nothing. */
  lemma LinkOutcome(acc: Oracle, from: Node, to: Node)
    ensures LinkChannels(acc, from, to, Channels).ok <==> Linked(acc, from, to)
    ensures Linked(acc, from, to) ==> LinkChannels(acc, from, to, Channels).added == Hop(from, to)
    ensures !acc(from, to, 0) ==> LinkChannels(acc, from, to, Channels).added == []
  {
    assert LinkChannels(acc, from, to, 1) == LinkChannels(acc, from, to, 0 + 1);
  }

  /** A connection attempt that has failed stays failed on further channels. */
  lemma {:induction false} LinkFailureSticks(acc: Oracle, from: Node, to: Node, k: nat, n: nat)
    requires k <= n && !LinkChannels(acc, from, to, k).ok
    ensures LinkChannels(acc, from, to, n) == LinkChannels(acc, from, to, k)
    decreases n
  {
    if k < n {
      LinkFailureSticks(acc, from, to, k, n - 1);
    }
  }

  /** Connecting `from` to `to` on channels 0 .. n-1 and keeping every connection
      that is accepted, without stopping at a rejection (the loop of
      `createBasicGraph`, which ignores the result of each attempt). */
  function AcceptedChannels(acc: Oracle, from: Node, to: Node, n: nat): seq<Connection>
    decreases n
  {
    if n == 0 then []
    else AcceptedChannels(acc, from, to, n - 1) + (if acc(from, to, n - 1) then [Connection(from, to, n - 1)] else [])
  }

  /** The basic wiring holds exactly the accepted channels below `n`: a refused
      channel does not stop the later ones. */
  lemma {:induction false} AcceptedChannelsMembers(acc: Oracle, from: Node, to: Node, n: nat)
    ensures forall c :: c in AcceptedChannels(acc, from, to, n) <==>
      c.source == from && c.dest == to && c.channel < n && acc(from, to, c.channel)
    decreases n
  {
    if n > 0 {
      AcceptedChannelsMembers(acc, from, to, n - 1);
    }
  }

  /** When both channels are accepted the basic wiring is the full hop. */
  lemma BasicWiringIsHop(acc: Oracle, from: Node, to: Node)
    requires Linked(acc, from, to)
    ensures AcceptedChannels(acc, from, to, Channels) == Hop(from, to)
  {
    assert AcceptedChannels(acc, from, to, 1) == [Connection(from, to, 0)];
  }

  /** The state of the walk over the effects: connections made so far, the units
      successfully connected in order, the last connected node, and whether any
      connection was rejected. */
  datatype Walk = Walk(connections: seq<Connection>, chain: seq<Node>, previous: Node, failed: bool)

  /** One iteration of the walk: an active effect is connected from the last connected
      node; when a channel is rejected it is skipped and the walk goes on from the
      same node. */
  function Step(acc: Oracle, w: Walk, e: EffectNode): Walk {
    if !e.isActive then w
    else
      var a := LinkChannels(acc, w.previous, Unit(e.node), Channels);
      if a.ok then Walk(w.connections + a.added, w.chain + [Unit(e.node)], Unit(e.node), w.failed)
      else Walk(w.connections + a.added, w.chain, w.previous, true)
  }

  /** The walk over the whole list, in list order, from the graph input. */
  function WalkEffects(acc: Oracle, es: seq<EffectNode>): Walk
    decreases |es|
  {
    if es == [] then Walk([], [], Input, false)
    else Step(acc, WalkEffects(acc, es[..|es| - 1]), es[|es| - 1])
  }

  /** The result of `rebuildConnections` once both endpoints exist: the walk, then
      the last connected node to the output. */
  function Rebuilt(acc: Oracle, es: seq<EffectNode>): Attempt {
    var w := WalkEffects(acc, es);
    var f := LinkChannels(acc, w.previous, Output, Channels);
    Attempt(w.connections + f.added, !w.failed && f.ok)
  }

  /** The list `setEffectActive` leaves behind: the entry's flag is changed when the
      rebuild with the change succeeds, and the list is as it was when it fails. */
  function Toggled(acc: Oracle, es: seq<EffectNode>, index: nat, active: bool): (r: seq<EffectNode>)
    requires index < |es|
    ensures |r| == |es| && forall i :: 0 <= i < |es| && i != index ==> r[i] == es[i]
    ensures r == es || (r[index] == es[index].(isActive := active) && Rebuilt(acc, r).ok)
  {
    var tried := es[index := es[index].(isActive := active)];
    if Rebuilt(acc, tried).ok then tried else es
  }

  /** The active effects' nodes, in list order. */
  function ActiveUnits(es: seq<EffectNode>): seq<Node>
    decreases |es|
  {
    if es == [] then []
    else
      var e := es[|es| - 1];
      ActiveUnits(es[..|es| - 1]) + (if e.isActive then [Unit(e.node)] else [])
  }

  /** The connections of a path, both channels per hop. */
  function PathEdges(path: seq<Node>): seq<Connection>
    decreases |path|
  {
    if |path| < 2 then []
    else PathEdges(path[..|path| - 1]) + Hop(path[|path| - 2], path[|path| - 1])
  }

  /** The intended signal path: input, every active effect in list order, output. */
  function SignalPath(es: seq<EffectNode>): seq<Node> {
    [Input] + ActiveUnits(es) + [Output]
  }

  /** The walk always continues from the last unit it connected (or from the input). */
  lemma {:induction false} WalkContinuesFromLast(acc: Oracle, es: seq<EffectNode>)
    ensures var w := WalkEffects(acc, es);
      w.previous == ([Input] + w.chain)[|w.chain|]
    decreases |es|
  {
    if es != [] {
      WalkContinuesFromLast(acc, es[..|es| - 1]);
    }
  }

  /** The connected units are the active effects in list order, with some left out. */
  lemma {:induction false} ChainFollowsListOrder(acc: Oracle, es: seq<EffectNode>)
    ensures Subseq(WalkEffects(acc, es).chain, ActiveUnits(es))
    decreases |es|
  {
    if es != [] {
      var init := es[..|es| - 1];
      var e := es[|es| - 1];
      ChainFollowsListOrder(acc, init);
      var w := WalkEffects(acc, init);
      var chain := WalkEffects(acc, es).chain;
      var active := ActiveUnits(es);
      if e.isActive {
        assert active == ActiveUnits(init) + [Unit(e.node)];
        assert active[..|active| - 1] == ActiveUnits(init);
        if LinkChannels(acc, w.previous, Unit(e.node), Channels).ok {
          assert chain == w.chain + [Unit(e.node)];
          assert chain[..|chain| - 1] == w.chain;
        } else {
          assert chain == w.chain;
        }
      } else {
        assert active == ActiveUnits(init);
      }
    }
  }

  /** No connection in the walk was rejected exactly when every active effect is on the chain. */
  lemma {:induction false} CompleteIffNothingRejected(acc: Oracle, es: seq<EffectNode>)
    ensures !WalkEffects(acc, es).failed <==> WalkEffects(acc, es).chain == ActiveUnits(es)
    decreases |es|
  {
    ChainFollowsListOrder(acc, es);
    ChainNoLongerThanActive(acc, es);
    if es != [] {
      var init := es[..|es| - 1];
      CompleteIffNothingRejected(acc, init);
      ChainNoLongerThanActive(acc, init);
    }
  }

  /** The chain is never longer than the active list, and strictly shorter once a
      connection has been rejected. */
  lemma {:induction false} ChainNoLongerThanActive(acc: Oracle, es: seq<EffectNode>)
    ensures |WalkEffects(acc, es).chain| <= |ActiveUnits(es)|
    ensures WalkEffects(acc, es).failed ==> |WalkEffects(acc, es).chain| < |ActiveUnits(es)|
    decreases |es|
  {
    if es != [] {
      ChainNoLongerThanActive(acc, es[..|es| - 1]);
    }
  }

  /** A walk without rejections has made exactly the connections of the path
      input -> chain, two channels per hop. */
  lemma {:induction false} CleanWalkEdges(acc: Oracle, es: seq<EffectNode>)
    requires !WalkEffects(acc, es).failed
    ensures WalkEffects(acc, es).connections == PathEdges([Input] + WalkEffects(acc, es).chain)
    decreases |es|
  {
    if es != [] {
      var init := es[..|es| - 1];
      var e := es[|es| - 1];
      var w := WalkEffects(acc, init);
      assert !w.failed;
      CleanWalkEdges(acc, init);
      if e.isActive {
        WalkContinuesFromLast(acc, init);
        LinkOutcome(acc, w.previous, Unit(e.node));
        CleanStepEdges(acc, w, e);
      }
    }
  }

  /** A step whose hop is accepted extends the walk's path by that hop. */
  lemma CleanStepEdges(acc: Oracle, w: Walk, e: EffectNode)
    requires e.isActive && Linked(acc, w.previous, Unit(e.node))
    requires w.connections == PathEdges([Input] + w.chain)
    requires w.previous == ([Input] + w.chain)[|w.chain|]
    ensures Step(acc, w, e).connections == PathEdges([Input] + Step(acc, w, e).chain)
  {
    LinkOutcome(acc, w.previous, Unit(e.node));
    var p := [Input] + w.chain + [Unit(e.node)];
    assert p[..|p| - 1] == [Input] + w.chain;
    assert p[|p| - 2] == w.previous;
    assert [Input] + (w.chain + [Unit(e.node)]) == p;
  }

  /** A successful rebuild wires exactly the intended signal path: input, every
      active effect in list order, output, both channels per hop. */
  lemma {:induction false} SuccessfulRebuildIsSignalPath(acc: Oracle, es: seq<EffectNode>)
    requires Rebuilt(acc, es).ok
    ensures Rebuilt(acc, es).added == PathEdges(SignalPath(es))
  {
    var w := WalkEffects(acc, es);
    CompleteIffNothingRejected(acc, es);
    CleanWalkEdges(acc, es);
    WalkContinuesFromLast(acc, es);
    LinkOutcome(acc, w.previous, Output);
    var p := SignalPath(es);
    assert p[..|p| - 1] == [Input] + w.chain;
    assert p[|p| - 2] == w.previous;
  }

  /** When no effect is active the rebuild wires the input straight to the output. */
  lemma NoActiveEffectIsPassthrough(acc: Oracle, es: seq<EffectNode>)
    requires ActiveUnits(es) == []
    requires Linked(acc, Input, Output)
    ensures Rebuilt(acc, es) == Attempt(Hop(Input, Output), true)
  {
    CompleteIffNothingRejected(acc, es);
    ChainNoLongerThanActive(acc, es);
    CleanWalkEdges(acc, es);
    WalkContinuesFromLast(acc, es);
    LinkOutcome(acc, Input, Output);
  }

  /** With distinct node ids, no unit appears twice on the chain. */
  lemma {:induction false} NoUnitTwice(acc: Oracle, es: seq<EffectNode>)
    requires Distinct(NodeIds(es))
    ensures Distinct(WalkEffects(acc, es).chain)
  {
    ActiveUnitsDistinct(es);
    ChainFollowsListOrder(acc, es);
    SubseqOfDistinct(WalkEffects(acc, es).chain, ActiveUnits(es));
  }

  lemma {:induction false} ActiveUnitsDistinct(es: seq<EffectNode>)
    requires Distinct(NodeIds(es))
    ensures Distinct(ActiveUnits(es))
    ensures forall n :: n in ActiveUnits(es) ==> n.Unit? && n.id in NodeIds(es)
    decreases |es|
  {
    if es != [] {
      var init := es[..|es| - 1];
      var e := es[|es| - 1];
      assert NodeIds(init) == NodeIds(es)[..|es| - 1];
      assert Distinct(NodeIds(init));
      ActiveUnitsDistinct(init);
      forall k | 0 <= k < |init| ensures NodeIds(init)[k] != e.node {
        assert NodeIds(init)[k] == NodeIds(es)[k];
      }
      assert forall n :: n in ActiveUnits(es) ==> n in ActiveUnits(init) || n == Unit(e.node);
    }
  }

  /** Every active effect except `x`, in list order. */
  function ActiveExcept(es: seq<EffectNode>, x: nat): seq<Node>
    decreases |es|
  {
    if es == [] then []
    else
      var e := es[|es| - 1];
      ActiveExcept(es[..|es| - 1], x) + (if e.isActive && e.node != x then [Unit(e.node)] else [])
  }

  /** A unit whose connection is rejected is bypassed: when the routing layer refuses
      every connection into `x` and accepts every other, the walk connects every
      other active effect in order, input -> ... -> last, with no stray connection,
      and it reports a failure exactly when `x` was active. */
  lemma {:induction false} RejectedUnitIsBypassed(acc: Oracle, es: seq<EffectNode>, x: nat)
    requires forall a: Node :: !acc(a, Unit(x), 0)
    requires forall a: Node, b: Node, ch: nat :: b != Unit(x) ==> acc(a, b, ch)
    ensures WalkEffects(acc, es).chain == ActiveExcept(es, x)
    ensures WalkEffects(acc, es).connections == PathEdges([Input] + ActiveExcept(es, x))
    ensures WalkEffects(acc, es).failed <==> Unit(x) in ActiveUnits(es)
    decreases |es|
  {
    if es != [] {
      var init := es[..|es| - 1];
      var e := es[|es| - 1];
      var w := WalkEffects(acc, init);
      RejectedUnitIsBypassed(acc, init, x);
      WalkContinuesFromLast(acc, init);
      if e.isActive {
        LinkOutcome(acc, w.previous, Unit(e.node));
        if e.node != x {
          CleanStepEdges(acc, w, e);
        }
      }
    }
  }
  /** Effects whose nodes are not in the graph are all bypassed: no connection into
      them is accepted, the walk connects nothing, and it reports a failure exactly
      when one of them is active. This is the state `createBasicGraph` leaves the
      rack in, since clearing the graph also removes the effects' nodes. */
  lemma {:induction false} DetachedEffectsAreBypassed(hasEndpoints: bool, nodes: set<nat>, accepts: Oracle, es: seq<EffectNode>)
    requires forall i :: 0 <= i < |es| ==> es[i].node !in nodes
    ensures WalkEffects(Admit(hasEndpoints, nodes, accepts), es) == Walk([], [], Input, ActiveUnits(es) != [])
    decreases |es|
  {
    if es != [] {
      var init := es[..|es| - 1];
      var e := es[|es| - 1];
      assert forall i :: 0 <= i < |init| ==> init[i] == es[i];
      DetachedEffectsAreBypassed(hasEndpoints, nodes, accepts, init);
      var acc := Admit(hasEndpoints, nodes, accepts);
      assert ActiveUnits(es) == ActiveUnits(init) + (if e.isActive then [Unit(e.node)] else []);
      if e.isActive {
        assert e.node !in nodes;
        assert !InGraph(hasEndpoints, nodes, Unit(e.node));
        assert !acc(Input, Unit(e.node), 0);
        assert LinkChannels(acc, Input, Unit(e.node), 1) == Attempt([], false);
        LinkFailureSticks(acc, Input, Unit(e.node), 1, Channels);
      }
    }
  }
}
