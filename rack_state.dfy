/** The rack's saved state, as the tree of records that `getStateInformation`
    writes and `setStateInformation` reads (the XML and base64 encoding around
    it are not modelled): a root tagged "EFFECTRACK" holding the sample rate,
    the block size and one child per effect, tagged "EFFECT" followed by the
    effect's index. */
module RackState {
  import opened Ordering
  import opened RackModel

  const RackTag: string := "EFFECTRACK"
  const DefaultSampleRate: real := 44100.0
  const DefaultBlockSize: int := 512

  function DigitChar(d: nat): char
    requires d < 10
  {
    "0123456789"[d]
  }

  /** Decimal notation of `n`, as juce::String(int) writes it. */
  function DecimalString(n: nat): (r: string)
    ensures |r| > 0
    decreases n
  {
    if n < 10 then [DigitChar(n)] else DecimalString(n / 10) + [DigitChar(n % 10)]
  }

  /** The tag of the child record written for the effect at index `i`. */
  function EffectTag(i: nat): string {
    "EFFECT" + DecimalString(i)
  }

  /** One child of the saved tree. A property that is missing reads as the empty
      name, as `None` for the flags, and the processor's own state is not modelled. */
  datatype ChildRecord = ChildRecord(tag: string, name: string, active: Option<bool>, position: Option<int>)

  datatype StateTree = StateTree(
    tag: string,
    numEffects: int,
    sampleRate: Option<real>,
    blockSize: Option<int>,
    children: seq<ChildRecord>)

  /** The display name of each processor class: the label of its toolbar button
      and the name the restore factory recognises. */
  function DisplayName(k: EffectKind): string {
    match k
    case Delay => "Delay"
    case Reverb => "Reverb"
    case Distortion => "Distortion"
    case Chorus => "Chorus"
    case Equalizer => "EQ"
  }

  /** The restore factory: which processor class a stored name creates. */
  function KindForName(name: string): (r: Option<EffectKind>)
    ensures r.Some? ==> DisplayName(r.value) == name
  {
    if name == "Delay" then Some(Delay)
    else if name == "Reverb" then Some(Reverb)
    else if name == "Distortion" then Some(Distortion)
    else if name == "Chorus" then Some(Chorus)
    else if name == "EQ" then Some(Equalizer)
    else None
  }

  /** The factory recognises every display name, and nothing else. */
  lemma KindForNameInvertsDisplayName(k: EffectKind, name: string)
    ensures KindForName(DisplayName(k)) == Some(k)
    ensures KindForName(name) == Some(k) <==> name == DisplayName(k)
  {
  }

  /** The children `getStateInformation` writes: one per effect that is not being
      deleted, tagged with the effect's index. */
  function SaveRecords(es: seq<EffectNode>): (r: seq<ChildRecord>)
    ensures |r| <= |es|
    decreases |es|
  {
    if es == [] then []
    else
      var e := es[|es| - 1];
      SaveRecords(es[..|es| - 1]) +
        (if e.isBeingDeleted then []
         else [ChildRecord(EffectTag(|es| - 1), e.name, Some(e.isActive), Some(e.position))])
  }

  /** The tree `getStateInformation` writes. */
  function SaveTree(es: seq<EffectNode>, sampleRate: real, blockSize: int): StateTree {
    StateTree(RackTag, |es|, Some(sampleRate), Some(blockSize), SaveRecords(es))
  }

  /** What the rack keeps of an effect across a save and a restore. */
  datatype Restored = Restored(kind: EffectKind, name: string, isActive: bool, position: int)

  function Project(es: seq<EffectNode>): (r: seq<Restored>)
    ensures |r| == |es|
    ensures forall i :: 0 <= i < |es| ==>
      r[i] == Restored(es[i].kind, es[i].name, es[i].isActive, es[i].position)
  {
    seq(|es|, i requires 0 <= i < |es| => Restored(es[i].kind, es[i].name, es[i].isActive, es[i].position))
  }

  /** The child at index `i` is kept when it is tagged for index `i` and its name is
      one the factory knows; a missing `active` reads as true, a missing position as 0. */
  function Keep(c: ChildRecord, i: nat): Option<Restored> {
    if c.tag == EffectTag(i) then
      match KindForName(c.name)
      case Some(k) => Some(Restored(k, c.name, c.active.GetOr(true), c.position.GetOr(0)))
      case None => None
    else None
  }

  /** The effects `setStateInformation` rebuilds from the children, in order; every
      other child is skipped without error. */
  function RestoreList(cs: seq<ChildRecord>): (r: seq<Restored>)
    ensures |r| <= |cs|
    decreases |cs|
  {
    if cs == [] then []
    else
      RestoreList(cs[..|cs| - 1]) +
        (match Keep(cs[|cs| - 1], |cs| - 1)
         case Some(x) => [x]
         case None => [])
  }

  /** The restored effects, given graph node ids from `firstNode` on. */
  function Instantiate(rs: seq<Restored>, firstNode: nat): (r: seq<EffectNode>)
    ensures |r| == |rs|
    ensures forall i :: 0 <= i < |rs| ==>
      r[i] == EffectNode(firstNode + i, rs[i].kind, rs[i].name, rs[i].isActive, rs[i].position, false)
  {
    seq(|rs|, i requires 0 <= i < |rs| =>
      EffectNode(firstNode + i, rs[i].kind, rs[i].name, rs[i].isActive, rs[i].position, false))
  }

  lemma InstantiateProjects(rs: seq<Restored>, firstNode: nat)
    ensures Project(Instantiate(rs, firstNode)) == rs
    ensures Distinct(NodeIds(Instantiate(rs, firstNode)))
    ensures forall i :: 0 <= i < |rs| ==> firstNode <= NodeIds(Instantiate(rs, firstNode))[i] < firstNode + |rs|
  {
  }

  /** An effect is restored exactly when some child, at its own index, is kept as it. */
  lemma {:induction false} RestoreListMembers(cs: seq<ChildRecord>, x: Restored)
    ensures x in RestoreList(cs) <==> exists i :: 0 <= i < |cs| && Keep(cs[i], i) == Some(x)
    decreases |cs|
  {
    if cs != [] {
      var init := cs[..|cs| - 1];
      var last := |cs| - 1;
      RestoreListMembers(init, x);
      forall i | 0 <= i < |init| ensures init[i] == cs[i] {}
      if x in RestoreList(cs) && x !in RestoreList(init) {
        assert Keep(cs[last], last) == Some(x);
      }
      if exists i :: 0 <= i < |cs| && Keep(cs[i], i) == Some(x) {
        var i :| 0 <= i < |cs| && Keep(cs[i], i) == Some(x);
        if i == last {
          assert x in RestoreList(cs);
        } else {
          assert Keep(init[i], i) == Some(x);
        }
      }
    }
  }

  /** A child whose name the factory does not know, or whose tag is not the one for
      its index, is dropped wherever it stands, and the rest of the state is restored
      regardless: the restore does not fail on it, the children before it give what
      they gave without it, and every restored effect comes from another child. */
  lemma UnknownNameIsSkipped(cs: seq<ChildRecord>, k: nat)
    requires k < |cs| && (KindForName(cs[k].name) == None || cs[k].tag != EffectTag(k))
    ensures RestoreList(cs[..k + 1]) == RestoreList(cs[..k])
    ensures forall x :: x in RestoreList(cs) <==>
      exists i :: 0 <= i < |cs| && i != k && Keep(cs[i], i) == Some(x)
  {
    assert cs[..k + 1][..k] == cs[..k];
    forall x ensures x in RestoreList(cs) <==> exists i :: 0 <= i < |cs| && i != k && Keep(cs[i], i) == Some(x) {
      RestoreListMembers(cs, x);
    }
  }

  lemma {:induction false} RestoreAppend(cs: seq<ChildRecord>, c: ChildRecord)
    ensures RestoreList(cs + [c]) ==
      RestoreList(cs) + (match Keep(c, |cs|) case Some(x) => [x] case None => [])
  {
    assert (cs + [c])[..|cs|] == cs;
  }

  /** The record saved for a live, display-named effect at index `i` is kept at index `i`. */
  lemma KeepSavedRecord(e: EffectNode, i: nat)
    requires e.name == DisplayName(e.kind)
    ensures Keep(ChildRecord(EffectTag(i), e.name, Some(e.isActive), Some(e.position)), i)
      == Some(Restored(e.kind, e.name, e.isActive, e.position))
  {
    KindForNameInvertsDisplayName(e.kind, e.name);
  }

  /** Effects that report their display names survive a save and a restore with their
      class, name, flag and position, in order. */
  lemma {:induction false} RoundTrip(es: seq<EffectNode>)
    requires forall i :: 0 <= i < |es| ==> !es[i].isBeingDeleted && es[i].name == DisplayName(es[i].kind)
    ensures |SaveRecords(es)| == |es|
    ensures RestoreList(SaveRecords(es)) == Project(es)
    decreases |es|
  {
    if es != [] {
      var init := es[..|es| - 1];
      var e := es[|es| - 1];
      RoundTrip(init);
      var saved := SaveRecords(init);
      var c := ChildRecord(EffectTag(|init|), e.name, Some(e.isActive), Some(e.position));
      assert SaveRecords(es) == saved + [c];
      var x := Restored(e.kind, e.name, e.isActive, e.position);
      KeepSavedRecord(e, |init|);
      RestoreAppend(saved, c);
      assert Project(es) == Project(init) + [x];
    }
  }

  // ---------------------------------------------------------------------------
  // The names processors report to the rack

  /** `getName()` as the processors define it: Delay and Reverb return their own
      name, Distortion, Chorus and Equalizer return the plugin's name. */
  function ReportedNameAsWritten(k: EffectKind, pluginName: string): string {
    match k
    case Delay => "Delay"
    case Reverb => "Reverb"
    case _ => pluginName
  }

  /** `getName()` as evidently intended: every processor returns its display name. */
  function ReportedName(k: EffectKind): (r: string)
    ensures KindForName(r) == Some(k)
  {
    KindForNameInvertsDisplayName(k, DisplayName(k));
    DisplayName(k)
  }

  /** A Distortion followed by a Chorus, named as the processors name themselves. */
  function RackAsWritten(pluginName: string): seq<EffectNode> {
    [EffectNode(0, Distortion, ReportedNameAsWritten(Distortion, pluginName), true, 0, false),
     EffectNode(1, Chorus, ReportedNameAsWritten(Chorus, pluginName), true, 1, false)]
  }

  /** Whatever the plugin's name is, that rack does not survive a save and a restore:
      either the factory does not know the name and both effects are dropped, or it
      knows it and both come back as the same class. */
  lemma AsWrittenNamesDoNotRoundTrip(pluginName: string)
    ensures RestoreList(SaveRecords(RackAsWritten(pluginName))) != Project(RackAsWritten(pluginName))
  {
    var es := RackAsWritten(pluginName);
    var c0 := ChildRecord(EffectTag(0), pluginName, Some(true), Some(0));
    var c1 := ChildRecord(EffectTag(1), pluginName, Some(true), Some(1));
    assert es[..1][..0] == [];
    assert SaveRecords(es[..1]) == [c0];
    assert SaveRecords(es) == [c0, c1];
    assert [c0, c1][..1] == [c0];
    assert [c0][..0] == [];
    var restored := RestoreList([c0, c1]);
    assert restored == RestoreList([c0]) + (match Keep(c1, 1) case Some(x) => [x] case None => []);
    match KindForName(pluginName)
    case None =>
      assert |restored| == 0;
    case Some(k) =>
      assert restored == [Restored(k, pluginName, true, 0), Restored(k, pluginName, true, 1)];
      assert Project(es)[0].kind == Distortion && Project(es)[1].kind == Chorus;
  }

  /** With the intended names, every rack of live effects round-trips. */
  lemma CorrectedNamesRoundTrip(es: seq<EffectNode>)
    requires forall i :: 0 <= i < |es| ==> !es[i].isBeingDeleted && es[i].name == ReportedName(es[i].kind)
    ensures RestoreList(SaveRecords(es)) == Project(es)
  {
    RoundTrip(es);
  }
}
