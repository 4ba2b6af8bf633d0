# TonicAudioPlugin effect chain, modelled in Dafny

TonicAudioPlugin is a guitar-effects plugin. Its core keeps three views of the
same chain of effects in step:

- the **effect rack** (`EffectRack`), an audio processor that hosts one processor
  per effect in a processing graph and wires the graph input, every active effect
  in list order, and the graph output, two channels per hop;
- the **toolbar** (`ToolbarComponent`), one button per effect class, with a
  name-keyed map of `{isEnabled, position}` that decides the slot a newly shown
  effect goes to, and that drives the rack's order through
  `findEffectPosition` / `setEffectOrder` / `updateEffectOrder`;
- the **workspace** (`WorkspaceComponent`) and its column of parameter panels
  (`EffectParametersContainer`), which show one panel per visible effect and
  remember, per effect name, the slot its panel should return to.

The Dafny project models these four files:

- `ordering.dfy` (module `Ordering`): generic sequence tools used throughout. It
  holds a stable sort by an integer key, `RemoveAt`, `Move` (erase then insert, as
  `std::vector` does it), `IndexOf` and subsequences.
- `rack_model.dfy` (module `RackModel`): the rack's per-effect record and two
  specification functions. One is the re-ordering of records by `position`. The
  other is the signal path that `rebuildConnections` wires, against a routing
  oracle that accepts or refuses each connection.
- `rack_state.dfy` (module `RackState`): the tree of records that
  `getStateInformation` writes and `setStateInformation` reads back, and the
  factory that turns a stored name into a processor class.
- `effect_rack.dfy` (module `Effects`): the class `EffectRack`. Its fields are the
  `effects` vector, the ids of the effect nodes present in the graph, whether the
  input and output nodes exist, the connection list, the prepared and
  update-pending flags, the sample rate and the block size.
- `toolbar.dfy` (module `Toolbar`): the class `ToolbarComponent` over a rack. The
  `std::map` is a sequence of entries kept in ascending key order, which is the
  order the source iterates it in. Buttons are identified by the effect name they
  carry. The editor callbacks (`onEffectVisibilityChanged`, `onEffectReordered`)
  are returned as a list of notices.
- `parameters_container.dfy` (module `Panels`): the class
  `EffectParametersContainer`. It holds the ordered list of panels and the
  name-to-slot map.
- `workspace.dfy` (module `Workspace`): the class `WorkspaceComponent`. It owns a
  container and its own name-to-slot map.

Where a source file makes a side call that the model cannot see (the JUCE graph,
DSP, XML, base64, locks), the call becomes a parameter or a field. The graph's
decision to accept a connection is the `Oracle` the rack is built with. A node is
in the graph only when it is in the rack's node set.

## Model

| member | source | states |
|---|---|---|
| RackModel.Renumbered | Source/Effects/EffectRack.cpp:227-231 | every record's position becomes its index, and every other field is kept |
| RackModel.OrderedIsSortedRenumbering | Source/Effects/EffectRack.cpp:661-677 | `updateEffectOrder` leaves a permutation of the old records, sorted by their former position, renumbered 0 .. n-1 |
| RackModel.OrderedKeepsIndexed | Source/Effects/EffectRack.cpp:661-677 | when every position already equals its index, `updateEffectOrder` changes nothing |
| RackModel.OrderedIdempotent | Source/Effects/EffectRack.cpp:661-677 | running `updateEffectOrder` twice is the same as running it once |
| RackModel.AddedAppends | Source/Effects/EffectRack.cpp:189-206 | with contiguous positions, `addEffect` appends the new entry, active, at position n |
| RackModel.AddedHoldsNewEntry | Source/Effects/EffectRack.cpp:189-206 | after `addEffect`, the list is one longer and numbered 0 .. n; it holds the new active entry and every old entry renumbered |
| RackModel.AddedNames | Source/Effects/EffectRack.cpp:189-206 | after `addEffect`, a name is in the rack exactly when it was before or the new processor reports it |
| RackModel.LinkOutcome | Source/Effects/EffectRack.cpp:366-381 | a hop succeeds exactly when both channels are accepted, and it then adds both connections; a refused first channel adds nothing |
| RackModel.LinkFailureSticks | Source/Effects/EffectRack.cpp:366-381 | once a channel is refused, the channel loop stops, so further channels change nothing |
| RackModel.AcceptedChannelsMembers | Source/Effects/EffectRack.cpp:104-135 | the input-to-output wiring of `createBasicGraph` holds exactly the accepted channels 0 and 1; a refusal does not stop the loop |
| RackModel.BasicWiringIsHop | Source/Effects/EffectRack.cpp:104-135 | when both channels are accepted, the basic wiring is the full input-to-output hop |
| RackModel.Toggled | Source/Effects/EffectRack.cpp:299-342 | `setEffectActive` changes only the flag at that index, and keeps the change only when the rebuild succeeds |
| RackModel.WalkContinuesFromLast | Source/Effects/EffectRack.cpp:355-384 | the walk always continues from the last unit it connected, or from the input |
| RackModel.ChainFollowsListOrder | Source/Effects/EffectRack.cpp:355-384 | the connected units are a subsequence of the active effects, in list order |
| RackModel.CompleteIffNothingRejected | Source/Effects/EffectRack.cpp:344-419 | the walk reports no failure exactly when every active effect is on the chain |
| RackModel.ChainNoLongerThanActive | Source/Effects/EffectRack.cpp:344-419 | the chain is never longer than the active list, and it is strictly shorter after a refusal |
| RackModel.CleanWalkEdges | Source/Effects/EffectRack.cpp:355-384 | a walk without refusals made exactly the connections input -> chain, two channels per hop |
| RackModel.SuccessfulRebuildIsSignalPath | Source/Effects/EffectRack.cpp:344-419 | a successful rebuild wires exactly input, every active effect in list order, then output |
| RackModel.NoActiveEffectIsPassthrough | Source/Effects/EffectRack.cpp:344-419 | with no active effect, the rebuild wires the input straight to the output |
| RackModel.NoUnitTwice | Source/Effects/EffectRack.cpp:355-384 | with distinct node ids, no unit is connected twice |
| RackModel.RejectedUnitIsBypassed | Source/Effects/EffectRack.cpp:359-384 | a unit whose connections are refused is skipped; the others are chained in order with no stray connection, and a failure is reported exactly when that unit was active |
| RackModel.DetachedEffectsAreBypassed | Source/Effects/EffectRack.cpp:104-135 | after the graph is cleared, no effect node is in the graph, so the walk connects nothing |
| RackState.KindForName | Source/Effects/EffectRack.cpp:558-567 | the restore factory only recognises a display name, and it creates that display name's class |
| RackState.KindForNameInvertsDisplayName | Source/Effects/EffectRack.cpp:558-567 | the factory recognises exactly the five display names, each as its own class |
| RackState.SaveRecords | Source/Effects/EffectRack.cpp:476-518 | `getStateInformation` writes at most one child per effect |
| RackState.RestoreList | Source/Effects/EffectRack.cpp:548-594 | the restore creates at most one effect per child |
| RackState.Instantiate | Source/Effects/EffectRack.cpp:582-591 | restored effects take fresh node ids in order, with their class, name, flag and position |
| RackState.InstantiateProjects | Source/Effects/EffectRack.cpp:582-591 | instantiating keeps what was restored, and the node ids are distinct and in range |
| RackState.RestoreListMembers | Source/Effects/EffectRack.cpp:547-593 | an effect is restored exactly when some child, tagged for its own index and carrying a known name, is kept as it |
| RackState.UnknownNameIsSkipped | Source/Effects/EffectRack.cpp:547-593 | a child with an unknown name, or with a tag other than the one for its index, is dropped wherever it stands; the children before it restore as without it, and every restored effect comes from some other child |
| RackState.KeepSavedRecord | Source/Effects/EffectRack.cpp:548-594 | the record saved for a display-named effect at index i is restored at index i |
| RackState.RoundTrip | Source/Effects/EffectRack.cpp:476-594 | effects that report their display names survive a save and a restore with class, name, flag and position, in order |
| RackState.ReportedName | Source/Effects/Distortion.h:41 | every processor's intended `getName()` is a name the restore factory maps back to its own class |
| RackState.AsWrittenNamesDoNotRoundTrip | Source/Effects/Chorus.h:31 | a Distortion followed by a Chorus, named by the plugin's name, does not survive a save and a restore, whatever that name is |
| RackState.CorrectedNamesRoundTrip | Source/Effects/EffectRack.cpp:189-206 | with the intended names, every rack of live effects survives a save and a restore |
| Effects.Reminted | Source/Effects/EffectRack.cpp:622-629 | the rollback re-adds every old effect with a new node id, in order, and changes nothing else |
| Effects.EffectRack.constructor | Source/Effects/EffectRack.cpp:14-19 | a new rack is empty, unprepared and wired input to output, with the default sample rate and block size |
| Effects.EffectRack.CreateBasicGraph | Source/Effects/EffectRack.cpp:104-135 | the graph keeps only the endpoints, wired to each other on the accepted channels |
| Effects.EffectRack.ConnectChannels | Source/Effects/EffectRack.cpp:366-381 | one hop's channel loop appends the accepted connections and reports whether both were accepted |
| Effects.EffectRack.RebuildConnections | Source/Effects/EffectRack.cpp:344-419 | without endpoints the rebuild fails and changes nothing; otherwise the connections are exactly the rebuilt path |
| Effects.EffectRack.ConnectNodes | Source/Effects/EffectRack.cpp:137-146 | the connections are the rebuilt signal path; when the rebuild fails, the graph falls back to the endpoints wired to each other |
| Effects.EffectRack.UpdateGraph | Source/Effects/EffectRack.cpp:148-187 | an unprepared rack is not touched; a prepared one is rewired as `connectNodes` does it |
| Effects.EffectRack.PrepareToPlayAsWritten | Source/Effects/EffectRack.cpp:52-65 | the first `prepareToPlay` stores the rate and block size but leaves the wiring as it was |
| Effects.EffectRack.PrepareToPlay | Source/Effects/EffectRack.cpp:52-65 | `prepareToPlay` with the flag set first rewires the rack every time |
| Effects.EffectRack.ReleaseResources | Source/Effects/EffectRack.cpp:67-72 | the rack is no longer prepared |
| Effects.EffectRack.ProcessBlock | Source/Effects/EffectRack.cpp:74-102 | a pending update is applied once, when prepared, by a rebuild; otherwise nothing changes |
| Effects.EffectRack.UpdateGraphConnections | Source/Effects/EffectRack.cpp:684-695 | a pending update is applied by a rebuild and cleared |
| Effects.EffectRack.Renumber | Source/Effects/EffectRack.cpp:227-231 | the positions become the indices |
| Effects.EffectRack.UpdateEffectOrder | Source/Effects/EffectRack.cpp:661-677 | the effects are sorted by position, earlier entries first among equal positions (one of the orders an unstable sort may give), and renumbered 0 .. n-1 |
| Effects.EffectRack.AddEffect | Source/Effects/EffectRack.cpp:189-206 | a null processor changes nothing; otherwise a new active entry with a new node is added and an update is pending |
| Effects.EffectRack.RemoveEffect | Source/Effects/EffectRack.cpp:208-234 | an index out of range changes nothing; otherwise the entry and its node go, the rest is renumbered and rewired |
| Effects.EffectRack.MoveEffect | Source/Effects/EffectRack.cpp:236-268 | with two distinct valid indices the entry moves, the list is renumbered and the graph rewired; otherwise nothing changes |
| Effects.EffectRack.SetEffectActive | Source/Effects/EffectRack.cpp:299-342 | a valid index gets its flag set when the rebuild succeeds, and the connections are the rebuilt path of the resulting list |
| Effects.EffectRack.GetNumEffects | Source/Effects/EffectRack.cpp:270-274 | the number of effects |
| Effects.EffectRack.GetEffect | Source/Effects/EffectRack.cpp:276-287 | a node exactly for a valid index, namely that entry's node |
| Effects.EffectRack.IsEffectActive | Source/Effects/EffectRack.cpp:289-297 | true exactly for a valid index whose entry is active |
| Effects.EffectRack.GetEffectName | Source/Effects/EffectRack.cpp:421-429 | the entry's name for a valid index, the empty string otherwise |
| Effects.EffectRack.GetEffectOrder | Source/Effects/EffectRack.cpp:640-648 | the entry's position for a valid index, -1 otherwise |
| Effects.EffectRack.FindEffectPosition | Source/Effects/EffectRack.cpp:431-442 | the first index holding the name, or -1 exactly when no entry has it |
| Effects.EffectRack.SetEffectOrder | Source/Effects/EffectRack.cpp:650-659 | a valid index gets the new position, the list is sorted by position (earlier entries first among equal positions) and renumbered, and an update is pending; otherwise nothing changes |
| Effects.EffectRack.ClearEffects | Source/Effects/EffectRack.cpp:444-474 | no effect is left and the graph holds only the endpoints, wired to each other |
| Effects.EffectRack.GetStateInformation | Source/Effects/EffectRack.cpp:476-518 | the saved tree is tagged EFFECTRACK and holds at most one child per effect |
| Effects.EffectRack.RestoreChildren | Source/Effects/EffectRack.cpp:548-594 | the restored list, with fresh node ids, and their nodes in the graph |
| Effects.EffectRack.ReAddNodes | Source/Effects/EffectRack.cpp:622-629 | at the list level, every old effect gets a fresh node in the graph; who owns the processor is not modelled |
| Effects.EffectRack.Restore | Source/Effects/EffectRack.cpp:529-606 | a tagged state replaces the effects; the restore fails exactly when the prepared rack cannot be rewired |
| Effects.EffectRack.Rollback | Source/Effects/EffectRack.cpp:612-637 | at the list level, a failed restore brings the old list back, each effect on a fresh node; who owns the processor is not modelled |
| Effects.EffectRack.SetStateInformation | Source/Effects/EffectRack.cpp:520-638 | a tagged state whose effects can be wired replaces the effects; any other state (untagged, or unwirable on a prepared rack) leaves the old effects on fresh nodes; an untagged state keeps the sample rate and block size |
| Effects.RestoreBeforePrepareAsWritten | Source/Effects/EffectRack.cpp:52-65 | a Delay restored before the first `prepareToPlay` as written stays out of the signal path |
| Effects.RestoreBeforePrepare | Source/Effects/EffectRack.cpp:52-65 | with the flag set first, the Delay is wired between input and output |
| Effects.PreparedDelayIsWired | Source/Effects/EffectRack.cpp:344-419 | one active Delay in the graph is wired input -> Delay -> output |
| Toolbar.StrLessIrreflexive | Source/Components/ToolbarComponent.h:57 | the map's key order is irreflexive |
| Toolbar.StrLessTransitive | Source/Components/ToolbarComponent.h:57 | the map's key order is transitive |
| Toolbar.StrLessTotal | Source/Components/ToolbarComponent.h:57 | any two distinct keys are ordered |
| Toolbar.LookupAt | Source/Components/ToolbarComponent.cpp:227-228 | `find` returns the state stored under a present key |
| Toolbar.LookupAbsent | Source/Components/ToolbarComponent.cpp:227-228 | `find` returns nothing for an absent key |
| Toolbar.PutIsAssignment | Source/Components/ToolbarComponent.cpp:238 | map assignment sets the key, keeps every other key and keeps the key order |
| Toolbar.PutExisting | Source/Components/ToolbarComponent.cpp:238 | assigning to a present key rewrites that entry where it stands |
| Toolbar.MaxEnabled | Source/Components/ToolbarComponent.cpp:285-290 | the largest enabled position, or -1, is attained and bounds every enabled position |
| Toolbar.FirstFree | Source/Components/ToolbarComponent.cpp:296-312 | the first slot at or after p that no enabled entry holds |
| Toolbar.DisabledSlotIsReused | Source/Components/ToolbarComponent.cpp:282-313 | when the slot a disabled entry kept is held by no enabled entry and every lower slot is taken, that slot is the next one handed out |
| Toolbar.Ranked | Source/Components/ToolbarComponent.cpp:449-457 | writing positions from an order keeps every key and every flag |
| Toolbar.RankedKeysSorted | Source/Components/ToolbarComponent.cpp:449-457 | writing positions keeps the key order |
| Toolbar.RankedStep | Source/Components/ToolbarComponent.cpp:449-457 | one round of the loop is a map assignment to the entry of that name, or nothing |
| Toolbar.ButtonEntriesMatchButtons | Source/Components/ToolbarComponent.cpp:449-457 | after a drag, every key that names a button holds its button's index and every other key is as it was |
| Toolbar.EnabledEntriesMembers | Source/Components/ToolbarComponent.cpp:358-371 | the first pass collects exactly the enabled entries |
| Toolbar.ConsecutiveStep | Source/Components/ToolbarComponent.cpp:365-369 | the gap test continues a run 0 .. n-1 exactly when the next position is n |
| Toolbar.GapPersists | Source/Components/ToolbarComponent.cpp:365-369 | once a gap is seen, it is never forgotten |
| Toolbar.RankingMembers | Source/Components/ToolbarComponent.cpp:377-380 | the sorted list holds enabled entries of the map, sorted by position |
| Toolbar.RankingOfEntry | Source/Components/ToolbarComponent.cpp:377-400 | an entry is ranked exactly when it is enabled, and its rank points back at it |
| Toolbar.NormalizedAt | Source/Components/ToolbarComponent.cpp:382-400 | a disabled entry is untouched; an enabled one keeps everything but its position, which becomes its rank |
| Toolbar.NormalizedKeepsEntries | Source/Components/ToolbarComponent.cpp:382-400 | normalisation keeps the keys, their order and every flag |
| Toolbar.NormalizedIsContiguous | Source/Components/ToolbarComponent.cpp:352-420 | afterwards the k enabled entries hold the positions 0 .. k-1, one each |
| Toolbar.NormalizedKeepsOrder | Source/Components/ToolbarComponent.cpp:377-400 | normalisation keeps the relative order of the enabled entries |
| Toolbar.ConsecutiveIsNormalized | Source/Components/ToolbarComponent.cpp:373-375 | the early return loses nothing: such a map is already normalised |
| Toolbar.RankingStep | Source/Components/ToolbarComponent.cpp:383-391 | one round of the second pass assigns the entry at rank i position i |
| Toolbar.MoveNotices | Source/Components/ToolbarComponent.cpp:405-419 | the intended notices are exactly one per enabled entry whose position changed, from the old to the new |
| Toolbar.AsWrittenNeverNotifies | Source/Components/ToolbarComponent.cpp:408-418 | the notification loop as written never sends a notice |
| Toolbar.MoveNoticesReportMoves | Source/Components/ToolbarComponent.cpp:405-419 | every entry that normalisation moves gets an intended notice from its old to its new position |
| Toolbar.MovesGoUnreported | Source/Components/ToolbarComponent.cpp:405-419 | whenever normalisation moves an entry, the intended loop reports it and the loop as written does not |
| Toolbar.GapGoesUnreported | Source/Components/ToolbarComponent.cpp:405-419 | one enabled effect at position 1 is moved, and the loop as written does not report it |
| Toolbar.AsWrittenAddIsNotPlaced | Source/Components/ToolbarComponent.cpp:240-246 | a Distortion, Chorus or EQ added under the plugin's name is not found by its display name, so the rack is left as `addEffect` made it |
| Toolbar.CorrectedAddIsPlaced | Source/Components/ToolbarComponent.cpp:240-246 | with display names, the look-up after adding finds the new entry and the rack is re-ordered around it |
| Toolbar.TruncDivMonotone | Source/Components/ToolbarComponent.cpp:348 | C++ division truncated toward zero is monotone in the dividend |
| Toolbar.ButtonHeight | Source/Components/ToolbarComponent.cpp:343-344 | a button is at least 60 high and at least 15% of the width |
| Toolbar.Spacing | Source/Components/ToolbarComponent.cpp:345 | the gap is between 0 and the button height |
| Toolbar.ReportMoves | Source/Components/ToolbarComponent.cpp:405-419 | the notification loop as evidently intended, reading each old position from the collected list, sends exactly one notice per moved entry, from its old to its new position |
| Toolbar.ToolbarComponent.ReportMovesAsWritten | Source/Components/ToolbarComponent.cpp:405-419 | the notification loop as written compares each rank with the position it reads back from the current map |
| Toolbar.ToolbarComponent.constructor | Source/Components/ToolbarComponent.cpp:18-222 | five buttons in the order Delay, Distortion, Reverb, Chorus, EQ, an empty map, width 200 and the plugin's name kept |
| Toolbar.ToolbarComponent.FindNextAvailablePosition | Source/Components/ToolbarComponent.cpp:282-313 | the smallest non-negative slot that no enabled entry holds |
| Toolbar.ToolbarComponent.RepositionInRack | Source/Components/ToolbarComponent.cpp:394-398 | the rack entry of that name, if any, takes the slot as its position and the rack is re-sorted and renumbered, so it need not end at that index; an update is pending exactly when the entry exists |
| Toolbar.ToolbarComponent.MoveInRack | Source/Components/ToolbarComponent.cpp:241-246 | the same move followed by a re-order, which finds the rack already in order |
| Toolbar.ToolbarComponent.SaveEffectState | Source/Components/ToolbarComponent.cpp:224-253 | an enabled entry is left alone; otherwise it is written enabled at the slot, the rack follows, and a new panel is reported |
| Toolbar.ToolbarComponent.TurnOn | Source/Components/ToolbarComponent.cpp:23-213 | each button's "on" handler re-enables a disabled entry (Reverb, Chorus, EQ) or adds a processor under the name it reports (the plugin's name for Distortion, Chorus and EQ) and saves its state at the smallest free slot |
| Toolbar.ToolbarComponent.TurnOff | Source/Components/ToolbarComponent.cpp:23-213 | each button's "off" handler disables the entry and reports it hidden; only Delay also switches its rack entry off |
| Toolbar.ToolbarComponent.RestoreEffectState | Source/Components/ToolbarComponent.cpp:255-280 | a present entry is enabled again at its slot, the rack follows, and visibility then position are reported |
| Toolbar.ToolbarComponent.GetButtonInsertIndex | Source/Components/ToolbarComponent.cpp:340-350 | the drop slot is between 0 and the number of buttons |
| Toolbar.ToolbarComponent.CollectEnabled | Source/Components/ToolbarComponent.cpp:354-371 | the enabled entries in key order, and a gap flag set exactly when their positions do not run 0, 1, 2, ... |
| Toolbar.ToolbarComponent.AssignRanks | Source/Components/ToolbarComponent.cpp:382-400 | the map is normalised and each moved entry re-positions its rack entry |
| Toolbar.ToolbarComponent.NormalizePositions | Source/Components/ToolbarComponent.cpp:352-420 | the map is normalised; with a gap the rack entries of the moved names are re-positioned and the rack re-ordered, without one the rack is untouched; no notice is sent in either case, because the loop reads the map it has just rewritten |
| Toolbar.ToolbarComponent.FindButton | Source/Components/ToolbarComponent.cpp:424-435 | the index of the dragged button, or -1 |
| Toolbar.ToolbarComponent.AssignButtonPositions | Source/Components/ToolbarComponent.cpp:448-457 | every entry that names a button takes that button's index |
| Toolbar.ToolbarComponent.ReorderButtons | Source/Components/ToolbarComponent.cpp:422-472 | the button moves, the map follows the button order, the dragged entry lands at the new slot, the rack follows, and the move is reported |
| Toolbar.InsertIndexMonotone | Source/Components/ToolbarComponent.cpp:340-350 | a lower drop never gives an earlier slot |
| Toolbar.InsertIndexAtSlot | Source/Components/ToolbarComponent.cpp:340-350 | a drop at the top of the k-th button's cell gives slot k |
| Panels.Numbered | Source/Components/EffectParametersContainer.cpp:106-114 | every panel's position becomes its index, and names and order are kept |
| Panels.RecordsStep | Source/Components/EffectParametersContainer.cpp:109-113 | one round of `updatePositions` records one more panel's index |
| Panels.EffectParametersContainer.constructor | Source/Components/EffectParametersContainer.cpp:3-6 | an empty column with an empty map |
| Panels.EffectParametersContainer.UpdatePositions | Source/Components/EffectParametersContainer.cpp:106-114 | panels are renumbered; the map holds every panel's index and keeps every other key |
| Panels.EffectParametersContainer.FindComponentIndex | Source/Components/EffectParametersContainer.cpp:116-126 | the first index with that name, or -1 exactly when there is none |
| Panels.EffectParametersContainer.AddEffectParameters | Source/Components/EffectParametersContainer.cpp:22-44 | a present name changes nothing; a new one is appended enabled at the end, and only its key is set in the map |
| Panels.EffectParametersContainer.RemoveEffectParameters | Source/Components/EffectParametersContainer.cpp:46-66 | the panel goes, the rest is renumbered in order, and the name keeps the index it had |
| Panels.EffectParametersContainer.ReorderEffects | Source/Components/EffectParametersContainer.cpp:68-89 | with two distinct valid indices the panel moves and all are renumbered; otherwise nothing changes |
| Panels.EffectParametersContainer.SetEffectEnabled | Source/Components/EffectParametersContainer.cpp:128-135 | only that panel's enabled flag changes |
| Panels.EffectParametersContainer.GetMinimumHeight | Source/Components/EffectParametersContainer.cpp:137-145 | 0 for an empty column, otherwise 215 per panel plus 25 |
| Panels.NumberedAppend | Source/Components/EffectParametersContainer.cpp:38-41 | renumbering after an append changes only the new last panel |
| Panels.AppendRecordsOne | Source/Components/EffectParametersContainer.cpp:35-41 | the map changes only at the new name, which holds the last index |
| Panels.RemoveAtNames | Source/Components/EffectParametersContainer.cpp:56-59 | removing a panel removes its name and keeps the names distinct |
| Panels.MovedNames | Source/Components/EffectParametersContainer.cpp:75-81 | moving a panel moves its name the same way and keeps the names distinct |
| Workspace.Reinserted | Source/Components/WorkspaceComponent.cpp:60-68 | a new panel lands at its remembered slot when that slot is in the grown column, and last otherwise; the others keep their order |
| Workspace.SettledPlaces | Source/Components/WorkspaceComponent.cpp:122-132 | `updateEffectPosition` neither loses nor adds a panel, and a shown name asked to sit at a valid slot ends up there |
| Workspace.WorkspaceComponent.constructor | Source/Components/WorkspaceComponent.cpp:13-27 | an empty column and an empty map |
| Workspace.WorkspaceComponent.GetEffectPosition | Source/Components/WorkspaceComponent.cpp:117-120 | the panel's index in the column, or -1 |
| Workspace.WorkspaceComponent.UpdateEffectPosition | Source/Components/WorkspaceComponent.cpp:122-132 | the slot is remembered, and a panel of that name moves to it when the slot is valid |
| Workspace.WorkspaceComponent.AddEffectParameters | Source/Components/WorkspaceComponent.cpp:60-68 | a new panel is inserted at its remembered slot; a never-seen name takes the count of remembered names as its slot |
| Workspace.WorkspaceComponent.RemoveEffectParameters | Source/Components/WorkspaceComponent.cpp:70-81 | the panel's index is remembered and the panel leaves; the others keep their order |
| Workspace.WorkspaceComponent.SetEffectEnabled | Source/Components/WorkspaceComponent.cpp:83-98 | only the flag changes; disabling also remembers the panel's index |
| Workspace.WorkspaceComponent.ReorderEffects | Source/Components/WorkspaceComponent.cpp:100-115 | the column is reordered, and afterwards every shown panel's remembered slot is its index |
| Workspace.WorkspaceComponent.RefreshPositions | Source/Components/WorkspaceComponent.cpp:104-112 | every remembered name with a panel takes that panel's index; the other names and the key set stay |
| Workspace.AppendThenSettle | Source/Components/WorkspaceComponent.cpp:60-68 | appending a new name and then moving it to slot p inserts it at p |
| Workspace.ReAddRestoresOrder | Source/Components/WorkspaceComponent.cpp:70-81 | removing a shown effect and showing it again gives back the same column |

## Left out

- JUCE itself is not part of this model: the audio graph's DSP, the
  per-processor `prepareToPlay`/`setPlayConfigDetails` calls, the locks, and the
  XML and base64 encoding of the state. The graph's choice to accept a connection
  is the `Oracle` parameter, and a failed `addNode` is not modelled.
- `rebuildConnections` calls `graph.getConnections().clear()`. The model starts
  each rebuild from an empty connection list. Whether the library's call clears
  the graph's own list is a property of the library, not of this code.
- Exceptions are not modelled as such. The `catch` blocks that rebuild the basic
  graph in `updateGraph` and `moveEffect` are left out. The throw-and-rollback of
  `setStateInformation` is modelled as a failure flag returned by `Restore` and
  tested in `SetStateInformation`.
- The null checks on `effect.node` and `getProcessor()` are left out: every
  modelled entry owns a node. The processor pointers themselves are dropped, and
  entries, buttons and panels are identified by effect name.
- The processor's own state inside a saved child (`processorState`) is left out.
- `isBeingDeleted` is modelled as a field, and the save skips entries that have
  it. It is never left set, because removal is not concurrent here.
- `getEffectOrder()` returns the `effectOrder` vector, which nothing ever fills.
  It is left out, together with `getButtonOrder`.
- Layout is left out: `paint`, `resized`, `updateButtonPositions`,
  `updateComponentBounds` and the workspace viewport. `resized` only derives
  bounds from `getMinimumHeight`, which is modelled.
- Toolbar.ToolbarComponent.GetButtonInsertIndex: the float factors 0.15 and 0.2
  are applied in exact integer arithmetic (`width*15/100`, `h*2/10`). For very
  large widths this can differ from single-precision rounding by one.
- Callbacks are assumed to be set: `onEffectVisibilityChanged` and
  `onEffectReordered` always receive the notices.
- `std::sort` in `normalizePositions` is not stable. The model sorts the
  collected entries stably, in key order among equal positions, which is one of
  the orders it may produce.
- Effects.EffectRack.UpdateEffectOrder: `std::sort` is not stable, so the order
  of entries with equal positions is unspecified. The model keeps the earlier
  entry first, which is one of the orders it may produce; it does not promise
  the others.
- Effects.EffectRack.SetEffectOrder: the same tie order applies, because it
  re-sorts the list. So do the toolbar members that re-position the rack
  (`RepositionInRack`, `MoveInRack`, `SaveEffectState`, `RestoreEffectState`,
  `TurnOn`, `AssignRanks`, `NormalizePositions`, `ReorderButtons`).
- Effects.EffectRack.Rollback: processor ownership is not modelled. `ReAddNodes`
  gives every old effect a fresh node at the list level. The source wraps the old
  node's processor in a second `unique_ptr` while the old node, still held by
  the moved-back list, owns it too. This likely leaves the restored effects on
  processors that the library frees.
- The `operator[]` reads in `normalizePositions` could insert a default entry.
  They are modelled as lookups, because every name they read comes from the map.
- Toolbar.ToolbarComponent.NormalizePositions: the rack's update-pending flag is
  stated only as never cleared. Whether it is set depends on whether a moved name
  is found in the rack.
- Workspace.WorkspaceComponent.RefreshPositions: the source loops over the map
  in key order. The model takes the keys in an arbitrary order. The result does
  not depend on the order, because each key is written once, from the column.
- The container's own name-to-slot map is kept and specified. Its stored
  position never decides where a panel goes, because `updatePositions` rewrites
  every position. The workspace's map is the one that restores slots.
- Workspace.WorkspaceComponent.UpdateEffectPosition: it requires that every
  shown name except the one being placed already has a remembered slot. This
  always holds inside `addEffectParameters`, its only caller.

## Findings

| source | as written | input that shows it | evidently intended | confidence | as-written member | corrected member |
|---|---|---|---|---|---|---|
| Source/Components/ToolbarComponent.cpp:408-418 | the notification loop reads each effect's old position from the map after line 391 has already overwritten it, so `oldPosition != newPosition` never holds | one enabled effect at position 1 (a gap at 0): normalisation moves it to 0 and no `onEffectReordered(1, 0)` is sent | report every move, reading the old position from the collected list | high, not executed | Toolbar.GapGoesUnreported | Toolbar.MoveNoticesReportMoves |
| Source/Effects/Distortion.h:41 | Distortion, Chorus and Equalizer return `JucePlugin_Name` from `getName()`, and the rack stores that as the effect's name | a rack holding a Distortion and a Chorus, saved and restored: both names are the plugin's name, so the factory drops both or makes both the same class | each processor returns its display name ("Distortion", "Chorus", "EQ"), which the factory and the toolbar look up | high, not executed | RackState.AsWrittenNamesDoNotRoundTrip | RackState.CorrectedNamesRoundTrip |
| Source/Components/ToolbarComponent.cpp:240-246 | `saveEffectState` looks the new effect up by its display name, but Distortion, Chorus and EQ joined the rack under the plugin's name (Source/Effects/EffectRack.cpp:198) | turning Distortion on when the free slot is 0 and Delay is in the rack: the rack keeps Distortion last, while the map and the `onEffectReordered(-1, 0)` notice put it at 0 | each processor reports its display name, so the look-up finds it and the rack is re-ordered | high, not executed | Toolbar.AsWrittenAddIsNotPlaced | Toolbar.CorrectedAddIsPlaced |
| Source/Effects/EffectRack.cpp:52-65 | `prepareToPlay` calls `updateGraph()` before setting `isPrepared`, so on the first call `updateGraph` returns early and nothing is wired | a state with one active Delay restored before the host's first `prepareToPlay`, then one `processBlock`: the audio runs input -> output and the Delay is bypassed | set `isPrepared` before `updateGraph()`, so the first preparation wires the restored effects | medium, not executed | Effects.RestoreBeforePrepareAsWritten | Effects.RestoreBeforePrepare |
