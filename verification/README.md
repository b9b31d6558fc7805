# A verified model of the GitOps recovery core

This project models, in Dafny 4.11, the parts of a GitOps recovery tool that keep one promise:
nothing changes except what was approved. It covers six connected cores.

1. **Scalar patching** (`Json`, `Sets`, `Text`, `FieldPath`, `Location`, `ObjectPath`, `Replacements`, `PatchPlan`,
   `Splice`, `NodeTree`, `Materialize`). Dotted field paths with `[name=...]` selectors are parsed and printed.
   They resolve to concrete locations in a parsed manifest. Successive writes are shown to be one simultaneous
   substitution, the walk over the YAML node tree simulates the walk over the loaded object, and the
   right-to-left splice of the source text is the simultaneous substitution of its spans. On top of these: when a
   stored rollback is an exact inverse.
2. **Diff and merge authorization** (`Diffing`, `Projection`, `RecoveryMerge`, `Authorization`). The three-way
   comparison of managed fields, the projection of approved scalars onto a field, and the end-to-end guarantee
   about what an accepted recovery diff can ask of a cluster.
3. **Kustomize sources** (`KustomizeGraph`, `JsonPatch`, `PatchOwnership`, `MergeOwnership`). The bounded worklist over
   a possibly cyclic reference graph computes a least closure; when a patch reported as not owning a field leaves it
   alone.
4. **State machines** (`WorkflowRuns`, `WorkflowStore`, `RecoveryPr`, `RecoveryPrHandler`, `Snapshots`). Rank-guarded
   workflow rows under redelivery and reordering, the recovery pull-request protocol over all interleavings of its
   handlers, and approved snapshots. A table is a map from its unique key, and each SQL statement or transaction is
   one atomic step.
5. **Access** (`Access`). The one-statement resource query against the step-by-step check, over tables of rows with
   their unique constraints.
6. **Evidence and codecs** (`Coverage`, `EventKey`, `Events`, `Base64`, `Cursor`). When absence proves deletion,
   when Kubernetes Event facts are emitted exactly once, and the signed cursor token.

`dafny verify dfyconfig.toml` checks the whole project.

Modelling conventions. A parsed document is the datatype `Json`. Python's `==` is `PyEq`, under which
`True == 1 == 1.0` also inside containers; `same_scalar` is the type-exact `SameScalar`. Exceptions are `Option` or
`Result` values. A location (`Loc`) is a list of map keys and list indices; a path resolves to at most one location.
Foreign code is a parameter: the YAML library (`Materialize.Yaml`), JSON text and signatures (`Cursor.Codec`),
`str()` and `casefold()` (`Authorization.Python`, `MergeOwnership.Library`), and how a merge patch treats lists
(`MergeOwnership.Lists`).

Where the code does not do what its documentation or an obvious reading promises, the model follows the code, a lemma
gives the concrete failing case, and another states exactly when the promise holds:

- A `selector_fix` plan may rename the item its own path selects; its stored rollback is then refused
  (`PatchPlan.SelectorFixCanRename`, `PatchPlan.PlanRollbackIff`).
- A field whose path selects the item that an approved change below it renames no longer reads by that path after the
  same change is made in the whole manifest (`Projection.OwnRenameLosesParent`, `Projection.ProjectionCommutes`).
- A JSON Patch that writes inside a list is reported as not owning a field that selects from that list, even where it
  changes the field (`PatchOwnership.MissedPatch`, `PatchOwnership.ListIsMissed`, `PatchOwnership.MissedWriteIff`).
- A merge patch that sets a parent of a protected field to null, or that states another identity than the resource its
  declared target selects, is reported as not owning the field (`MergeOwnership.NullParentDeletes`,
  `MergeOwnership.BareNullParentDeletes`, `MergeOwnership.ForeignIdentitySets`,
  `MergeOwnership.NonOwningMappingKeepsIff`).
- The status test of the plan update is documented to stop a stale webhook from moving a later recovery attempt. It
  does not once the plan was reopened (`RecoveryPr.StaleMergeTakesOver`, `RecoveryPr.StaleWinIff`). A test that also
  compares the stored tracking time would (`RecoveryPr.TellingTestNeverStale`).
- The list of accessible resources ignores organization membership, which the check requires
  (`Access.FormerMemberStillListed`, `Access.AgreeIff`).
- An Event observation first held by an authoritative but stale capture is never emitted (`Events.StaleFirstIsMissed`,
  `Events.MissedIff`), and after 128 incomplete captures every current one is emitted again
  (`Events.GapEmitsAgain`, `Events.ExactlyOnceIff`).
- A `name` that loads as a number is found by the node walk and not by the object walk (`NodeTree.NumericNameDiffers`,
  `NodeTree.SelectorsAgreeIff`).
- Two workflow deliveries with different terminal statuses, and two snapshots with equal completion times, are decided
  by their order (`WorkflowRuns.OrderIrrelevantIff`, `Snapshots.SwapIff`).

`approved_change_matches_diff` iterates a set. Taken alone, its answer depends on the order where an approved change
renames the item its own path selects (`Projection.RenameOrderDecides`). Its only caller has tested before that the
manifest holds every approved value, and then no approved change does so (`Authorization.HeldNoRenames`).

## Model

| member | source | states |
|---|---|---|
| `Json.PyEqIsNormEquality` | src/domains/gitops/source_patch.py:355-356 | Python equality of documents is equality of a canonical form, so it is an equivalence that looks through numbers and Booleans |
| `FieldPath.FieldPathParts` | src/domains/gitops/source_patch.py:848-865 | the depth-counting loop computes the split at top-level dots, and rejects unbalanced brackets |
| `FieldPath.FieldPathSegments` | src/domains/gitops/source_patch.py:835-845 | the loop over the parts computes the segments, empty exactly when some part is malformed |
| `FieldPath.PrintOfSegments` | src/domains/gitops/source_patch.py:835-865 | printing the segments of any accepted path gives the path back, and every such segment is well formed |
| `FieldPath.SegmentsOfPrint` | src/domains/gitops/source_patch.py:835-865 | parsing the print of any well-formed segment list gives the list back |
| `FieldPath.SegmentsInjective` | src/domains/gitops/source_patch.py:835-865 | distinct accepted paths have distinct segment lists |
| `FieldPath.AtomicPartWellFormed` | src/domains/gitops/source_patch.py:33-33 | within an accepted path a selector never holds a bracket, although the segment pattern alone would allow one |
| `FieldPath.SegmentsOfDotted` | src/domains/gitops/source_patch.py:835-865 | with an accepted right side, a dotted concatenation is accepted exactly when its left side is, and its segments are the two lists appended |
| `FieldPath.RemainderParses` | src/domains/gitops/source_patch.py:835-865 | an accepted path below an accepted path has an accepted remainder |
| `ObjectPath.ObjectValueAt` | src/domains/gitops/source_patch.py:868-885 | the walk returns the value at the location its path resolves to, and fails on a missing or ambiguous step |
| `ObjectPath.SetIsPut` | src/domains/gitops/source_patch.py:888-910 | where the path resolves, the nested write is a write at that location, and is refused for a final selector |
| `ObjectPath.ResolveInjective` | src/domains/gitops/source_patch.py:868-885 | two paths that resolve to the same place are the same path |
| `ObjectPath.ResolveStable` | src/domains/gitops/source_patch.py:868-910 | a scalar write over a scalar moves no path, unless it writes the name of a list item |
| `ObjectPath.GetAfterSet` | src/domains/gitops/source_patch.py:868-910 | reading back a written path gives the written value exactly unless the write renames the item the path selects to another name |
| `ObjectPath.SetFrame` | src/domains/gitops/source_patch.py:868-910 | writing one scalar leaves the value of every other scalar path alone |
| `Replacements.ApplyIsOverlay` | src/domains/gitops/source_patch.py:787-804 | writing all replacements one after another is one simultaneous substitution at their places in the original, and moves no path |
| `Replacements.AppliesIffReads` | src/domains/gitops/source_patch.py:787-804 | a list without renames applies exactly when every replacement reads its current value in the original |
| `Replacements.AppliedValue` | src/domains/gitops/source_patch.py:787-804 | afterwards every replaced path holds its desired value, at its old place |
| `Replacements.ApplyOrderIrrelevant` | src/domains/gitops/source_patch.py:787-804 | any order of the same replacements gives the same document |
| `Replacements.RollbackRestores` | src/domains/gitops/source_patch.py:311-348 | applying the inverse list in any order restores the original document exactly when nothing was renamed, and is refused otherwise |
| `PatchPlan.AllowedPathNeverRenames` | src/domains/gitops/source_patch.py:359-397 | every action but `selector_fix` only allows paths that cannot rename a selected item |
| `PatchPlan.ValidPlanInverts` | src/domains/gitops/source_patch.py:311-348 | in a valid plan the rollback list undoes the replacement list path by path |
| `PatchPlan.PlanRollbackExact` | src/domains/gitops/source_patch.py:311-397 | for every action but `selector_fix`, forward then rollback of a valid plan restores the manifest |
| `PatchPlan.PlanRollbackIff` | src/domains/gitops/source_patch.py:311-397 | for every action, the rollback restores the manifest exactly when no replacement renames its selected item, and is refused otherwise |
| `PatchPlan.SelectorFixCanRename` | src/domains/gitops/source_patch.py:359-397 | a concrete valid `selector_fix` plan for a Deployment applies and its rollback is refused |
| `Splice.SpliceSpans` | src/domains/gitops/source_patch.py:806-810 | the sorted right-to-left loop yields, for disjoint distinct spans within the source, the simultaneous substitution of all of them |
| `Splice.CutAllIsSubstitute` | src/domains/gitops/source_patch.py:514-518 | cutting from right to left is substituting from left to right |
| `Splice.SubstituteLength` | src/domains/gitops/source_patch.py:649-653 | the result is as long as the source plus the sum of the size differences |
| `Splice.SubstituteOutside` | src/domains/gitops/source_patch.py:649-653 | every character outside the spans is kept, moved by the growth before it |
| `Splice.SubstituteInside` | src/domains/gitops/source_patch.py:649-653 | every span's replacement stands where the span was, moved by the growth before it |
| `NodeTree.WalkNodes` | src/domains/gitops/source_patch.py:913-935 | the loop over the node tree computes the node walk, failing on a missing or ambiguous step |
| `NodeTree.WalksAgree` | src/domains/gitops/source_patch.py:913-961 | on documents with unique string keys and string names the node walk succeeds exactly when the object walk does, at the same location |
| `NodeTree.WalkSimulates` | src/domains/gitops/source_patch.py:868-885 | the selected node constructs to the value the object walk reads |
| `NodeTree.ScalarSpansDisjoint` | src/domains/gitops/source_patch.py:913-961 | different paths to scalars select leaves whose spans neither overlap nor touch |
| `NodeTree.SelectionsAgreeIff` | src/domains/gitops/source_patch.py:924-934 | in any list and for any selector text both walks enter the same item, or neither enters one, exactly when being the only item written with that name and being the only item loaded with it coincide |
| `NodeTree.SelectorsAgreeIff` | src/domains/gitops/source_patch.py:913-935 | hence for a selecting segment at any mapping with string keys the two walks take the same step exactly under that condition |
| `NodeTree.NumericNameDiffers` | src/domains/gitops/source_patch.py:924-934 | an item whose name loads as anything but its own text, such as a number, is entered by the node walk and not by the object walk |
| `Materialize.CollectSpans` | src/domains/gitops/source_patch.py:787-804 | the loop succeeds exactly when every replacement reads, has an encodable leaf and can be written, and returns the expected document and the spans |
| `Materialize.SpansFit` | src/domains/gitops/source_patch.py:795-806 | on a coherent document the spans of different paths lie in the source, apart from each other and with different bounds, so the overlap test never refuses a list there |
| `Materialize.MaterializeReplacements` | src/domains/gitops/source_patch.py:766-813 | it fails unless the source loads, matches its digest and has well-placed targets, and then returns the splice exactly when that re-reads as the expected document |
| `Materialize.MaterializedIsSubstitution` | src/domains/gitops/source_patch.py:766-813 | a materialised patch is the source with the leaf of each replaced path rewritten and every other character kept |
| `Materialize.ReadableHasLeaf` | src/domains/gitops/source_patch.py:787-803 | on a coherent document every replacement that reads its current value has a scalar leaf holding it |
| `Materialize.ApplyRespectsEq` | src/domains/gitops/source_patch.py:787-813 | documents equal in Python's sense stay equal under the same replacements |
| `Materialize.PatchThenRollback` | src/domains/gitops/source_patch.py:735-763 | for every valid plan and any library behaviour, a materialised patch followed by its materialised rollback loads as the original manifest |
| `Diffing.MatchesIsPartialOrder` | src/domains/gitops/diffing.py:195-218 | declared-matches-live is reflexive and transitive, and holds both ways exactly for equal values |
| `Diffing.CompareManagedFields` | src/domains/gitops/diffing.py:98-129 | the loop returns, sorted by path, exactly the classified changes of the governed paths that are not `no_change` |
| `Diffing.NoChangesIff` | src/domains/gitops/diffing.py:98-145 | there are no changes exactly when the three governed maps have the same paths, old equals new, new matches live and no declared value is the absence marker |
| `Diffing.DefaultingKeepsNoChanges` | src/domains/gitops/diffing.py:174-218 | an empty diff stays empty under any further server defaulting of live on the same paths |
| `Diffing.DefaultingKeepsClass` | src/domains/gitops/diffing.py:174-218 | server defaulting never turns a settled or an intended field into drift or conflict |
| `Diffing.UnchangedDeclaration` | src/domains/gitops/diffing.py:174-192 | an unchanged declaration is drift exactly when live does not satisfy it |
| `Projection.ProjectedParentValue` | src/domains/gitops/recovery_merge.py:80-103 | the loop computes the projection of the approved changes below the parent, failing on a value that is not the approved current one |
| `Projection.ProjectIsApply` | src/domains/gitops/recovery_merge.py:80-103 | checking each value as it is projected is the same as checking all of them up front |
| `Projection.ProjectOrderIrrelevant` | src/domains/gitops/recovery_merge.py:80-103 | the order in which approved changes are projected is irrelevant |
| `Projection.ProjectRefusesRename` | src/domains/gitops/recovery_merge.py:80-103 | a change of a selected item's name that does not start from the selected name is refused wherever it stands |
| `Projection.RenameOrderDecides` | src/domains/gitops/recovery_merge.py:80-103 | of a change that renames its selected item and any other change of that item, both readable, the rename can be projected last and not first |
| `Projection.Untouched` | src/domains/gitops/recovery_merge.py:80-103 | every scalar other than the replaced ones keeps its value |
| `Projection.AppliedKeepsPlaces` | src/domains/gitops/recovery_merge.py:80-103 | no place of the document is added or removed |
| `Projection.ProjectionCommutes` | src/domains/gitops/recovery_merge.py:80-103 | updating the whole manifest by full paths never succeeds where projecting onto the subtree at the parent path fails; where the projection succeeds, the parent then reads the projected value exactly if no update renames the item the parent path selects |
| `Projection.OwnRenameLosesParent` | src/domains/gitops/recovery_merge.py:80-103 | for every manifest and parent path ending in a selector: renaming the selected item succeeds both ways, and the parent path then reads nothing |
| `RecoveryMerge.ApprovedChangeContract` | src/domains/gitops/recovery_merge.py:45-70 | the loop returns the approved scalars by distinct path when every raw change is well formed, and nothing exactly when no contract exists |
| `RecoveryMerge.ApprovedChangeMatchesDiff` | src/domains/gitops/recovery_merge.py:106-165 | it answers as some iteration order of the matched set does, with the approved paths of that field as scope; unless an approved change renames its own item away, all orders answer alike |
| `RecoveryMerge.ApprovedProjectionCommutes` | src/domains/gitops/recovery_merge.py:80-103 | the same for approved changes and field texts: any list of changes, below the field or not, with remainders that parse or not |
| `RecoveryMerge.ApprovedUpdateIsApplied` | src/domains/gitops/recovery_merge.py:80-103 | where no approved change reaches a selected item's name, updating one after another is applying them all against the original manifest |
| `Authorization.ExplainAll` | src/domains/gitops/recovery_merge.py:220-234 | whatever the iteration orders, the accumulating loop accepts exactly when every change is explained, some change is intended and the explained scopes cover all approved paths |
| `Authorization.HeldNoRenames` | src/domains/gitops/recovery_merge.py:168-234 | if the rendered manifest holds every approved value, no approved change renames its own item away |
| `Authorization.RecoveryDiffMatches` | src/domains/gitops/recovery_merge.py:168-234 | it accepts exactly when the stored changes form a contract under which the diff is of the approved resource, holds every approved value and is explained; no iteration order matters |
| `Authorization.AuthorizationSound` | src/domains/gitops/recovery_merge.py:106-234 | end to end: if the changes come from the comparison and the diff is accepted, each governed field's new value is already satisfied by live or is live with exactly the approved scalars of that field replaced |
| `Authorization.ReplacedExactly` | src/domains/gitops/recovery_merge.py:80-165 | in any order, a successful projection swaps each approved path from its current to its desired value, leaves every other scalar and adds or removes no place, if and only if no approved change below the field renames its own item away |
| `Authorization.AuthorizationExact` | src/domains/gitops/recovery_merge.py:106-234 | end to end, for every contract and accepted diff: each governed field's new value is satisfied by live, or is the approved value of that very field, or equals live with exactly the approved scalars below it swapped and nothing else changed |
| `Authorization.ApprovalsNotNested` | src/domains/gitops/recovery_merge.py:168-234 | an accepted diff never approves both a field and something below it |
| `KustomizeGraph.RepositoryDirectories` | src/domains/gitops/repository_discovery.py:1073-1080 | the nested loop collects exactly the root and the proper parents of the blobs |
| `KustomizeGraph.Fetch` | src/domains/gitops/repository_discovery.py:1012-1040 | a fetch adds the file with its size, or fails only for a missing file or for limits that the whole closure also breaks |
| `KustomizeGraph.CollectKustomizeSource` | src/domains/gitops/repository_discovery.py:986-1070 | it always ends; it succeeds exactly when every reachable directory is sound and the limits hold; then its keys are the least closure, its contents the repository's, its byte count their sum and its warning exact, whatever the visiting order |
| `KustomizeGraph.Complete` | src/domains/gitops/repository_discovery.py:1042-1064 | when nothing is pending, the visited directories are exactly the reachable ones |
| `PatchOwnership.OverlapIsPrefix` | src/domains/gitops/kustomize_edit_source.py:317-323 | the text test on pointers is exactly: one token list is a prefix of the other |
| `PatchOwnership.ProtectedPointerIs` | src/domains/gitops/kustomize_edit_source.py:317-323 | the protected pointer of any accepted field is the pointer to its keys, down to the first list it selects from, where it goes on with the bracket |
| `PatchOwnership.OverlapOfField` | src/domains/gitops/kustomize_edit_source.py:317-323 | of the pointers above, at and below that list the text test reports exactly those strictly above it, and all of them for a field that selects nothing |
| `JsonPatch.TouchesIff` | src/domains/gitops/kustomize_edit_source.py:281-306 | an edit at a pointer can change the value at a path, in some document, exactly if it is above, at or below it, or replaces, adds, removes or renames an item of a list the path selects from |
| `JsonPatch.UntouchedKeepsField` | src/domains/gitops/kustomize_edit_source.py:281-306 | a JSON Patch list none of whose writes touches a field leaves its value as it was, present or absent |
| `PatchOwnership.TouchReportedIff` | src/domains/gitops/kustomize_edit_source.py:281-323 | of the pointers that touch a field, the test reports exactly those not inside the list it first selects from |
| `PatchOwnership.MissedWriteIff` | src/domains/gitops/kustomize_edit_source.py:281-323 | hence exactly which writes the test misses |
| `PatchOwnership.NonOwningPatchKeepsField` | src/domains/gitops/kustomize_edit_source.py:281-306 | a JSON Patch list reported as not owning leaves the value at every protected field as it was, present or absent, unless it touches the field inside the list it selects from |
| `PatchOwnership.MissedPatch` | src/domains/gitops/kustomize_edit_source.py:281-323 | for every missed write, a patch reported as not owning and a document whose field it changes |
| `PatchOwnership.ListIsMissed` | src/domains/gitops/kustomize_edit_source.py:317-323 | every field that selects from a list has a missed write: the list itself |
| `MergeOwnership.MergedFieldIs` | src/domains/gitops/kustomize_edit_source.py:326-334 | the value at any path after any merge: the declared value merged into it, nothing if a container above was overwritten, the old value otherwise; items of named lists merge by name |
| `MergeOwnership.MergeFixesIff` | src/domains/gitops/kustomize_edit_source.py:326-334 | merging a value leaves what is there as it was exactly when that already satisfied the patch, however lists merge |
| `MergeOwnership.MergeKeepsIff` | src/domains/gitops/kustomize_edit_source.py:326-334 | hence for any merge patch and any field, selecting or not, the exact condition under which it survives the merge |
| `MergeOwnership.IdentityOfManifest` | src/domains/manifest_editor/validation.py:183-201 | a manifest written for a proper identity states exactly that identity |
| `MergeOwnership.NonOwningMappingKeepsIff` | src/domains/gitops/kustomize_edit_source.py:281-334 | a mapping payload reported as not owning keeps a protected field exactly when it does not reach the resource, or states another identity and its merge keeps the field, or overwrites no container above it |
| `MergeOwnership.ForeignIdentitySets` | src/domains/gitops/kustomize_edit_source.py:307-314 | a manifest that states another identity owns nothing by the test, yet through a declared target it sets `spec.replicas` |
| `MergeOwnership.NullParentDeletes` | src/domains/gitops/kustomize_edit_source.py:307-334 | a manifest of the selected resource with `spec: null` does not own `spec.replicas` by the whole test, yet merging it deletes the field |
| `MergeOwnership.BareNullParentDeletes` | src/domains/gitops/kustomize_edit_source.py:307-334 | so does `spec: null` without an identity, under a declared target |
| `PatchOwnership.FieldsOverlapIsPrefix` | src/domains/gitops/kustomize_edit_source.py:367-372 | on accepted field paths the dotted-prefix test is exactly: one segment list is a prefix of the other |
| `WorkflowRuns.AppliedBounded` | src/domains/gitops/repository.py:78-173 | every applied mutation costs a rank, so their number is bounded by the ranks left |
| `WorkflowRuns.TerminalNeverChanges` | src/domains/gitops/repository.py:139-173 | no history of deliveries changes a terminal status |
| `WorkflowRuns.Outcome` | src/domains/gitops/repository.py:78-173 | from a known status every history ends in the highest-ranked status seen, and in the first terminal one if there is any |
| `WorkflowRuns.Confluence` | src/domains/gitops/repository.py:78-173 | with at most one terminal status around, any order and duplication of deliveries end in the same highest-ranked status |
| `WorkflowRuns.OrderIrrelevantIff` | src/domains/gitops/repository.py:78-173 | no reordering changes the outcome exactly when the start is terminal or at most one terminal status is delivered |
| `WorkflowRuns.MovesRaise` | src/domains/gitops/repository.py:78-173 | along any guarded trace of statuses each change raises the rank, and none follows a terminal status |
| `WorkflowStore.Store.StartWorkflowRun` | src/domains/gitops/repository.py:1476-1516 | the insert always applies to a new id and otherwise only through the guard, keeping the identity columns; a refused one changes nothing |
| `WorkflowStore.Store.UpdateWorkflowRun` | src/domains/gitops/repository.py:1518-1539 | the update applies exactly when the row exists and a status in the payload passes the guard |
| `WorkflowStore.Store.UpdateWorkflowRunForCommand` | src/domains/gitops/repository.py:1992-2013 | the loop over the rows updates exactly the rows of the command that allow the payload, and reports none, the one row changed, or that several were; the latter undoes the changes inside a unit of work |
| `WorkflowStore.Store.RecordWorkflowStep` | src/domains/gitops/repository.py:1541-1574 | the step upsert behaves likewise with the ranks of steps |
| `WorkflowStore.RowsNeverRegress` | src/domains/gitops/repository.py:1476-1539 | over every history of the three run statements a row keeps its identity, never falls in rank, changes status only upwards and never leaves a terminal one |
| `WorkflowStore.StatusIsFinal` | src/domains/gitops/repository.py:1476-1539 | a row's status after any history of starts, updates and updates by command is the delivery fold of the statuses delivered to it |
| `WorkflowStore.DeliveryOrderIrrelevant` | src/domains/gitops/repository.py:1476-1539 | two such histories that deliver the same statuses to a row, at most one of them terminal, leave it in the same status |
| `WorkflowStore.FewStatusChanges` | src/domains/gitops/repository.py:1476-1539 | over every history of the three run statements the status column of a row changes at most 7 times |
| `WorkflowStore.StepStatusIsFinal` | src/domains/gitops/repository.py:1541-1574 | a step's status after any recordings is the delivery fold of the statuses recorded for it, and its identity stays |
| `WorkflowStore.StepOrderIrrelevant` | src/domains/gitops/repository.py:1541-1574 | two histories that record the same statuses for a step, at most one of them terminal, leave it in the same status |
| `WorkflowStore.StepsNeverRegress` | src/domains/gitops/repository.py:1541-1574 | over every history a step never falls in rank, never leaves a terminal status, and changes its status at most twice |
| `RecoveryPr.StepPreserves` | src/domains/gitops/router.py:526-702 | every step of every handler, every arrival and every other change of a plan keeps the protocol invariant |
| `RecoveryPr.EveryRunIsSafe` | src/domains/gitops/router.py:479-702 | over all interleavings: at most one handler wins per `pr_open` period of a plan, exactly the winners emit, each once, one failure or one merge with its deploy request for a merged delivery |
| `RecoveryPr.OnePeriod` | src/domains/gitops/router.py:479-702 | while a plan is not reopened, all handlers together emit at most one batch for it, decided on a record of this period, and a merge is of the plan's own pull request |
| `RecoveryPr.StaleWinIff` | src/domains/rca/repository.py:689-760 | in every run a handler wins on a record of an earlier period exactly when the stored plan is open and its stored tracking time differs from the one the handler read |
| `RecoveryPr.StaleWinByAttemptIff` | src/domains/rca/repository.py:590-760 | where every tracked pull request carries an attempt of its own, exactly when the plan is open and the stored attempt differs |
| `RecoveryPr.TellingTestNeverStale` | src/domains/rca/repository.py:689-760 | a compare-and-set that also compares the tracking time, or attempts of one's own, never wins on a stale record, over all interleavings |
| `RecoveryPr.TellingTestDeploysOwn` | src/domains/gitops/router.py:636-702 | under such a test every deploy request is for the merge commit of the plan's own pull request |
| `RecoveryPr.StaleMergeTakesOver` | src/domains/rca/repository.py:689-760 | a run in which a paused merge handler takes over a reopened plan and requests the deployment of another pull request's commit; comparing attempts misses it exactly when the two are equal, comparing tracking times does not |
| `RecoveryPrHandler.PlanStore.FindBase` | src/domains/rca/repository.py:810-848 | a record is found exactly when one open plan matches the pull request without its head |
| `RecoveryPrHandler.PlanStore.FindExact` | src/domains/rca/repository.py:762-808 | a record is found exactly when one open plan matches the pull request with its head |
| `RecoveryPrHandler.PlanStore.UpdateIfOpen` | src/domains/rca/repository.py:689-760 | the compare-and-set saves exactly when the plan is stored and open; then it sets status and lifecycle of that plan, clears its selection only on request and leaves everything else; otherwise it changes nothing |
| `RecoveryPrHandler.PlanStore.Reject` | src/domains/gitops/router.py:479-523 | exactly if the plan is still open it clears the selection, records the failure and emits one failure |
| `RecoveryPrHandler.PlanStore.Handle` | src/domains/gitops/router.py:526-702 | an uninterrupted handler takes the protocol's decisions on its two reads, writes and emits what the winner does, or changes nothing |
| `RecoveryPrHandler.ReadsAgree` | src/domains/rca/repository.py:762-848 | with one open plan tracking a pull request, the exact read finds that plan if its head is the delivered one, and nothing otherwise |
| `RecoveryPrHandler.SoloMergesIff` | src/domains/gitops/router.py:551-636 | it merges exactly when the delivery is merged, one open plan tracks exactly its head, binding, image and commit exist, nothing blocks and the plan is approved |
| `Snapshots.Prepare` | src/domains/gitops/repository.py:213-279 | the loop returns one entry per command with managed fields, in order, exactly when every command is valid |
| `Snapshots.EntriesOwned` | src/domains/gitops/repository.py:251-278 | every entry is keyed within the run's workspace, binding and cluster by the resource its command's diff names, and carries that command's fields, id and completion time |
| `Snapshots.ApprovalsMet` | src/domains/gitops/repository.py:1904-1915 | the counting checks accept exactly when every approval is granted and referenced by a command |
| `Snapshots.SnapshotStore.Record` | src/domains/gitops/repository.py:1847-1955 | all or nothing: a complete workflow upserts all its entries and returns its number of commands, any other changes nothing and returns 0 |
| `Snapshots.HoldsLatest` | src/domains/gitops/repository.py:1926-1954 | after any upserts a key holds one of the snapshots offered for it, of the latest completion time |
| `Snapshots.WorkflowOrderIrrelevant` | src/domains/gitops/repository.py:1847-1955 | with distinct completion times, any processing order of the same workflows, duplicates included, leaves the same table |
| `Snapshots.LatestOfWorkflows` | src/domains/gitops/repository.py:1847-1955 | each key holds a snapshot written by a complete workflow, or the stored one, and none written was completed later |
| `Snapshots.SwapIff` | src/domains/gitops/repository.py:1952-1952 | two upserts of one key may be swapped exactly when their times differ, they are equal, or a later one is stored |
| `Access.ListedIff` | src/domains/identity/repository.py:50-114 | a resource is listed by the four-way join exactly when some active assignment of it and member role have a group membership and an active policy in the role's scope |
| `Access.PermittedIff` | src/domains/identity/repository.py:857-889 | a permission is among the role's exactly when an active policy row grants it in the role's scope |
| `Access.StatementRefinesCheck` | src/domains/identity/repository.py:904-936 | under the unique constraints, for a user who is no administrator the step-by-step check is exactly: active organization member and listed by the statement |
| `Access.AccessibleRefinesCheck` | src/domains/identity/repository.py:981-1002 | for any user: administrators are listed everything, an unknown permission is rejected, and otherwise the check is exactly active membership and a listed resource |
| `Access.AgreeIff` | src/domains/identity/repository.py:981-1002 | the list and the check agree on all resources exactly when the user is an active member, or no assignment, member role, group membership and policy rows link the user to any resource |
| `Access.FormerMemberStillListed` | src/domains/identity/repository.py:981-1002 | a former member with active group and role rows is listed a resource that the check denies |
| `Access.DuplicateAssignmentsDiffer` | src/domains/identity/repository.py:817-836 | without the unique constraint the check looks at one assignment only and the list at all of them |
| `Access.EffectiveAreListed` | src/domains/identity/repository.py:938-969 | the effective permissions of a resource are, for an active member, exactly those whose statement lists it, and none otherwise |
| `Access.ScopedHidesGlobal` | src/domains/identity/repository.py:857-889 | with one scoped policy row for the role, even disabled, no change of the global policy changes what the statement lists |
| `Access.ScopedHidesGlobalFromCheck` | src/domains/identity/repository.py:857-936 | and none changes the outcome of the check |
| `Access.DisabledScopeDenies` | src/domains/identity/repository.py:857-889 | a scoped policy with all rows disabled denies everything |
| `Coverage.CoverageEntry` | src/domains/inventory/coverage.py:199-234 | the entry is complete exactly when the collection was observed whole within a named, unselected scope without reasons, and carries exactly the applying reason codes, each once and in ascending order |
| `Coverage.CollectionCoverage` | src/domains/inventory/coverage.py:101-141 | the nested loops yield the entries of every scope and namespaced collection, then of the nodes, and none without a scope |
| `Coverage.InventoryDeletionScopes` | src/domains/inventory/coverage.py:144-171 | the loop returns exactly the scopes of the authoritative entries of a live snapshot, sorted and each once, and none otherwise |
| `Coverage.DeletionExact` | src/domains/inventory/coverage.py:101-171 | composed with the projection: a type and namespace is returned exactly when some scope names the namespace without a selector and the delete-safe collection was observed, untruncated and free of reasons; nodes likewise at cluster scope |
| `Coverage.RowDeletableIff` | src/domains/inventory/coverage.py:174-184 | a stored row is in the deletion scopes exactly when the snapshot proves its own type and namespace, never for events and custom resources |
| `EventKey.WireInjective` | src/domains/inventory/kubernetes_events.py:293-294 | the wire text of an instant determines the instant, with or without microseconds |
| `EventKey.SourceKeyInjective` | src/domains/inventory/kubernetes_events.py:259-268 | the source key determines uid, count and instant, also for uids holding colons |
| `Events.ObservationsByUid` | src/domains/inventory/kubernetes_events.py:180-189 | the loop computes the newest-per-uid map |
| `Events.ByUidIsNewest` | src/domains/inventory/kubernetes_events.py:180-189 | that map holds exactly the observed uids, each with one of its own observations, none newer |
| `Events.TimelineEvents` | src/domains/inventory/kubernetes_events.py:151-177 | a capture emits, by ascending uid, exactly the newest observations that advanced over an authoritative predecessor, and nothing unless fresh |
| `Events.LatestComplete` | src/domains/inventory/repository.py:525-590 | the loop over the newest 128 stored captures returns the newest complete one, and nothing exactly when none of them is complete |
| `Events.EmittedExactly` | src/domains/inventory/kubernetes_events.py:151-199 | over any run, with incomplete captures anywhere, an observation's key is emitted exactly by the recent captures that hold it and are the first to, or find no complete capture among the candidates |
| `Events.ExactlyOnceIff` | src/domains/inventory/kubernetes_events.py:151-199 | with every complete capture recent, each newest observation is emitted, and exactly once if and only if no later capture repeats it right after as many incomplete captures as there are candidates |
| `Events.ExactlyOnce` | src/domains/inventory/kubernetes_events.py:151-199 | in particular, over any run of fresh authoritative captures in which the uid stays with count and time not decreasing, exactly once |
| `Events.MissedIff` | src/domains/inventory/kubernetes_events.py:160-177 | an observation is never emitted exactly when the first capture that holds it is not recent, and neither is any later one that repeats it without a predecessor |
| `Events.StaleFirstIsMissed` | src/domains/inventory/kubernetes_events.py:160-177 | a run whose first capture is authoritative and not recent, followed by any number of recent ones holding the same observation, never emits it |
| `Events.GapEmitsAgain` | src/domains/inventory/repository.py:525-590 | after 128 incomplete captures an observation already emitted is emitted again under the same key |
| `Events.ReturningIsEmittedAgain` | src/domains/inventory/kubernetes_events.py:192-199 | a uid that is missing from a complete capture and returns is emitted again under the same key |
| `Base64.PaddingRestored` | src/domains/inventory_filter/cursor.py:145-151 | for every byte string the stripped padding is restored by the negated length modulo four |
| `Base64.DecodeOfEncode` | src/domains/inventory_filter/cursor.py:145-151 | decoding undoes encoding on every byte string |
| `Cursor.SplitAtFirstDot` | src/domains/inventory_filter/cursor.py:89-89 | splitting at the first dot recovers both parts of a token |
| `Cursor.InspectOfEncode` | src/domains/inventory_filter/cursor.py:56-115 | inspecting an encoded token gives back its scope and position exactly before expiry and for a valid scope, with the right error otherwise |
| `Cursor.RoundTrip` | src/domains/inventory_filter/cursor.py:56-115 | decoding an encoded token gives the position exactly before expiry and for the same scope |

## Left out

- MergeOwnership.NonOwningMappingKeepsIff: directives inside a strategic merge patch are not modelled; selectors are taken to select from lists that merge by name, without two items of the selected name.
- RecoveryPr.StaleWinIff: database times are taken to differ between two trackings of a plan.
- Snapshots.SnapshotStore.Record: row locks, the update time column and the text form of non-text payload values are not modelled.
- Update in place: dictionaries that the source copies deeply and then mutates are values here, so aliasing between the copy and the original is not captured.
- Floating point: NaN and infinities are not `Json` values, and memory quantities take ASCII digits only.
- The YAML and JSON grammars, SHA-256, HMAC and regular-expression engines are parameters or abstract functions.
- `materialize_declared_scalar_patch` with its multi-document and already-applied handling, and the image patch path, repeat the same engine with fewer checks.
- `exact_merged_recovery_request` is a chain of equality tests on payload fields.
- `extract_managed_fields` and the manifest readers are field-by-field extraction; the comparison starts from the extracted maps.
- `normalize_kustomize_local_reference` and the reference reader of a kustomization document are one function from a file to its local references.
- The status summary of a diff and its `has_changes` flag are inputs when a diff is authorized.
- `resolve_workflow_approval` is an unguarded update and belongs to no guarded-transition claim.
- Grants, revocations and role upserts of the identity tables: access is decided on one database value.
- Decoding of stored Event facts and capture proofs: a capture carries the two outcomes, authoritative and recent.
- GitHub HTTP access, rendering subprocesses, database sessions, logging, the user interface and the workers are I/O and wiring.
