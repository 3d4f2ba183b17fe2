# Preform history restructuring, modelled in Dafny

Preform rewrites the commit history of a Java repository to take out
changes that carry no meaning. It works through a rewriting engine that
visits the commits in order and calls a filter's hooks for each one. This
project models the core of that history restructuring:

- **ChangeVector.** The fingerprint of a commit's change, as four sets:
  added and deleted files, and added and deleted `path:line` codes. It comes
  with its algebra (emptiness, reversal, "reverts"), its 32-bit `hashCode`,
  and `fromTrees`, which folds the change records of a tree diff into the
  four sets.
- **RevertCommitMarker.** Runs the traversal twice. A commit that reverts
  its parent gets a "Reverting" trailer, and the parent, on the second pass,
  a "Reverted" one. Reverts are recognised by the `git revert` message
  template or by a change vector that undoes the previous commit's. The
  filter's own copy of the vector code is modelled as written.
- **RevertCommitSquasher.** Has a one-slot pending state. A commit that
  reverts its parent is remembered, and the next commit rewritten has that
  commit replaced, among its parents, by the reverted commit's parents.
- **EmptyCommitRemover.** Every parent is walked up past no-op commits, that
  is commits with one parent and that parent's tree. The result is then
  looked up in the commit mapping.
- **HistoryLinearizer.** Keeps only the first parent. Its merge counter is
  never incremented.
- **QuickRemedyMarker.** Marks a commit by the same author, at most five
  minutes after its parent, whose message mentions "former", "last",
  "prev" or "previous commit".
- **ExtensionFilter.** Keeps files by extension.
- **Linebreak.** Converts the line breaks of `.java` files to CR, LF or
  CRLF.

A commit is a value (`Commits.Commit`): id, parent ids, tree id, full
message and optional author. The source history is a map from ids to
commits. A `depth` ranking, with every parent shallower than its child,
stands for acyclicity and serves as the termination measure of the walks
towards the roots. Classes whose fields the source updates are Dafny
classes. Their methods are proved against pure step functions
(`MarkStep`, `SquashStep`), and the traversals against folds of those
(`Pass`, `TwoPasses`). The engine's default `rewriteParents` maps each
parent through the commit mapping and falls back to the original id. Its
default `rewriteCommitMessage` returns the message unchanged. Kotlin's
`lines()`, `joinToString` and `trimMargin()` are modelled exactly
(module `KotlinText`). The annotation trailers are therefore derived from
the raw strings of the source, not restated.

## Notes on the source

The model follows the code as written, including these behaviours that
its own names and comments do not suggest:

- **The squasher's content test never fires.** The command describes
  itself as squashing "reverting and reverted commits", and
  RevertCommitSquasher.kt:126-129 tests whether the current commit's
  vector reverts `previousCommitChangeVector`. That field is initialised
  empty at RevertCommitSquasher.kt:21 and never reassigned, and no vector
  reverts the empty one. So only the message template (:48-54) arms the
  slot (`RevertSquasher.OnlyTemplateArmsSlot`). The marker does update its
  field (RevertCommitMarker.kt:122, 127), so it catches consecutive undo
  pairs (`RevertMarker.ConsecutiveUndoIsMarked`).
- **Spliced ids are not translated.** The splice branch of the squasher
  returns its list at RevertCommitSquasher.kt:38 without calling
  `super.rewriteParents`. Its ids are therefore the source repository's,
  not their rewritten counterparts. The same holds for the linearizer
  (HistoryLinearizer.kt:19-24).
- **The slot is consumed by the next call with a context.** It is cleared
  at RevertCommitSquasher.kt:37, on the next call with a commit, whether or
  not one of that commit's parents is the pending one. In that case the
  parent list comes back untouched and untranslated.
- **The last reference is the one captured.** In the pattern at
  RevertCommitMarker.kt:140 and RevertCommitSquasher.kt:137, the first
  `.*` is greedy under DOT_MATCHES_ALL. A message holding several
  `This reverts commit <40 hex>` lines therefore yields the last one, not
  the one in the template's first line. `RevertMarker.RevertTemplateNamesId`
  states the template case for tails that hold no second reference.

## Model

| member | source | states |
|---|---|---|
| Commits.Translate | src/main/kotlin/page/caffeine/preform/filter/restructurer/EmptyCommitRemover.kt:21-24 | a commit's rewritten id is its mapping entry when it has one, else the id itself |
| Commits.EngineParents | src/main/kotlin/page/caffeine/preform/filter/restructurer/RevertCommitSquasher.kt:131 | the engine's default parents: one per parent, in order, each translated through the mapping |
| ChangeVectors.ReversedIsInvolution | src/main/kotlin/page/caffeine/preform/util/ChangeVector.kt:35-40 | reversing twice gives back the same four sets |
| ChangeVectors.EqualsIsValueEquality | src/main/kotlin/page/caffeine/preform/util/ChangeVector.kt:17-33 | `equals` holds exactly for vectors with the same four sets; `isNotEmpty` is the negation of `isEmpty` |
| ChangeVectors.RevertsIsReversedAndNotEmpty | src/main/kotlin/page/caffeine/preform/util/ChangeVector.kt:43-48 | `a.reverts(b)` iff `a` equals `b.reversed()` and `a` is not empty |
| ChangeVectors.RevertsIsSymmetric | src/main/kotlin/page/caffeine/preform/util/ChangeVector.kt:43-48 | `a.reverts(b) == b.reverts(a)` |
| ChangeVectors.RevertsEmptyAndReversed | src/main/kotlin/page/caffeine/preform/util/ChangeVector.kt:42-48 | no vector reverts the empty vector; every non-empty vector reverts its reversal |
| ChangeVectors.ReversedOfUnion | src/main/kotlin/page/caffeine/preform/util/ChangeVector.kt:35-40 | reversal distributes over the set-wise union that `add`/`addAll` build |
| ChangeVectors.Wrap32 | src/main/kotlin/page/caffeine/preform/util/ChangeVector.kt:51-57 | the result is a 32-bit `Int` congruent to the input modulo 2^32 |
| ChangeVectors.StringHash | src/main/kotlin/page/caffeine/preform/util/ChangeVector.kt:51-57 | a string's hash stays in the `Int` range |
| ChangeVectors.EqualVectorsHashEqually | src/main/kotlin/page/caffeine/preform/util/ChangeVector.kt:51-57 | vectors that are `equals` have the same `hashCode` |
| ChangeVectors.FromTrees | src/main/kotlin/page/caffeine/preform/util/ChangeVector.kt:60-112 | the nested loops over records and edits build exactly the fold `Fingerprint` of the diff |
| ChangeVectors.AddEdit | src/main/kotlin/page/caffeine/preform/util/ChangeVector.kt:77-105 | one edit adds its inserted lines under the new path and its deleted lines under the old path, and nothing else |
| ChangeVectors.EditVectorMembers | src/main/kotlin/page/caffeine/preform/util/ChangeVector.kt:77-105 | a code is added by an edit iff the edit is an insert or replace with that line in its new range, deleted iff a delete or replace with it in its old range |
| ChangeVectors.EditsVectorMembers | src/main/kotlin/page/caffeine/preform/util/ChangeVector.kt:77-105 | a code is in a modify record's sets iff some edit of it contributes the code |
| ChangeVectors.EntryVectorMembers | src/main/kotlin/page/caffeine/preform/util/ChangeVector.kt:66-105 | add/copy contribute only the new path, delete only the old path, rename both, and only modify contributes codes |
| ChangeVectors.FingerprintMembers | src/main/kotlin/page/caffeine/preform/util/ChangeVector.kt:60-112 | each of the four sets holds x iff some change record contributes x to it |
| ChangeVectors.EditsVectorOfInverse | src/main/kotlin/page/caffeine/preform/util/ChangeVector.kt:77-105 | inverting the edits of any record other than a copy reverses their vector (a copy contributes no codes either way) |
| ChangeVectors.EntryVectorOfInverse | src/main/kotlin/page/caffeine/preform/util/ChangeVector.kt:66-105 | the inverse change record has the reversed vector |
| ChangeVectors.FingerprintOfInverse | src/main/kotlin/page/caffeine/preform/util/ChangeVector.kt:60-112 | the diff that undoes a diff has the reversed fingerprint, so it reverts it |
| ChangeVectors.ChangeVector.Equals | src/main/kotlin/page/caffeine/preform/util/ChangeVector.kt:17-28 | definition; properties in `EqualsIsValueEquality` |
| ChangeVectors.ChangeVector.IsEmpty | src/main/kotlin/page/caffeine/preform/util/ChangeVector.kt:30-31 | definition; properties in `EqualsIsValueEquality`, `RevertsEmptyAndReversed` |
| ChangeVectors.ChangeVector.IsNotEmpty | src/main/kotlin/page/caffeine/preform/util/ChangeVector.kt:33 | definition; properties in `EqualsIsValueEquality` |
| ChangeVectors.ChangeVector.Reversed | src/main/kotlin/page/caffeine/preform/util/ChangeVector.kt:35-40 | definition; properties in `ReversedIsInvolution`, `ReversedOfUnion` |
| ChangeVectors.ChangeVector.Reverts | src/main/kotlin/page/caffeine/preform/util/ChangeVector.kt:43-48 | definition; properties in `RevertsIsReversedAndNotEmpty`, `RevertsIsSymmetric`, `RevertsEmptyAndReversed` |
| ChangeVectors.HashCode | src/main/kotlin/page/caffeine/preform/util/ChangeVector.kt:51-57 | the hash of a vector is an `Int`; properties in `EqualVectorsHashEqually` |
| ChangeVectors.EditVector | src/main/kotlin/page/caffeine/preform/util/ChangeVector.kt:79-104 | definition; properties in `EditVectorMembers`, `AddEdit` |
| ChangeVectors.EditsVector | src/main/kotlin/page/caffeine/preform/util/ChangeVector.kt:78-106 | definition; properties in `EditsVectorMembers`, `EditsVectorOfInverse` |
| ChangeVectors.EntryVector | src/main/kotlin/page/caffeine/preform/util/ChangeVector.kt:66-109 | definition; properties in `EntryVectorMembers`, `EntryVectorOfInverse` |
| ChangeVectors.Fingerprint | src/main/kotlin/page/caffeine/preform/util/ChangeVector.kt:60-112 | definition; properties in `FingerprintMembers`, `FingerprintOfInverse`, `FromTrees` |
| RevertMarker.LastReferenceBelow | src/main/kotlin/page/caffeine/preform/filter/marker/RevertCommitMarker.kt:140 | finds the greatest position after the `Revert "` prefix that holds a reference, or reports that none does |
| RevertMarker.RevertedId | src/main/kotlin/page/caffeine/preform/filter/marker/RevertCommitMarker.kt:140 | the message matches iff it starts with `Revert "` and holds a later reference; the captured id is the 40 digits of the last reference |
| RevertMarker.MarkerReverts | src/main/kotlin/page/caffeine/preform/filter/marker/RevertCommitMarker.kt:164-173 | definition; properties in `MarkerRevertsIsReverts` |
| RevertMarker.MarkerEditVector | src/main/kotlin/page/caffeine/preform/filter/marker/RevertCommitMarker.kt:83-113 | definition; properties in `AddMarkerEdit`, `MarkerEditsVectorIsEditsVector` |
| RevertMarker.MarkerEditsVector | src/main/kotlin/page/caffeine/preform/filter/marker/RevertCommitMarker.kt:78-116 | definition; properties in `AddMarkerEdits`, `MarkerEditsVectorIsEditsVector` |
| RevertMarker.MarkerEntryVector | src/main/kotlin/page/caffeine/preform/filter/marker/RevertCommitMarker.kt:59-116 | definition; properties in `NonJavaEntryIgnored`, `MarkerEntryVectorOfInverse`, `CopyUndoIsIgnored` |
| RevertMarker.MarkerVector | src/main/kotlin/page/caffeine/preform/filter/marker/RevertCommitMarker.kt:56-119 | definition; properties in `ComputeMarkerVector`, `MarkerVectorIsFingerprint`, `MarkerVectorOfInverse` |
| RevertMarker.InverseKeepsJava | src/main/kotlin/page/caffeine/preform/filter/marker/RevertCommitMarker.kt:59-61 | undoing a record keeps it a Java record, except a copy, whose undo names "/dev/null" and is skipped |
| RevertMarker.CopyUndoIsIgnored | src/main/kotlin/page/caffeine/preform/filter/marker/RevertCommitMarker.kt:59-66 | a Java copy adds its new path, while its undo, a deletion against "/dev/null", adds nothing |
| RevertMarker.Annotate | src/main/kotlin/page/caffeine/preform/filter/marker/RevertCommitMarker.kt:131-135 | definition; properties in `AnnotationIsTemplate`, `AnnotateOneLine` |
| RevertMarker.RevertTemplateNamesId | src/main/kotlin/page/caffeine/preform/filter/marker/RevertCommitMarker.kt:140 | a `git revert` message names exactly its id when the text after it holds no other reference |
| RevertMarker.MarkerRevertsIsReverts | src/main/kotlin/page/caffeine/preform/filter/marker/RevertCommitMarker.kt:164-173 | the copy's set-by-set emptiness guard decides exactly as `reverts` of the shared vector |
| RevertMarker.ComputeMarkerVector | src/main/kotlin/page/caffeine/preform/filter/marker/RevertCommitMarker.kt:56-119 | the loops build exactly `MarkerVector` of the diff |
| RevertMarker.AddMarkerEntry | src/main/kotlin/page/caffeine/preform/filter/marker/RevertCommitMarker.kt:63-116 | a Java record adds its files by change type, or for a modification the codes of its edits, and nothing else |
| RevertMarker.AddMarkerEdits | src/main/kotlin/page/caffeine/preform/filter/marker/RevertCommitMarker.kt:78-116 | the loop over a modification's edits adds exactly the marker vector of its edit list |
| RevertMarker.AddMarkerEdit | src/main/kotlin/page/caffeine/preform/filter/marker/RevertCommitMarker.kt:78-116 | one edit adds its inserted and its deleted lines, both under the new path |
| RevertMarker.NonJavaEntryIgnored | src/main/kotlin/page/caffeine/preform/filter/marker/RevertCommitMarker.kt:59-61 | a record whose old or new path is not `.java`, as for any "/dev/null" side, adds nothing |
| RevertMarker.MarkerVectorIsFingerprint | src/main/kotlin/page/caffeine/preform/filter/marker/RevertCommitMarker.kt:56-119 | on Java records whose modifications keep their path, the marker's vector equals the `fromTrees` fingerprint |
| RevertMarker.MarkerEntryVectorOfInverse | src/main/kotlin/page/caffeine/preform/filter/marker/RevertCommitMarker.kt:59-116 | the inverse of a record, other than a Java-to-Java copy, has the reversed marker vector |
| RevertMarker.MarkerVectorOfInverse | src/main/kotlin/page/caffeine/preform/filter/marker/RevertCommitMarker.kt:56-119 | the diff that undoes a diff without Java-to-Java copies has the reversed marker vector |
| RevertMarker.AnnotationIsTemplate | src/main/kotlin/page/caffeine/preform/filter/marker/RevertCommitMarker.kt:131-135 | the raw string of `annotateComment` is a margin template of message, blank line, trailer and empty line |
| RevertMarker.AnnotateOneLine | src/main/kotlin/page/caffeine/preform/filter/marker/RevertCommitMarker.kt:131-135 | a one-line message m becomes `m + "\n\n[Preform] Reverting Commit\n"` (or `Reverted`) |
| RevertMarker.MarkStep | src/main/kotlin/page/caffeine/preform/filter/marker/RevertCommitMarker.kt:28-129 | the reverted set only grows and only by the sole parent; the message is kept or gets one of the two trailers |
| RevertMarker.Pass | src/main/kotlin/page/caffeine/preform/filter/marker/RevertCommitMarker.kt:23-26 | one traversal yields one message per visited commit |
| RevertMarker.TwoPasses | src/main/kotlin/page/caffeine/preform/filter/marker/RevertCommitMarker.kt:23-26 | definition; properties in `SecondPassAnnotatesReverted`, `RevertPairIsMarked` |
| RevertMarker.RevertCommitMarker.constructor | src/main/kotlin/page/caffeine/preform/filter/marker/RevertCommitMarker.kt:19-21 | starts with the empty vector and no reverted commits |
| RevertMarker.RevertCommitMarker.RewriteCommitMessage | src/main/kotlin/page/caffeine/preform/filter/marker/RevertCommitMarker.kt:28-129 | new fields and message are those of `MarkStep` on the old fields |
| RevertMarker.RevertCommitMarker.Traverse | src/main/kotlin/page/caffeine/preform/filter/marker/RevertCommitMarker.kt:23-26 | calling the hook on each commit in order gives `Pass` |
| RevertMarker.RevertCommitMarker.RewriteCommits | src/main/kotlin/page/caffeine/preform/filter/marker/RevertCommitMarker.kt:23-26 | two traversals, the second from the state left by the first |
| RevertMarker.PassRevertedGrows | src/main/kotlin/page/caffeine/preform/filter/marker/RevertCommitMarker.kt:21-26 | along a traversal the reverted set only grows |
| RevertMarker.PassRevertsOnlyParents | src/main/kotlin/page/caffeine/preform/filter/marker/RevertCommitMarker.kt:39-46 | everything a traversal records as reverted is the sole parent of a visited commit |
| RevertMarker.PassMessageAt | src/main/kotlin/page/caffeine/preform/filter/marker/RevertCommitMarker.kt:23-26 | the i-th message of a traversal is the hook's answer in the state the earlier commits left |
| RevertMarker.SecondPassAnnotatesReverted | src/main/kotlin/page/caffeine/preform/filter/marker/RevertCommitMarker.kt:31-33 | a commit found to be reverted in the first pass is annotated "Reverted" in the second |
| RevertMarker.RevertPairIsMarked | src/main/kotlin/page/caffeine/preform/filter/marker/RevertCommitMarker.kt:23-48 | with Y reverting its parent X by message and no child of Y, X ends "Reverted" and Y "Reverting" |
| RevertMarker.MarkStepCases | src/main/kotlin/page/caffeine/preform/filter/marker/RevertCommitMarker.kt:31-128 | the reverted check comes first and changes nothing; roots and merges pass unchanged; a template match records the parent without touching the vector; otherwise the commit's vector becomes the previous one, and the commit is annotated "Reverting" with its parent recorded when that vector reverts the old one, or keeps its message and reverted set |
| RevertMarker.ConsecutiveUndoIsMarked | src/main/kotlin/page/caffeine/preform/filter/marker/RevertCommitMarker.kt:121-125 | a child whose diff is the inverse of its parent's non-empty Java change (no Java-to-Java copy) is annotated "Reverting" and the parent recorded |
| RevertSquasher.Splice | src/main/kotlin/page/caffeine/preform/filter/restructurer/RevertCommitSquasher.kt:28-35 | x is in the result iff it is a parent other than the target, or the target occurs and x is in the replacement |
| RevertSquasher.SquashStep | src/main/kotlin/page/caffeine/preform/filter/restructurer/RevertCommitSquasher.kt:24-132 | the vector never changes; with a context, a pending commit is consumed and the parents are spliced, its occurrences replaced by its parent's parents; otherwise the parents get the engine default, and the slot is armed iff the commit has one parent and the template names it or its vector reverts the previous one |
| RevertSquasher.RevertCommitSquasher.constructor | src/main/kotlin/page/caffeine/preform/filter/restructurer/RevertCommitSquasher.kt:21-22 | starts with the empty vector and an empty slot |
| RevertSquasher.RevertCommitSquasher.RewriteParents | src/main/kotlin/page/caffeine/preform/filter/restructurer/RevertCommitSquasher.kt:24-132 | new fields and parents are those of `SquashStep`; the slot only holds single-parent commits |
| RevertSquasher.SpliceOfConcat | src/main/kotlin/page/caffeine/preform/filter/restructurer/RevertCommitSquasher.kt:28-35 | the splice works parent by parent, keeping order |
| RevertSquasher.SpliceWithoutTarget | src/main/kotlin/page/caffeine/preform/filter/restructurer/RevertCommitSquasher.kt:28-35 | parents without the pending commit come back unchanged and untranslated |
| RevertSquasher.SpliceAt | src/main/kotlin/page/caffeine/preform/filter/restructurer/RevertCommitSquasher.kt:28-35 | the pending commit is replaced in place by the replacement list |
| RevertSquasher.OnlyTemplateArmsSlot | src/main/kotlin/page/caffeine/preform/filter/restructurer/RevertCommitSquasher.kt:127-129 | from the empty vector, the slot is armed iff the commit has one parent and its message names it through the template |
| RevertSquasher.RevertPairIsSquashed | src/main/kotlin/page/caffeine/preform/filter/restructurer/RevertCommitSquasher.kt:27-53 | X, Y reverting X by message, Z on Y: Z's new parents are X's parents, and neither X nor Y is among them |
| EmptyCommits.NoOpAncestor | src/main/kotlin/page/caffeine/preform/filter/restructurer/EmptyCommitRemover.kt:18-20 | the chosen ancestor is not a no-op, has the tree of the start, and is the start unless the start is a no-op |
| EmptyCommits.IsNoOp | src/main/kotlin/page/caffeine/preform/filter/restructurer/EmptyCommitRemover.kt:18 | definition of the loop condition; properties in `NoOpAncestor`, `AncestorIsEndOfNoOpChain` |
| EmptyCommits.SkipNoOpCommits | src/main/kotlin/page/caffeine/preform/filter/restructurer/EmptyCommitRemover.kt:16-20 | the `while` loop ends at `NoOpAncestor` |
| EmptyCommits.RewriteParents | src/main/kotlin/page/caffeine/preform/filter/restructurer/EmptyCommitRemover.kt:12-26 | one result per parent, in order, without deduplication: the ancestor's mapping entry or the ancestor itself; a null array gives null |
| EmptyCommits.RootsAndMergesKept | src/main/kotlin/page/caffeine/preform/filter/restructurer/EmptyCommitRemover.kt:18 | a parent that is a root or a merge is chosen itself |
| EmptyCommits.SkipIsTransitive | src/main/kotlin/page/caffeine/preform/filter/restructurer/EmptyCommitRemover.kt:18-20 | a no-op leads where its parent leads, and the walk from the result goes nowhere |
| EmptyCommits.AncestorIsEndOfNoOpChain | src/main/kotlin/page/caffeine/preform/filter/restructurer/EmptyCommitRemover.kt:18-20 | every commit the walk passes over is a no-op |
| EmptyCommits.ChainCollapses | src/main/kotlin/page/caffeine/preform/filter/restructurer/EmptyCommitRemover.kt:13-25 | A, B a no-op on A, C on B: C's parent becomes A's rewritten id |
| Linearizer.FirstParentOnly | src/main/kotlin/page/caffeine/preform/filter/restructurer/HistoryLinearizer.kt:19-24 | empty for a null or empty array, otherwise exactly the first parent |
| Linearizer.HistoryLinearizer.constructor | src/main/kotlin/page/caffeine/preform/filter/restructurer/HistoryLinearizer.kt:11 | the counter starts at 0 |
| Linearizer.HistoryLinearizer.RewriteParents | src/main/kotlin/page/caffeine/preform/filter/restructurer/HistoryLinearizer.kt:19-24 | returns `FirstParentOnly` and modifies no field |
| Linearizer.HistoryLinearizer.CleanUp | src/main/kotlin/page/caffeine/preform/filter/restructurer/HistoryLinearizer.kt:13-17 | reports the counter |
| Linearizer.RunLinearizer | src/main/kotlin/page/caffeine/preform/filter/restructurer/HistoryLinearizer.kt:11-24 | a run linearises every parent list and reports 0 merge commits |
| Linearizer.FirstParentOnlyIsIdempotent | src/main/kotlin/page/caffeine/preform/filter/restructurer/HistoryLinearizer.kt:19-24 | linearising twice is linearising once |
| Linearizer.Linearize | src/main/kotlin/page/caffeine/preform/filter/restructurer/HistoryLinearizer.kt:19-24 | the same commits with the same ids, trees, messages and authors; a root stays a root and every other commit keeps exactly its first parent |
| Linearizer.LinearizeMakesChain | src/main/kotlin/page/caffeine/preform/filter/restructurer/HistoryLinearizer.kt:19-24 | the linearised history stays well formed, each commit has at most one parent, and that parent is its first |
| QuickRemedy.FindPhraseFrom | src/main/kotlin/page/caffeine/preform/filter/marker/QuickRemedyMarker.kt:58 | the search succeeds iff one of the four phrases starts at or after the position |
| QuickRemedy.MentionsEarlierCommit | src/main/kotlin/page/caffeine/preform/filter/marker/QuickRemedyMarker.kt:58 | definition; properties in `MentionsIffContainsPhrase`, `TestMessagesMatch` |
| QuickRemedy.MentionsIffContainsPhrase | src/main/kotlin/page/caffeine/preform/filter/marker/QuickRemedyMarker.kt:39-41 | the regex search succeeds iff "former", "last", "prev" or "previous commit" is a substring |
| QuickRemedy.TestMessagesMatch | src/test/kotlin/page/caffeine/preform/filter/marker/QuickRemedyMarkerTests.kt:8-11 | the four test messages match |
| QuickRemedy.RewriteCommitMessage | src/main/kotlin/page/caffeine/preform/filter/marker/QuickRemedyMarker.kt:12-52 | a single-parent commit with an author, a resolvable parent author of the same name, a gap of at most 300 s and a phrase gets the trailer after its full message; anything else keeps `message` |
| QuickRemedy.RemedyAnnotation | src/main/kotlin/page/caffeine/preform/filter/marker/QuickRemedyMarker.kt:47-51 | definition; properties in `RemedyAnnotationOneLine` |
| QuickRemedy.RemedyAnnotationOneLine | src/main/kotlin/page/caffeine/preform/filter/marker/QuickRemedyMarker.kt:47-51 | a one-line full message m becomes `m + "\n\n[Preform] Quick Remedy"` |
| QuickRemedy.ThresholdIsInclusive | src/main/kotlin/page/caffeine/preform/filter/marker/QuickRemedyMarker.kt:31-36 | a gap of exactly five minutes or a negative gap passes, one second more does not |
| Extensions.AnyExtensionMatches | src/main/kotlin/page/caffeine/preform/filter/normalizer/ExtensionFilter.kt:27 | true iff the name ends with "." and one of the extensions |
| Extensions.ExtensionFilter.TestFileName | src/main/kotlin/page/caffeine/preform/filter/normalizer/ExtensionFilter.kt:27 | definition; properties in `AnyExtensionMatches`, `TestFileNameExamples` |
| Extensions.ExtensionFilter.RewriteBlob | src/main/kotlin/page/caffeine/preform/filter/normalizer/ExtensionFilter.kt:15-25 | delegates iff there is a name whose lower-cased form ends with "." and an extension; otherwise ZERO |
| Extensions.TestFileNameExamples | src/test/kotlin/page/caffeine/preform/filter/normalizer/ExtensionFilterTest.kt:11-18 | with "java": "A.java" and "A.tmp.java" kept; "a.c", "A.javascript" and "a.rjava" rejected |
| Extensions.LowercaseIsIdempotent | src/main/kotlin/page/caffeine/preform/filter/normalizer/ExtensionFilter.kt:16 | lower-casing twice is lower-casing once |
| Extensions.NameCaseIsIgnored | src/main/kotlin/page/caffeine/preform/filter/normalizer/ExtensionFilter.kt:16 | a name and its lower-cased form are decided alike |
| Extensions.UpperCaseExtensionNeverMatches | src/main/kotlin/page/caffeine/preform/filter/normalizer/ExtensionFilter.kt:27 | an extension with an upper-case letter never matches a lower-cased name |
| Extensions.MissingNameIsDropped | src/main/kotlin/page/caffeine/preform/filter/normalizer/ExtensionFilter.kt:16-17 | no entry name gives ZERO |
| LineBreaks.LineBreakConverter.Separator | src/main/kotlin/page/caffeine/preform/filters/Linebreak.kt:56-73 | every converter joins with one of "\r", "\n", "\r\n" |
| LineBreaks.LineBreakConverter.Convert | src/main/kotlin/page/caffeine/preform/filters/Linebreak.kt:56-73 | splitting the output into lines gives the input's lines |
| LineBreaks.ParseConverter | src/main/kotlin/page/caffeine/preform/filters/Linebreak.kt:22-28 | succeeds exactly for "CR", "cr", "LF", "lf", "CRLF", "crlf", with a converter of that name |
| LineBreaks.ParseNames | src/main/kotlin/page/caffeine/preform/filters/Linebreak.kt:13-28 | each name in upper or lower case parses to its converter; the default "LF" gives LF; mixed case fails |
| LineBreaks.RewriteBlob | src/main/kotlin/page/caffeine/preform/filters/Linebreak.kt:32-48 | delegates iff the lower-cased name does not end in ".java"; a rewritten blob has the same lines |
| LineBreaks.ConvertIsIdempotent | src/main/kotlin/page/caffeine/preform/filters/Linebreak.kt:59-72 | converting twice is converting once |
| LineBreaks.ConvertForgetsEarlierConversion | src/main/kotlin/page/caffeine/preform/filters/Linebreak.kt:56-73 | the result depends only on the last converter applied |
| LineBreaks.ConvertKeepsSingleLine | src/main/kotlin/page/caffeine/preform/filters/Linebreak.kt:59-72 | text without line breaks is unchanged |
| LineBreaks.ConvertedCharacter | src/main/kotlin/page/caffeine/preform/filters/Linebreak.kt:56-73 | every line break of the output is a character of the separator |
| LineBreaks.ConvertLeavesOneKindOfBreak | src/main/kotlin/page/caffeine/preform/filters/Linebreak.kt:59-67 | LF output holds no '\r', CR output no '\n' |
| KotlinText.LinesOfJoin | src/main/kotlin/page/caffeine/preform/filters/Linebreak.kt:59-72 | joining break-free lines with a line separator and splitting again gives the lines back |
| KotlinText.TrimMarginOfTemplate | src/main/kotlin/page/caffeine/preform/filter/marker/RevertCommitMarker.kt:131-135 | `trimMargin()` of a blank-indented margin template gives its body lines joined by "\n" |

## Left out

- Diff computation and blob reads (`DiffFormatter.scan`, `toEditList`, `RawText`, `readBlob`) are not modelled. Their results are inputs: change records with their old and new line lists and edits, whose ranges are in bounds.
- The rewriting engine is not modelled: traversal order, filling the commit mapping, object writes. A traversal is a sequence of visits in the given order, and the commit mapping is a parameter. The engine's default `rewriteParents`, `rewriteCommitMessage` and `rewriteBlob` are modelled as mapping lookup with fallback, the identity, and `Delegate`.
- `null` change types, null edit types and null messages are not modelled. Messages are always present, so the `message ?: ""` fallbacks do not arise.
- For the marker and the squasher, a null parent array is not modelled. The remover's null array is passed on as `None`, because the engine's own default is not visible.
- The squasher reads the reverted commit's parents from the in-memory commit objects. The model looks them up in the source history.
- QuickRemedyMarker parses the parent in the target repository. That lookup is an optional input, the parent's author. Times are whole seconds, and time zones are left out since they do not change a duration.
- Logging, the dry-run info line and the `println` of `cleanUp` are left out. `HistoryLinearizer.CleanUp` returns the count instead of printing it.
- Linebreak's UTF-8 decoding of the blob and re-encoding of the result are left out. The content is a string.
- ChangeVectors.StringHash: characters are hashed as Unicode scalar values. Kotlin hashes UTF-16 code units, so the two differ for characters outside the Basic Multilingual Plane.
- ChangeVectors.HashCode: it is a ghost function. The iteration order of the sets is not modelled, which is sound because the wrapping sum does not depend on it.
- KotlinText.Lowercase: only ASCII letters are mapped. Kotlin's `lowercase()` follows the full Unicode case mapping.
- ChangeVectors.ChangeVector.Reversed: the source's result shares its set objects with the receiver. With value sets that aliasing cannot be observed, and no filter mutates a vector after reversing it.
- RevertMarker.MarkerVectorOfInverse: it is stated only for diffs without a copy from one Java file to another. The undo of such a copy is a deletion against "/dev/null", which the marker's `.java` gate skips (`RevertMarker.CopyUndoIsIgnored`). So the content check cannot pair a Java copy with its undo.
- RevertMarker.ConsecutiveUndoIsMarked: it excludes Java-to-Java copies, for the same reason.
- ChangeVectors.EditsVectorOfInverse: the reversal is not stated for a copy's edits. They sit under "/dev/null" in the undo record, and `fromTrees` reads edits only for modifications.
- RevertMarker.RevertTemplateNamesId: it is stated only for messages whose trailing text holds no second reference. With one, the later reference is captured, as `RevertedId` states.
- Statistics and the filters built on the Java parser, the external refactoring detector and the command-line front end are not part of this model.
