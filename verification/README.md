# A verified model of four parts of XNU

This project models, in Dafny, four self-contained parts of the XNU kernel and proves what they are
meant to guarantee, for all inputs and over all runs.

1. **The mkext codec** (`libkern/mkext.c`): the LZSS dictionary that the encoder keeps as 256 binary
   search trees in four arrays, the LZSS decoder with its 4096-byte ring, and the Adler-32 checksum.
   Modules `Lzss*`, `Adler32`, `AdlerErrors`.
2. **The MAC policy list** (`security/mac_base.c`, `security/mac_internal.h`, `security/mac_label.c`):
   the busy/exclusive protocol between readers and writers of the list, registration and removal of
   policies, the iteration over them, the decision it leads to, label slots, label namespaces and the
   textual form of labels. Modules `Mac*`.
3. **Kext versions** (`libkern/OSKextVersion.c`): the version string parser and printer. Modules `Kext*`.
4. **kcdata** (`libkdd/kcdata.h`, `osfmk/kern/kern_cdata.c`): the kernel's writer of chunked data and the
   iterators that read it. Modules `Kcdata*`.

`dafny verify dfyconfig.toml` checks all of it.

## How to read it

Code that updates memory is modelled by classes, arrays and loops: `LzssState.EncodeState` holds the
encoder's arrays, `MacPolicyList.PolicyList` the policy list, `MacNamespaces.NamespaceLists` the label
namespaces, `MacLabel.Label` a label, `KcdataWriter.Descriptor` a kcdata descriptor; `LzssDecoder.Decompress`,
`Adler32.Adler32`, `KextParser.ParseVersionString` and `KextGetString.GetString` are the loops of the
source. Each is proved equal to a specification, and the theorems are about the specifications:

* `LzssTrees.Rep` says which tree a piece of the link arrays represents and `LzssTrees.Context` is a tree
  with a hole; `LzssForest.Forest` is the encoder's invariant. `LzssRun` forgets the trees: a dictionary is
  a set of nodes, and every run of the array code is a run of set operations.
* `LzssDecoder.Decode` decodes against an unbounded history, with no ring and no flag word.
* `Adler32.From` are the two sums of a block without any reduction or word size.
* `MacBusy` is a transition system with one step for each access to the shared state; what a thread does
  under the mutex is one step where nobody can come between (`MacBusy.MutexProtects`), and the two loads of
  the unlocked test are two steps, in either order. `MacChange` adds the registrations and removals, one
  field after the other, and `MacWalk` a thread that walks over the list.
* `Runs` is what the steps of any transition system keep; the runs of the MAC modules are instances of it.
* `MacCalls` says what each call of the protocol has done when it returns, `MacRequests` when a request for a
  label's text succeeds.
* `MacPolicyTable.Register` and `Unregister` are the policy list as a value, and `Inv` its invariant.
* `KextVersion.VersionOf` is the grammar of version strings, read field by field, and `KextSpelling.Spelling`
  the parts that such a string is made of.
* `KcdataLayout.Record` is what was put into a buffer and `Place` where it belongs.

Several things the code or its comments suggest turn out not to hold without a condition. The code is
modelled as it is, and the condition is proved exact:

* Unregistering keeps the list invariant if and only if the policy is not a static one and its handle is
  not 0 while that is the highest one (`UnregisterKeepsIff`). A comment says that static policies cannot be
  unloaded (`security/mac_base.c:228-230`); the only test is the policy's own unload flag
  (`security/mac_base.c:808`). A weaker invariant survives the removal of any policy but handle 0 as the
  highest (`UnregisterKeepsLooseIff`, `FreeRunKeeps`), and over it both consequences are exact. A walk visits
  all loaded policies if and only if there are more policies than `staticmax` or no dynamic ones
  (`VisitsAllIff`). The search for a free handle (`security/mac_base.c:716-722`) finds none if and only if the
  list is not full and every place from `staticmax` on is taken (`NoPlaceIff`). For the first static policy
  that is unloaded this means: a dynamic policy is skipped if and only if it is the only one
  (`StaticUnloadMisses`), and no handle is found if and only if the list was full (`StaticUnloadHidesPlace`).
  `StaticUnloadExample`, `TwoUnloadsExample` and `StaticUnloadFullExample` are runs that get there.
* Removing handle 0 when it is the highest wraps `maxindex` around, and the next search for a policy name
  (`security/mac_base.c:678`) then runs past the list (`HandleZeroWraps`, `HandleZeroExample`).
* A walk visits no policy twice under any interleaving with other threads' registrations and removals of
  dynamic policies. It misses policies that stay loaded if and only if its unlocked test
  (`security/mac_base.c:303`) ends it: when `staticmax` has risen, from the load of `numloaded` to that of
  `staticmax`, by at least the number of dynamic policies that `numloaded` counted; then it misses those from
  that `staticmax` on (`MacWalk.WalkVisits`). `staticmax` rises when a late registration gets the handle just
  behind the static policies (`security/mac_base.c:731-736`), and `numloaded` counts one policy too few while
  such a registration has raised `staticmax` (735) and not yet `numloaded` (744), and one too many while a
  removal has cleared its entry (815) and not yet lowered `numloaded` (825) (`MacChange.CountersTell`). With
  nothing between the two loads this leaves one case, a single dynamic policy and a test between the counters
  of a registration (`MacWalk.WalkUninterrupted`); with no registration between its counters during the walk
  there is none (`MacWalk.WalkVisitsAll`). `MacWalkExample.MissExamples` has a run with the test between the
  counters and one with a whole registration between the loads. A policy that is not missed is heard: the
  check fails if it denies, and the grant is given if it grants (`MacWalkDecision.WalkDecides`).
* Unregistering takes back one listening of a policy that has label names, and only on the dynamic list. The
  namespaces are free of the policy afterwards if and only if it did not listen on the static list and
  listened at most once on the dynamic one, or not at all if it has no label names
  (`CleanUpIsCompleteIff`). For a dynamic policy that is the case if and only if it has at most one label
  name and no policy had put that name on the static list before (`CleanUpAfterRun`; `TwoNamesLeaveOne` and
  `StaticNameLeavesOne` are runs that leave a listening behind). The comments at
  `security/mac_base.c:512-519` and `security/mac_base.c:537-542` describe a complete removal.
* Namespace names stay distinct if and only if a new name is not cut to one that is there already
  (`AddOneDistinctIff`); a name of 32 characters or more appears twice after two registrations
  (`LongNameTwice`).
* The order in which policies are asked changes the decision if and only if no error has a rank and two
  errors differ (`OrderMatters`).
* The first n bytes of the decoder's output depend on ring bytes that are never initialised if and only if a
  copy that begins before output byte n begins at one of them (`StaleBytesMatter`, for every n;
  `StaleExample` is such a stream).
* Printing and parsing a kext version give it back if and only if its fields are ones the parser can
  produce (`PrintThenParse`). The parser takes up to four digits in each number, where
  `libkern/libkern/OSKextLibPrivate.h:669-671` documents two for the last two, and steps over a period
  after exactly four digits of the revision.
* A kcdata walk reads everything back if and only if no item has the type of the end marker
  (`ReadsBack`), and an array if and only if its elements are not empty and its size does not wrap around
  (`ArrayReadsBack`). The layout in
  `libkdd/README.md:19-20` shows zero flags in the header that begins a buffer; the writer stores 0x80 there.

Conventions: bit operations are written as arithmetic on non-negative integers; unsigned wrap-around is
written out wherever it can happen; memory is a sequence of bytes, and addresses do not wrap.

## Model

| member | source | states |
|---|---|---|
| LzssKeys.Match | libkern/mkext.c:242-246 | The length of the common prefix of two F-byte keys: all bytes before it agree and the next one differs. |
| LzssKeys.Trichotomy | libkern/mkext.c:242-253 | Two keys are equal exactly when they match in all F bytes, and exactly when neither is less, so a search that finds no difference has found an equal key. |
| LzssKeys.LessTransitive | libkern/mkext.c:224-253 | Keys are transitively ordered, and of two keys on the same side the farther one never matches longer. |
| LzssKeys.CloserMatchesLonger | libkern/mkext.c:242-253 | A key between two others matches each of them at least as long as they match each other; so the best match lies on the search path. |
| LzssTrees.InOrderPlug | libkern/mkext.c:83-105 | Filling the hole of a context puts the subtree's nodes between those before and those after the hole. |
| LzssTrees.RepUnique | libkern/mkext.c:83-105 | The link arrays represent at most one tree at a node: the representation is a function of the arrays. |
| LzssTrees.RepFrame | libkern/mkext.c:213-301 | Writes to the links of other nodes leave a represented tree as it is. |
| LzssTrees.RepPlug | libkern/mkext.c:213-301 | A represented context and a represented subtree at its hole represent the whole tree. |
| LzssTrees.Locate | libkern/mkext.c:269-301 | Every node of a represented tree is reached by its parent links: the tree splits into a context and the subtree at the node. |
| LzssSurgery.LinkLeafRep | libkern/mkext.c:229-239 | Linking a new leaf at the hole represents the tree with the leaf in place, and touches no link outside that tree. |
| LzssSurgery.HoistRep | libkern/mkext.c:294-300 | Putting a subtree in the place of a node represents the tree without the node, whichever side the node hung on and also at the root. |
| LzssSurgery.TakeOverRep | libkern/mkext.c:254-258 | The new node takes over both subtrees of the old one. |
| LzssSurgery.DetachMaxRep | libkern/mkext.c:286-289 | Cutting the greatest node out of the left subtree leaves the rest of that subtree hanging below it. |
| LzssSurgery.AdoptRightRep | libkern/mkext.c:291-292 | The predecessor takes over the right subtree of the deleted node. |
| LzssForest.ParentMarksNodes | libkern/mkext.c:187-301 | A position's parent is NIL exactly when it is in none of the 256 trees, and it can only be in the tree of its first byte: the trees are disjoint. |
| LzssForest.InsertSortedMembers | libkern/mkext.c:213-265 | Inserting adds the new node and drops only a node with an equal key. |
| LzssForest.WithoutMembers | libkern/mkext.c:269-301 | Deleting removes exactly the one node. |
| LzssEncoder.FartherNotLonger | libkern/mkext.c:224-253 | No node on the far side of a node that was passed can match longer than that node did. |
| LzssEncoder.GoRight | libkern/mkext.c:225-253 | One step of the search to the right keeps the invariant: every node outside the remaining subtree matches no longer than the best so far, and lies on the right side. |
| LzssEncoder.GoLeft | libkern/mkext.c:233-253 | The same for a step to the left. |
| LzssEncoder.LeafForest | libkern/mkext.c:229-239 | Adding a leaf where the search ended keeps the forest and inserts the node at its place in key order. |
| LzssEncoder.EqualForest | libkern/mkext.c:254-264 | Replacing a node with an equal key keeps the forest, puts the new node in the old one's place and takes the old one out. |
| LzssEncoder.DeleteForest | libkern/mkext.c:269-301 | Deleting a node keeps the forest and every other node in order, in all four cases. |
| LzssEncoder.PredecessorRep | libkern/mkext.c:281-292 | Moving the in-order predecessor up represents the tree with the predecessor at the top, also when it is the direct child. |
| LzssState.EncodeState.constructor | libkern/mkext.c:187-203 | The initial state holds 256 empty trees, spaces in all but the last F bytes of the text, and no node in a tree. |
| LzssState.EncodeState.Compare | libkern/mkext.c:242-246 | The comparison loop yields the length of the common prefix and the sign of the order. |
| LzssState.EncodeState.Search | libkern/mkext.c:224-253 | The search ends at the one place where the key belongs or at a node with an equal key, with the longest match over the whole tree; it terminates because the remaining subtree shrinks. |
| LzssState.EncodeState.InsertNode | libkern/mkext.c:213-265 | Keeps the invariant of the whole forest, inserts in key order, leaves the other 255 trees alone, and leaves the longest match over all nodes that were in the tree, or length 0 exactly for an empty tree; of several longest matches it is the topmost, whose subtree holds all others. |
| LzssState.EncodeState.Predecessor | libkern/mkext.c:281-285 | The loop to the right ends at the greatest node of the left subtree. |
| LzssState.EncodeState.DeleteNode | libkern/mkext.c:269-301 | Keeps the invariant, removes exactly the node from its tree and nothing from the other trees; does nothing for a node in no tree. |
| LzssState.EncodeState.WriteText | libkern/mkext.c:83-105 | Overwriting a text byte keeps the invariant when no key of a node in a tree covers it. |
| LzssRun.LongestOverall | libkern/mkext.c:213-265 | The longest match in the key's tree is, beyond length 0, the longest over all nodes of all trees. |
| LzssRun.Perform | libkern/mkext.c:187-301 | Each operation on the arrays is the operation on a set of nodes, and an insertion reports the longest match over that set. |
| LzssRun.Run | libkern/mkext.c:187-301 | Every run of insertions, deletions and text writes keeps the invariant and computes the set that the run describes. |
| LzssRun.RunKeepsKeysDistinct | libkern/mkext.c:213-301 | Over every run the nodes have pairwise distinct keys. |
| LzssDecoder.RingPush | libkern/mkext.c:146-147 | Writing at the cursor keeps the ring equal to the last 4096 bytes of the history. |
| LzssDecoder.RingRead | libkern/mkext.c:162 | A ring position holds the history byte at the distance the position stands for. |
| LzssDecoder.DistanceKept | libkern/mkext.c:161-168 | While a copy runs, reader and cursor advance together, so that its distance stays the same. |
| LzssDecoder.PackedCounts | libkern/mkext.c:128-135 | Bit 8 of the flag word tells whether flags are left, bit 0 is the next flag, and a shift moves to the following ones. |
| LzssDecoder.LoadFlags | libkern/mkext.c:134 | Loading a byte with 0xFF above it packs exactly its eight bits. |
| LzssDecoder.CopyRun | libkern/mkext.c:161-169 | The copy loop appends the copy from the history, or the part of it that fits. |
| LzssDecoder.OneToken | libkern/mkext.c:136-170 | One turn consumes one token, keeps ring and output in step with the history, and stops only when the output is full or the stream ends. |
| LzssDecoder.Decompress | libkern/mkext.c:108-174 | For every source and every destination size the output is the first bytes of the decoding against an unbounded history, the rest of the destination is untouched, and the length written is returned; a size of 0 acts as 1, since the end is tested after a store. |
| LzssStream.ReadGroup | libkern/mkext.c:127-171 | A group of tokens behind its flags reads back, whatever follows. |
| LzssStream.ReadEncoded | libkern/mkext.c:127-171 | Every list of valid tokens, written in groups of eight, reads back as the same list. |
| LzssStream.DecodeEncoded | libkern/mkext.c:108-174 | Decoding a written token list yields the meaning of the tokens. |
| LzssStream.Expansion | libkern/mkext.c:127-171 | The output is at most nine times as long as the source. |
| LzssStale.MarksIff | libkern/mkext.c:161-169 | For every n: one of the first n decoded bytes comes from an uninitialised one exactly when some copy that begins before output byte n begins at one. |
| LzssStale.StaleBytesMatter | libkern/mkext.c:119-124 | For every n the first n output bytes are independent of the uninitialised ring bytes exactly when no copy that begins before byte n begins at one, which positions and lengths of the tokens tell. |
| LzssStale.StaleExample | libkern/mkext.c:119-124 | A stream of three bytes whose first output byte is different for different contents of those bytes. |
| Adler32.LateReduction | libkern/mkext.c:50-66 | Reducing the sums late gives the same as reducing after every byte. |
| Adler32.Halves | libkern/mkext.c:67 | The first sum modulo 65521 is the low half of the checksum and the second one the high half. |
| Adler32.WorstClosed | libkern/mkext.c:33-40 | A closed form of the largest second sum after m bytes. |
| Adler32.FromBound | libkern/mkext.c:33-40 | No content of a block drives a sum above that bound. |
| Adler32.LargestBlock | libkern/mkext.c:33-40 | All blocks of n bytes, after all reduced sums, keep both sums below 2^32 exactly when n is at most 5552. |
| Adler32.WorstIsReached | libkern/mkext.c:33-40 | There is a block that reaches the bound, so it cannot be improved. |
| Adler32.FromReduced | libkern/mkext.c:50-66 | Summing a block from reduced sums and reducing once gives the sums of the definition. |
| Adler32.Block | libkern/mkext.c:53-63 | The unrolled block with its 32-bit sums computes the sums of its bytes without reduction, so neither wraps around. |
| Adler32.Adler32 | libkern/mkext.c:42-68 | The checksum is the byte-by-byte Adler-32 of sections 2.2 and 9 of RFC 1950, for every length. |
| AdlerErrors.ConcatSums | libkern/mkext.c:42-68 | The sums of a concatenation in terms of those of its parts. |
| AdlerErrors.OneByteDetected | libkern/mkext.c:42-68 | Changing one byte always changes the checksum. |
| AdlerErrors.CancelFactor | libkern/mkext.c:33-40 | A factor below 256 can be cancelled modulo 65521. |
| AdlerErrors.SwapDetected | libkern/mkext.c:42-68 | Swapping two bytes goes unnoticed exactly when they are equal or their distance is a multiple of 65521. |
| MacBusy.StepCount | security/mac_base.c:270-328 | A step of any thread keeps the busy count equal to the references held and fires no assertion. |
| MacBusy.StepOwner | security/mac_base.c:270-328 | A step keeps the mutex with the thread whose place in the code says so. |
| MacBusy.StepInv | security/mac_base.c:270-328 | Every step of every thread keeps the invariant. |
| MacBusy.RunInv | security/mac_base.c:270-328 | The invariant holds in every state of every interleaving. |
| MacBusy.Safety | security/mac_base.c:270-328 | In every reachable state no assertion has fired, the busy count is the number of references, and a thread with exclusive access is alone: no references, no other exclusive holder. |
| MacBusy.NoLostWakeup | security/mac_base.c:270-328 | No thread sleeps on the busy event while the count is 0 and the mutex is free. |
| MacBusy.MutexProtects | security/mac_base.c:270-328 | While a thread owns the mutex, no step of another changes the mutex, the busy count or the list. |
| MacBusy.BusySectionIsStable | security/mac_base.c:290-328 | The list does not change while a thread holds a reference. |
| MacBusy.NoDeadlock | security/mac_base.c:270-328 | While any call is under way, some thread can take a step or still has a reference to give back. |
| MacCalls.BusyTakesOne | security/mac_base.c:290-296 | In every interleaving mac_policy_list_busy has taken exactly one reference when it returns. |
| MacCalls.ConditionalTakes | security/mac_base.c:298-316 | The conditional call has taken one reference when it returns exactly when its test under the mutex found dynamic policies, and none otherwise. |
| MacCalls.UnbusyGivesOne | security/mac_base.c:318-328 | mac_policy_list_unbusy has given exactly one reference back when it returns. |
| MacCalls.GrabReturns | security/mac_base.c:270-279 | A grab stays in its loop until it leaves it with the mutex, a count of 0 and no references anywhere. |
| MacCalls.ReleaseReturns | security/mac_base.c:281-287 | A release changes no reference, leaves the mutex to others and nobody asleep. |
| MacChange.AllParts | security/mac_base.c:697-744 | The field writes of a registration, and those of a removal, together are the registration and removal of `MacPolicyTable`. |
| MacChange.ChangeKeeps | security/mac_base.c:648-827 | Every single field write leaves the list quiet and valid or part old and part new in the order of the code. |
| MacChange.StaticPassesNone | security/mac_base.c:731-736 | No write moves staticmax past a loaded dynamic policy. |
| MacChange.BoundsKept | security/mac_base.c:648-827 | Between any two writes staticmax and maxindex stay inside the table. |
| MacChange.CountersTell | security/mac_base.c:697-827 | Between any two writes of a change, numloaded is staticmax plus the number of dynamic policies, less one while a registration has raised only staticmax, plus one while a removal has only cleared its entry. |
| MacChange.CountersMislead | security/mac_base.c:303-306 | In any one such list the counters deny a loaded dynamic policy exactly when a registration has raised staticmax and not yet numloaded and there is no other dynamic policy. |
| MacWalk.WorldStepInv | security/mac_internal.h:226-247 | Every step of the walking thread, of the protocol and of a change keeps the invariant: whoever is in the second loop has a reference, and then nothing changes. |
| MacWalk.ReadsInside | security/mac_internal.h:228-241 | Both loops read inside the table, the first one also in the middle of a change. |
| MacWalk.WalkVisits | security/mac_internal.h:226-247 | Every walk, under every interleaving and with the two loads of the unlocked test in either order, visits no policy twice, and misses a policy that stays loaded exactly when it is not below staticmax at the load of staticmax, and staticmax rose between the loads by at least the number of dynamic policies counted at the load of numloaded. |
| MacWalk.WalkUninterrupted | security/mac_internal.h:226-247 | When both loads see the same list, a policy that stays loaded is missed exactly when a registration is between the two counters and the policy is the only dynamic one. |
| MacWalk.WalkVisitsAll | security/mac_internal.h:226-247 | A walk during which no registration is between the counters visits every policy that stays loaded, also if changes fall between the loads. |
| MacWalkExample.MissExamples | security/mac_base.c:303-306 | Two interleavings from the initial state whose walks miss a loaded policy: one with the test between the counters of a registration, one with a whole registration between the two loads and no change under way at either. |
| MacWalkDecision.WalkSources | security/mac_internal.h:226-247 | A walk visits only handles that hold a policy in some list it came across, and its test loads from such lists. |
| MacWalkDecision.WalkDecides | security/mac_internal.h:264-295 | Under every interleaving, a policy that stays loaded and is not missed is heard: if it denies, the check fails with an error of at least its rank, and if it grants, the grant is given. |
| MacWalkDecision.WalkDecidesOnly | security/mac_internal.h:264-295 | Under every interleaving, the error of a check, and a grant, are the answer of a policy that was loaded at some time during the walk. |
| MacDecision.CheckResult | security/mac_base.c:855-892 | The combined error is 0 exactly when all errors are, has the highest rank of all, is one of them, and is the last nonzero one when none has a rank. |
| MacDecision.SameDecision | security/mac_base.c:855-892 | With a ranked error, or with one nonzero value only, the order of the errors does not matter. |
| MacDecision.OrderMatters | security/mac_base.c:855-892 | The decision is the same for all orders exactly when there is a ranked error or all nonzero errors are equal. |
| MacDecision.GrantResult | security/mac_internal.h:283-295 | A grant is given exactly when one policy gives it, and is EPERM otherwise. |
| MacPolicyTable.GrownKeeps | security/mac_base.c:648-670 | Growing the list keeps the invariant and all entries, and makes room. |
| MacPolicyTable.FreePlace | security/mac_base.c:715-722 | While the list is not full, the search from the hint finds a free entry. |
| MacPolicyTable.EarlyHandle | security/mac_base.c:715-736 | Before late loading, a new policy gets the handle just behind the static ones, so that raising the mark covers it. |
| MacPolicyTable.RegisterKeeps | security/mac_base.c:606-776 | Registration keeps the invariant in every case, also when it fails, and always finds a handle. |
| MacPolicyTable.RegisterKeepsLoose | security/mac_base.c:606-776 | Registration keeps the weaker invariant, in which static policies may be missing, in every case up to a search that finds no handle, and the stronger one where it held. |
| MacPolicyTable.RegisterErrors | security/mac_base.c:639-699 | Exactly when each error is returned, and that the table is then as it was or grown. |
| MacPolicyTable.RegisterOutcome | security/mac_base.c:715-744 | On success the smallest free handle is taken and no other entry changes. |
| MacPolicyTable.RegisterCounters | security/mac_base.c:648-744 | On success the lowest free label slot is taken if one is wanted, numloaded and maxindex follow, staticmax is raised exactly when the handle is just behind the static ones during boot or for a policy that cannot be unloaded, and the list has grown only if it was full. |
| MacPolicyTable.NameTakenIffLoaded | security/mac_base.c:677-688 | The name search finds a name exactly when a loaded policy has it. |
| MacPolicyTable.UnregisterKeepsIff | security/mac_base.c:779-849 | Removal keeps the invariant exactly when the policy is not a static one and its handle is not 0 while that is the highest. |
| MacPolicyTable.UnregisterOutcome | security/mac_base.c:800-849 | For every table and loaded policy: EBUSY, with nothing changed, exactly for a registered policy without the unload flag, otherwise 0; a registered policy is then gone, its slot free, the counts lowered, and no other entry changed. |
| MacPolicyTable.UnregisterKeepsLooseIff | security/mac_base.c:779-849 | Removal of any policy, static ones included, keeps the weaker invariant exactly when it is not handle 0 as the highest. |
| MacPolicyTable.RunKeeps | security/mac_base.c:606-849 | The invariant holds after every run of registrations, the end of boot, and removals of dynamic policies: counts, bounds, distinct names, conserved slots. |
| MacPolicyList.LoadedMeaning | security/mac_internal.h:226-247 | The reference walk lists exactly the loaded handles of a range, in order. |
| MacPolicyList.VisitsAll | security/mac_internal.h:226-247 | Under the invariant the two loops with the shortcut visit every loaded policy once, in order. |
| MacUnload.VisitsAllIff | security/mac_internal.h:226-247 | After any registrations and removals the two loops visit all loaded policies exactly when more are loaded than staticmax says or none is loaded from staticmax on. |
| MacUnload.NoPlaceIff | security/mac_base.c:715-722 | After any registrations and removals the search for a free handle finds none exactly when the list is not full and every place from staticmax on is taken. |
| MacUnload.FreeRunKeeps | security/mac_base.c:606-849 | The weaker invariant holds after every run of registrations that do not fail to find a handle, the end of boot, and removals of any policies but handle 0 as the highest. |
| MacUnload.StaticUnloadMisses | security/mac_internal.h:226-247 | After the first removal of a static policy, a dynamic policy is visited exactly when it is not the only one. |
| MacUnload.StaticUnloadHidesPlace | security/mac_base.c:715-722 | After the first removal of a static policy, the search for a free handle finds none exactly when the list was full. |
| MacUnload.HandleZeroWraps | security/mac_base.c:678-688 | After a removal the next search for any name runs past the list exactly when handle 0 was removed as the highest; the walk over the policies stays inside. |
| MacUnload.StaticUnloadExample | security/mac_base.c:779-849 | A run that ends with a loaded policy no walk visits. |
| MacUnload.TwoUnloadsExample | security/mac_base.c:779-849 | A run with two static policies removed that ends with two loaded policies no walk visits. |
| MacUnload.StaticUnloadFullExample | security/mac_base.c:715-722 | A run of eight registrations after which a removal leaves no handle to be found. |
| MacUnload.HandleZeroExample | security/mac_base.c:821-823 | One registration and its removal let the next search for a name run past the list. |
| MacPolicyList.PolicyList.constructor | security/mac_base.c:334-352 | The initial list is the empty one and valid. |
| MacPolicyList.PolicyList.RegisterPolicy | security/mac_base.c:606-776 | The in-place code computes the specified registration and keeps the list valid. |
| MacPolicyList.PolicyList.UnregisterPolicy | security/mac_base.c:779-849 | The in-place code returns EBUSY and changes nothing exactly for a registered policy without the unload flag, otherwise takes the policy out as specified, and keeps the list valid under the exact condition. |
| MacPolicyList.PolicyList.Iterate | security/mac_internal.h:226-247 | The two loops visit the specified handles. |
| MacPolicyList.PolicyList.MacCheck | security/mac_internal.h:264-274 | The check macro combines the answers of the visited policies in order. |
| MacPolicyList.PolicyList.MacGrant | security/mac_internal.h:283-295 | The grant macro combines the answers of the visited policies. |
| MacPolicyList.CheckDecides | security/mac_internal.h:264-274 | A check over a valid list is 0 exactly when every loaded policy that answers says 0, and otherwise an answer of highest rank. |
| MacPolicyList.GrantDecides | security/mac_internal.h:283-295 | A grant over a valid list is 0 exactly when some loaded policy grants, and EPERM otherwise. |
| MacLabel.DecodeEncode | security/mac_label.c:154-171 | Decoding undoes encoding exactly for the values that may be stored. |
| MacLabel.DecodeTwice | security/mac_label.c:154-171 | Decoding is its own inverse, so that no two stored words read as the same value. |
| MacLabel.Label.constructor | security/mac_label.c:46-68 | A new label reads 0 in every slot. |
| MacLabel.Label.Get | security/mac_label.c:176-183 | Reads the value of the slot, never the reserved word. |
| MacLabel.Label.Set | security/mac_label.c:192-208 | Stores the value, 0 included, and changes no other slot. |
| MacLabel.SlotsAreDistinct | security/mac_base.c:690-699 | Two registered policies with label slots have different slots. |
| MacLabel.SetAs | security/mac_label.c:192-208 | What one registered policy stores changes nothing another one reads. |
| MacNamespaces.AddOneDistinctIff | security/mac_base.c:463-492 | Adding a name keeps names distinct exactly when it is listed already or its stored form is not. |
| MacNamespaces.AddAllDistinct | security/mac_base.c:416-510 | Adding names of fewer than 32 characters keeps all names distinct over both lists. |
| MacNamespaces.LongNameTwice | security/mac_base.c:484-491 | Every longer name is there twice after two registrations. |
| MacNamespaces.AddAllListens | security/mac_base.c:493-498 | After a registration the policy listens to each of its namespaces. |
| MacNamespaces.AddAllKeepsListeners | security/mac_base.c:416-510 | No registration takes a listener away. |
| MacNamespaces.RunOfRegistrations | security/mac_base.c:416-510 | After any sequence of registrations names are distinct and every policy listens to all its namespaces. |
| MacNamespaces.RunKeepsDistinct | security/mac_base.c:416-556 | Over every sequence of registrations and removals the names stay distinct. |
| MacHearers.RunHearers | security/mac_base.c:416-510 | After any registrations with names that fit, the listeners of a namespace are exactly the policies that named it, the latest first. |
| MacHearers.NewInFront | security/mac_base.c:463-498 | A new namespace goes in front of the static list for static policies and of the dynamic one otherwise, and the others keep their order. |
| MacHearers.RemoveFirstAt | security/mac_base.c:543-555 | A removal takes the first listening out of the first namespace that has one, and the namespace away if it was the last; no other namespace is touched. |
| MacHearers.RemoveNothing | security/mac_base.c:543-555 | It changes nothing if the policy listens to none of them. |
| MacHearers.RunKeepsHeard | security/mac_base.c:416-556 | Over every run of registrations and removals no namespace stays without a listener. |
| MacNamespaces.NamespaceLists.AddToLabelList | security/mac_base.c:416-510 | The in-place code computes the specified lists; the allocated elements never run out, every one is linked or freed, and every listener is used. |
| MacNamespaces.NamespaceLists.RemoveFromLabelList | security/mac_base.c:521-556 | The in-place code computes the specified removal, and returns at once for a policy without label names. |
| MacListeners.NoListening | security/mac_base.c:543-555 | The counts of listenings are 0 exactly when the policy listens to no namespace of either list. |
| MacListeners.RemoveListening | security/mac_base.c:521-556 | Removal takes exactly one listening of the policy away, on the dynamic list and if it has label names, and none of any other policy. |
| MacListeners.CleanUpIsCompleteIff | security/mac_base.c:521-556 | The policy listens to nothing afterwards exactly when it had no listening on the static list and at most one, or none without label names, on the dynamic list. |
| MacListeners.AddAllListening | security/mac_base.c:463-498 | A dynamic policy gets one listening for each name, on the static list for the names that are there already. |
| MacListeners.AddAllTotal | security/mac_base.c:463-498 | Every registration adds one listening for each name to the policy and none to any other. |
| MacListeners.CleanUpAfterRun | security/mac_base.c:416-556 | From registration over any doings of other policies to removal: nothing is left exactly when there was at most one name and it was not on the static list. |
| MacListeners.TwoNamesLeaveOne | security/mac_base.c:543-552 | Two new names, registered and removed, leave one listening. |
| MacListeners.StaticNameLeavesOne | security/mac_base.c:467-498 | A name that a static policy listed leaves its listening. |
| MacLabelText.Internalize | security/mac_base.c:1128-1146 | The loop handles the comma-separated segments in order and stops at the first that is malformed or refused. |
| MacLabelText.SegmentCount | security/mac_base.c:1135-1144 | There is one segment more than there are commas. |
| MacLabelText.EntryRoundTrip | security/mac_base.c:1137-1142 | An entry splits into its name and data exactly when the name has no slash. |
| MacLabelText.JoinRoundTrip | security/mac_base.c:1128-1146 | Joined entries are split into the same entries, in order, exactly when they hold no comma and their names no slash. |
| MacLabelText.ProcessAll | security/mac_base.c:1128-1146 | When every entry is accepted, all of them reach the policies in order. |
| MacLabelText.ProcessSucceedsIff | security/mac_base.c:1128-1146 | mac_internalize returns 0 exactly when every segment has a slash and is accepted. |
| MacLabelText.ProcessFails | security/mac_base.c:1128-1146 | Otherwise its error is EINVAL for the first segment that fails if that has no slash, and what the policies say if it has; the entries before it, and in the second case its own, have been handed over. |
| MacExternalize.WriteAllText | security/mac_base.c:946-982 | The buffer always holds exactly the entries that policies supplied; entries that were declined leave no trace. |
| MacExternalize.WriteElement | security/mac_base.c:946-982 | The loop over listeners, with its rollback, computes the specified text. |
| MacExternalize.WriteLabel | security/mac_base.c:909-1000 | The code computes the specified buffer for one element, over both lists, the dynamic one only when there are dynamic policies. |
| MacRequests.AskedIff | security/mac_base.c:918-982 | Asked are exactly the listeners of the namespaces of that name, or for "*" of all whose names do not begin with a question mark. |
| MacRequests.ElementOutcome | security/mac_base.c:909-1000 | An element succeeds exactly when every reply is 0 or ENOENT and fits, and one supplies an entry unless the element is optional or "*"; otherwise the error is that of the first reply that is neither or does not fit, or ENOENT with the buffer as it was. |
| MacExternalize.Externalize | security/mac_base.c:1009-1066 | The loop over the requested elements computes the specified error and text; the last character is trimmed unless the buffer is empty or has overflowed, when its length reads -1. |
| MacRequests.RequestSucceedsIff | security/mac_base.c:1009-1066 | For every request, size and replies, a request succeeds exactly when each of its elements does behind the entries of those before it. |
| MacRequests.RequestFails | security/mac_base.c:1009-1066 | Otherwise it ends as its first element that does not, with the entries before that element. |
| MacRequests.RequestWithRoom | security/mac_base.c:909-1066 | With room for all replies and policies that only decline, a request succeeds exactly when each element is "*", optional or supplied. |
| MacRequests.RequestNotFound | security/mac_base.c:994-1066 | Otherwise it fails with ENOENT, and the text holds the entries before the first element that is none of these. |
| MacRequests.FailureOutput | security/mac_base.c:1055-1064 | After a failing reply the text keeps all earlier entries, and loses its last character exactly when the buffer has not overflowed. |
| MacExternalize.RequestText | security/mac_base.c:1009-1066 | A request without error leaves the text of exactly the entries that were supplied, in order. |
| MacExternalize.ExternalizeInternalize | security/mac_base.c:1009-1146 | The text of a successful request is split into the supplied entries exactly when there are some and they are free of commas and slashes in names. |
| MacInternalize.PassElement | security/mac_base.c:1094-1110 | The loop over the listeners of a namespace calls those with the operation in order, up to the first error. |
| MacInternalize.PassList | security/mac_base.c:1087-1111 | The loop over a list of namespaces hands the entry to the listeners of the matching ones, up to the first error. |
| MacInternalize.PassLabel | security/mac_base.c:1072-1126 | Both lists are walked, the dynamic one only when there are dynamic policies and no error yet; an entry that nobody takes is ENOPOLICY. |
| MacInternalize.CalledIff | security/mac_base.c:1094-1110 | Without an error exactly the listeners that have the operation are called. |
| MacInternalize.HandedIff | security/mac_base.c:1087-1094 | An entry is handed exactly to the listeners of its namespace, on the dynamic list only if there are dynamic policies. |
| MacInternalize.LabelOutcome | security/mac_base.c:1072-1126 | The error is that of the first listener that refuses, ENOPOLICY exactly when none refuses because none has the operation, and 0 otherwise. |
| MacInternalize.SupplierIsHanded | security/mac_base.c:909-1126 | The policy that supplied an entry of a request listens to the namespace to which the entry is handed back, also for optional names and for requests of all. |
| MacInternalize.EntryReaches | security/mac_base.c:1072-1126 | An entry that its supplier and all other listeners accept reaches the supplier, and ENOPOLICY is impossible. |
| MacInternalize.TextReachesPolicies | security/mac_base.c:1009-1146 | When the entries of a successful request are clean and accepted, internalizing the externalized text returns 0, passes on exactly them, in order, and each to the policy that supplied it. |
| KextVersion.ParsedIsLegal | libkern/OSKextVersion.c:188-395 | Every accepted string has fields in range, level 0 for a release and at least 1 for a candidate. |
| KextVersion.EncodeOrder | libkern/OSKextVersion.c:388-394 | The number orders versions by major, minor, revision, stage and level, and determines them. |
| KextVersion.EncodeRange | libkern/OSKextVersion.c:388-394 | The number is positive and fits in 63 bits. |
| KextVersion.ParsedOrder | libkern/OSKextVersion.c:188-395 | For all accepted strings the results are ordered as the versions they denote. |
| KextParser.ScanNumber | libkern/OSKextVersion.c:214-326 | A number loop with its exits reads the digits and leaves where the grammar says. |
| KextParser.ScanLevel | libkern/OSKextVersion.c:344-386 | The level loop accepts exactly the levels of the grammar. |
| KextParser.ParseVersionString | libkern/OSKextVersion.c:188-395 | The result depends on the text before the first whitespace only: the number of its parts if it is made up of proper parts, and -1 exactly if it is not. |
| KextSpelling.Read | libkern/OSKextVersion.c:188-395 | Every text put together from one to four digits, optional fields of up to four digits behind periods, and an optional stage letter d, a, b, f or fc with its level is accepted with the numbers of its parts. |
| KextSpelling.Spelled | libkern/OSKextVersion.c:188-395 | Every accepted text is put together that way. |
| KextSpelling.MeaningIff | libkern/OSKextVersion.c:188-395 | A text is accepted with a value exactly when it can be put together from parts with that value. |
| KextSpelling.ResultIff | libkern/OSKextVersion.c:388-394 | The result is the number of the parts, and -1 exactly for texts that have no such parts. |
| KextSpelling.CandidateExample | libkern/OSKextVersion.c:151-157 | "1.0fc1" is candidate 1 of version 1.0. |
| KextPrinter.FieldsOfEncode | libkern/OSKextVersion.c:432-456 | Dividing takes the number of a legal version apart into its fields. |
| KextPrinter.EncodeOfFields | libkern/OSKextVersion.c:432-456 | Every non-negative number is made up of its fields. |
| KextPrinter.PlainUnique | libkern/OSKextVersion.c:432-487 | A version has only one text of numerals without leading zeros, with a minor number, with a revision unless it is 0, and with one letter for its stage. |
| KextPrinter.PrintedIff | libkern/OSKextVersion.c:400-490 | For every number the text is "(missing)" for 0, "(invalid)" for a number out of range, and otherwise that one text of its parts. |
| KextPrinter.TextReadBack | libkern/OSKextVersion.c:188-490 | The printed text of every legal version parses to it. |
| KextPrinter.PrintThenParse | libkern/OSKextVersion.c:188-490 | Parsing the printed form of a number gives it back exactly when its fields are legal. |
| KextPrinter.ParsePrintParse | libkern/OSKextVersion.c:188-490 | Printing and parsing is the identity on the value of every accepted string. |
| KextPrinter.PrintFits | libkern/OSKextVersion.c:400-490 | Every printed text has at most 18 characters. |
| KextGetString.GetString | libkern/OSKextVersion.c:400-490 | Fills the buffer with the specified text, or refuses a buffer that is too short and leaves it alone. |
| Kcdata.WalkStaysInside | libkdd/kcdata.h:1654-1898 | On any memory a walk stays in bounds, visits adjacent items and takes at most one step for each 16 bytes. |
| Kcdata.TypeOfIff | libkdd/kcdata.h:1697-1705 | An iterator takes the sixteen types of padded arrays for arrays and every other type for itself. |
| Kcdata.FindType | libkdd/kcdata.h:1897-1911 | Returns the first visited item of the type, or the invalid iterator exactly when there is none. |
| Kcdata.CalcPadding | libkdd/kcdata.h:1707-1712 | Fewer than 16 bytes, and the sum is a multiple of 16. |
| Kcdata.SizeDropsPaddingOnly | libkdd/kcdata.h:1729-1762 | The reported size is at most the stored one and drops fewer than 16 bytes, for every header: nothing of arrays and containers, and of others exactly what the flags say, or all there is. |
| Kcdata.StructSizeReadBack | libkdd/kcdata.h:1729-1762 | A stored structure reports its own size, legacy types included, exactly when its type is not an array's or a container's or it needs no padding. |
| Kcdata.LegacySizeReadBack | libkdd/kcdata.h:1721-1751 | A legacy structure stored without the padding flag reports its own size. |
| Kcdata.ArrayFits | libkdd/kcdata.h:1828-1870 | In a valid array, old or padded, the elements fit in the payload, and with the padding make up a padded one. |
| Kcdata.ArrayInside | libkdd/kcdata.h:1828-1870 | The elements of a valid array lie inside the given memory. |
| Kcdata.ArrayReadBack | libkdd/kcdata.h:1778-1870 | An array header reads back valid and with its element size exactly when elements are not empty and their total stays below 2^32. |
| Kcdata.OldArrayReadBack | libkdd/kcdata.h:1778-1870 | An array as old kernels stored it reads back its type, count and element size, and is valid exactly when its element type is a known one; its remainder is that of the padding. |
| Kcdata.UnknownOldArray | libkdd/kcdata.h:1778-1850 | An old array of another element type is valid only if it is empty. |
| Kcdata.OldTypes | libkdd/kcdata.h:1796-1821 | The nine element types whose size is known. |
| Kcdata.OldArrayExample | libkdd/kcdata.h:1828-1850 | Three pids of four bytes in sixteen are a valid old array. |
| Kcdata.EmptyArrayReadBack | libkdd/kcdata.h:1828-1870 | An array without elements is valid. |
| KcdataLayout.HeaderReadBack | libkdd/kcdata.h:1654-1705 | The bytes of a header read back as the header. |
| KcdataLayout.WalkReadsRecords | libkdd/kcdata.h:1897-1898 | A walk over a laid-out buffer does not fail and reads the records in order, all of them exactly when none has the end marker's type. |
| KcdataLayout.FindRecord | libkdd/kcdata.h:1900-1911 | Over a laid-out buffer the search returns the first record of the type that a walk reaches, or the invalid iterator exactly when there is none. |
| KcdataWriter.OverflowCheck | osfmk/kern/kern_cdata.c:1167-1175 | The writer's check with 32-bit sums refuses exactly the sizes whose padded size and header do not fit in 32 bits. |
| KcdataWriter.Appended | osfmk/kern/kern_cdata.c:1194-1213 | Storing a header and padding behind the items appends a record and keeps all earlier ones. |
| KcdataWriter.Descriptor.StaticInit | osfmk/kern/kern_cdata.c:330-348 | The initialised buffer holds the header that begins it, or nothing when it is shorter than 32 bytes. |
| KcdataWriter.Descriptor.WriteBufferEnd | osfmk/kern/kern_cdata.c:1141-1149 | An end marker is behind the items and nothing else changes. |
| KcdataWriter.Descriptor.GetMemoryAddrWithFlavor | osfmk/kern/kern_cdata.c:1156-1222 | Exactly when it fails and how; on success one record is appended and only memory behind the items is written. |
| KcdataWriter.Descriptor.PushData | osfmk/kern/kern_cdata.c:834-850 | Appends the structure with its data and padding flags, or changes nothing. |
| KcdataWriter.Descriptor.PushArray | osfmk/kern/kern_cdata.c:852-873 | Appends the array, or changes nothing. |
| KcdataWriter.Descriptor.AddContainerMarker | osfmk/kern/kern_cdata.c:1275-1304 | Appends the marker with its identifier and type, or changes nothing. |
| KcdataWriter.BufferReadsBack | libkdd/kcdata.h:1897-1898 | Whatever was put into a descriptor is what a walk over its buffer reads. |
| KcdataWriter.StructReadsBack | libkdd/kcdata.h:1729-1762 | A structure in a buffer reads back its size, under the exact condition, and its data. |
| KcdataWriter.ArrayReadsBack | libkdd/kcdata.h:1778-1870 | An array in a buffer reads back its element type, count and data, and is valid with its element size exactly when the elements are not empty and the size did not wrap around. |
| KcdataWriter.ContainerReadsBack | libkdd/kcdata.h:1872-1895 | The beginning of a container reads back its type and identifier. |
| KcdataWriter.ContainerEndReadsBack | osfmk/kern/kern_cdata.c:1275-1304 | The end of a container reads back its identifier, and has no payload. |

## Left out

- The LZSS encoder's driver: `compress_lzss` is declared in `libkern/libkern/mkext.h:239` but its body is not in the repository, so the dictionary is verified for arbitrary runs of its operations.
- LzssDecoder.Decompress: the source is a value, so an overlap of source and destination is not modelled; for a destination size of 0 the array stands for the memory there, of at least one byte.
- LzssState.EncodeState.InsertNode: requires that the position is in no tree, as the encoder's driver must ensure; inserting a node twice is not modelled.
- Adler32.Adler32: the sums are 32 bits wide; the kernel's 64-bit `unsigned long` wraps no earlier, so the result is the same.
- MacBusy: the protocol is the one after late loading has begun; before that nothing is locked.
- MacWalk.WalkVisits: steps interleave one after the other, without reordering by compiler or processor; growing the table is one step, and what happens to the memory of the old table is not modelled; removals are of dynamic policies, as in `MacPolicyTable.RunKeeps`.
- MacPolicyTable.RegisterOutcome: policies are values, growth is one step, the counters' 32-bit increments are taken not to wrap, and the callbacks and module data of a policy, the early-boot checks that panic and the console messages are not modelled.
- MacPolicyList.PolicyList.MacCheck: what a policy's operation answers is a parameter; the busy reference around the dynamic loop is the subject of `MacBusy` and `MacWalk`.
- MacExternalize.Externalize: a policy's text that does not fit is an error of its own; the overflow flag that a declined entry may leave in the string buffer is not modelled.
- MacInternalize.PassLabel: what a policy's operation returns is a parameter of the entry alone, so that state a policy keeps between calls is not modelled.
- KextParser.ParseVersionString: strings are sequences without NUL characters, and null pointers are not modelled; an empty string is -1.
- KcdataWriter.Descriptor.GetMemoryAddrWithFlavor: compression, the allocation callback and failing copies to user memory are not modelled; the memory is a field that holds a sequence of bytes, so data that overlaps the buffer is not captured.
- The struct catalogue of `libkdd/kcdata.h`, type definitions, the size packing of `kcs_set_elem_size`, and `libkdd/kcdtypes.c`: tables and one-line accessors.
- The MAC hook wrappers, system calls and the module data list: each is one use of the iteration that is modelled, or copies data between address spaces.
- The rest of the kernel.
