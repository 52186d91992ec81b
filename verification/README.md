# Verified model of a WebDAV server library

This project models the stateful and algorithmic core of the server in Dafny 4.11 and proves what it
promises, for every input and every run.

* **Tree** (`Tree.dfy`). The id and parent-pointer tree under the in-memory lock system and filesystem. A
  labelling of nodes with their paths gives it a meaning; every operation keeps the tree well formed and
  does exactly one thing to the labelled entries. Moving a node onto the name it already has loses the node:
  the contract of `MoveNode` says that the tree stays well formed exactly when this is not so.
* **Locks** (`LockModel.dfy`, `MemLs.dfy`, `FakeLs.dfy`). Locks as a flat set with a clock, the invariants
  that hold in every run (sections 6 and 7 of RFC 4918), what a granted lock is worth at any time from the calls
  alone, and the tree walks with early exits that compute exactly the flat semantics. `FakeLs` is the flat filter over all locks, and agrees with the tree walk.
* **Paths** (`DavPath.dfy`, `PathParsing.dfy`, `PathValues.dfy`). Tests on bytes decide relations between
  segment sequences; parsing and printing invert each other, and parsing gives dots their meaning; the
  visibility walk over ancestors.
* **If headers** (`IfHeader.dfy`, `IfEvaluation.dfy`). The parser inverts a printer (section 10.4 of
  RFC 4918), each kind of condition holds exactly when it should, and a write that passes the gate named the lock
  in its way.
* **In-memory filesystem** (`FsModel.dfy`, `TreeViews.dfy`, `FileContents.dfy`, `MemFs.dfy`). The tree
  refines a map from segment sequences to nodes.
* **Open files** (`FileHandles.dfy`). Whatever is renamed, removed, copied or opened in between, a handle
  reads and writes the file it was opened on, and that file only.
* **DELETE, COPY and MOVE** (`Deletion.dfy`, `Copying.dfy`, `CopyMove.dfy`). The recursions and the
  handler around them (sections 9.6, 9.8 and 9.9 of RFC 4918); DELETE with arbitrary failing steps.
* **PUT and PATCH** (`TypedPut.dfy`). Exactly which requests are carried out, and all-or-nothing writes of
  calendar and address objects.
* **The gate in front of the handlers** (`GuardedWrites.dfy`). PUT, DELETE, COPY and MOVE with the lock system
  beside the filesystem: nobody writes where another's exclusive lock is, and what is removed or moved away
  leaves no lock behind.
* **GET ranges** (`GetRanges.dfy`), **free-busy merging** (`BusyIntervals.dfy`; section 7.10 of RFC 4791)
  and the **"._" negative cache** (`DuCache.dfy`).

## How the code appears here

Objects that the code changes in place are classes with the same fields (`Tree`, `MemLs`, `FakeLs`,
`MemFs`, `MemFsFile`, `DUCache`, `DUCacheBuilder`); loops over changing variables are loops in methods. Each
method is proved against a function or predicate on plain values, and what matters about those is proved in
lemmas. Clock readings, fresh tokens, allocation verdicts, file metadata and the validity of calendar data
are parameters. Every method is one atomic step. Integers are unbounded except where the code saturates or
checks for overflow, which is written out for a 64-bit target.

## Where the code does not do what one might expect

Each of these is kept as it is, shown with the inputs that produce it, and delimited: what follows in
brackets says when the code does do it.

* A rename of a file to itself loses the file and breaks the tree (`MemFs.Rename`, `Tree.MoveNode`: exactly
  then). The COPY and MOVE handler never asks for it (`HandleCopyMove`).
* Creating a directory at `/` adds a child with an empty name that no path reaches
  (`CreateDirReachableIff`: exactly then; `RunKeepsGood`: a run leaves every node reachable exactly if
  it never does so).
* A lock on a collection does not guard its members: whoever adds or removes one is asked for the locks that
  cover this member, not for a lock of Depth 0 on the collection, which section 7.4 of RFC 4918 asks for
  (`DepthZeroLockLetsMembersIn`). `MembershipGuardedIff` says exactly when this lets a request through that the
  locks of the collection would not: none of these is held, and either they are on the collection itself with
  Depth 0 and nothing covers the member, or the request holds a lock on the member itself.
* Deleting the locks of `/` leaves the locks on `/` itself (`DeleteIsCompleteIff`, `DeletesDifferOnlyAtRoot`:
  complete and in agreement exactly for other paths, or if `/` holds no lock).
* A `Not` right before a closing parenthesis of an `If` header is accepted and forgotten
  (`DanglingNotIsForgotten`; `AcceptedHeaderIsItsPrint`: otherwise an accepted header is, token by token, the
  print of its result).
* The comment on path parsing promises an error for invalid percent escapes; the code keeps the `%` as it
  is. The path `/%z` is accepted (`InvalidEscapeIsKept`), and the promise holds for exactly the paths in which
  every `%` begins an escape, and for those refused anyway (`StrictDecodingAgreesIff`, `CommentHoldsIff`).
* Two different dead properties can share a storage key, and every property does so with some other
  (`PropKeyCollides`; `PropKeysEqualIff` says which, and that namespaces of equal length do not collide).
* A prefix that ends in a slash, as the request adapters pass it, is refused for the path that is the prefix
  without its slash (`SetPrefixMatchesSegments`: otherwise exactly the paths at or below it are accepted).
* The negative cache denies existing `._` files in three ways. Listing an existing path whose own name starts
  with `._` as a directory, or merely looking for a `._` file below it, be it a directory or not, makes the cache
  deny that path (`ListingDotDirectoryFools`, `LookingIntoDotDirectoryFools`). And a file in such a directory is
  denied right after one listing of the directory above, if both directories have the same modification time
  (`FileInDotDirectoryDenied`). No file, wherever it lies, is ever denied exactly if each directory listed or
  looked into has a plain name, or lies outside of all those listed, or is never in a listing that fits into
  the cache; and no directory listed has, at one of its modification times, a `._` directory in it that at the
  same modification time holds a `._` file (`RightIffSafe`; `NeverDeniedIffClear` for a single file).
* The loop over byte ranges refuses a suffix longer than the file, where section 2.1 of RFC 7233 means the whole
  file, and does what that section says on all other ranges (`ClampedIsExistingPart`); one range that it
  refuses refuses them all (`ClampAll`). This is about the loop: the library iterator `satisfiable_ranges`
  that it draws its ranges from may already have resolved or dropped such ranges, and is not part of this
  model.
* With a read buffer size of zero a GET sends zeros in place of the file (`ServedIsFileIff`, and `HandleGet`:
  the file's own bytes are sent exactly if the buffer is positive or those bytes are zeros).
* A PATCH that appends and has a Content-Range as well puts its bytes at the end of the file, whatever the
  Content-Range says (`AppendIgnoresContentRange`; `RangeWriteMeans`: bytes with a Content-Range land at its start
  exactly if the request does not append, or this start is the end of the file).
* A COPY with Depth 0 of a file onto an existing collection is answered with an error and changes nothing,
  although Overwrite is allowed (`SucceedsIff`: every other request that is not refused, and whose destination
  can be cleared, succeeds).

## Model

| member | source | states |
|---|---|---|
| `Trees.PathsInjective` | src/tree.rs:21-59 | no two nodes of a well-formed tree have the same path: each node hangs under one name of one parent |
| `Trees.LabelsUnique` | src/tree.rs:21-59 | the paths of the nodes are determined by the parent links and child maps |
| `Trees.NodesAreWhatRootReaches` | src/tree.rs:61-83 | no leaks and nothing dangling: the node map is exactly what the root reaches, each node by one sequence of names |
| `Trees.LeafIffNothingBelow` | src/tree.rs:163-172 | a node has no children exactly when nothing lies below it |
| `Trees.Tree.constructor` | src/tree.rs:38-45 | a new tree is well formed and holds only the root |
| `Trees.Tree.NewNode` | src/tree.rs:47-58 | ids are handed out in increasing order and the new node is unlinked |
| `Trees.Tree.AddChild` | src/tree.rs:61-82 | keeps the tree well formed; fails exactly on a missing parent or a taken name without overwrite; overwriting removes the whole old subtree and nothing else |
| `Trees.Tree.GetChild` | src/tree.rs:104-113 | finds the node whose path is the parent's path and the name, and nothing exactly if there is none |
| `Trees.Tree.GetChildren` | src/tree.rs:115-123 | every child with its name, each exactly once |
| `Trees.Tree.GetNode` | src/tree.rs:125-129 | the data stored under an id, or not found |
| `Trees.Tree.SetNode` | src/tree.rs:131-134 | a write through the mutable reference changes that node's data only |
| `Trees.Tree.DeleteNodeFromParent` | src/tree.rs:136-161 | takes out exactly the one name under which the node hangs; the root is left alone |
| `Trees.Tree.DeleteNode` | src/tree.rs:163-173 | removes exactly the childless node; refuses the root and inner nodes |
| `Trees.Tree.DeleteSubtree` | src/tree.rs:175-193 | removes exactly the node and its descendants, of the root only the descendants, and terminates while the tree is being changed |
| `Trees.Tree.WalkMeets` | src/tree.rs:205-229 | the walk over parents terminates and decides whether one node is an ancestor of, or equal to, another |
| `Trees.SelfReplacementIsBroken` | src/tree.rs:231-249 | a node moved onto its own name leaves a child that does not exist, which no labelling allows |
| `Trees.MovedLabels` | src/tree.rs:196-250 | relinking keeps parent links and child maps inverse and acyclic |
| `Trees.Tree.MoveTarget` | src/tree.rs:196-240 | the checks of a move in their order, and the childless node it replaces |
| `Trees.Tree.Relink` | src/tree.rs:231-250 | the relinking re-roots the subtree and drops the replaced node, unless the node replaces itself |
| `Trees.Tree.MoveNode` | src/tree.rs:196-250 | a move is refused as listed or re-roots exactly the subtree; the tree stays well formed exactly when the node is not moved onto itself |
| `LockModel.LockKeepsCompatible` | src/memls.rs:56-101 | taking a lock that conflicts with none keeps every two overlapping locks shared |
| `LockModel.StepKeepsInvariants` | src/memls.rs:56-205 | each lock operation keeps compatibility and distinct tokens |
| `LockModel.EveryRunIsCompatible` | src/memls.rs:56-205 | in every run with any clock two distinct stored locks of which one covers the other's path are both shared |
| `LockModel.GrantedIffNothingOverlaps` | src/memls.rs:56-89 | a lock is granted exactly if every live lock with a path in common is shared, and so is the request |
| `LockModel.RunTraces` | src/memls.rs:56-205 | what has become of a granted lock after any further calls, from their arguments: gone by expiry, UNLOCK or deletion, or standing until the deadline of its last refresh, with everything else as it was asked for |
| `LockModel.GrantedLockGuards` | src/memls.rs:56-205 | at any clock reading of any run a granted lock that still stands covers exactly the paths that its request named; under an exclusive one only its principal with its token passes the gate, and whoever holds it passes; nothing that is not to be shared is granted there; from its deadline on it covers nothing |
| `LockModel.GateIsHoldingOne` | src/memls.rs:235-292 | in a compatible state the path check passes exactly if no lock covers the path or one that does is held |
| `LockModel.ExclusiveCoversAlone` | src/memls.rs:235-292 | an exclusive lock covering a path is the only lock covering it |
| `LockModel.WriteGateInEveryRun` | src/memls.rs:150-190 | after every run the write gate is: no covering lock, or one of them held |
| `LockModel.MembershipGuardedIff` | src/memls.rs:150-190 | exactly which changes to a collection's members the gate lets through although the locks of the collection, which section 7.4 of RFC 4918 asks for, are not held |
| `LockModel.DepthZeroLockLetsMembersIn` | src/memls.rs:235-292 | under another's exclusive lock of Depth 0 a new member is written without a token |
| `LockModel.UnlockUndoesLock` | src/memls.rs:103-123 | unlocking with the new token gives back the locks from before |
| `LockModel.ExclusiveLockExcludes` | src/memls.rs:65-89 | while an exclusive lock stands no overlapping lock can be taken, neither under it nor, with Depth infinity, from above it |
| `LockModel.DeleteIsCompleteIff` | src/memls.rs:198-205 | deleting leaves no lock at or below the path exactly if the path is not the root or the root holds none |
| `MemLocks.PrunedLocks` | src/memls.rs:208-233 | pruning keeps exactly the locks that have not expired |
| `MemLocks.PrunedIsNormal` | src/memls.rs:212-233 | after pruning every node other than the root has a live lock at or below it |
| `MemLocks.NormalFormIsPrefixClosure` | src/memls.rs:212-233 | the nodes of a pruned tree are exactly the prefixes of the paths of its locks |
| `MemLocks.PrunedTreeSize` | src/memls.rs:212-233 | so the number of nodes is exactly the number of such prefixes |
| `MemLocks.PrunedTreeIsBounded` | src/memls.rs:212-233 | and at most one more than the segments of all lock paths together |
| `MemLocks.MemLs.PruneExpiredAt` | src/memls.rs:212-233 | recursive pruning of a tree under change terminates and prunes exactly that subtree |
| `MemLocks.MemLs.PruneExpiredLocks` | src/memls.rs:208-210 | pruning from the root leaves the live locks and a normal form |
| `MemLocks.CheckNodeLocks` | src/memls.rs:252-280 | the inner loop stops exactly at an unheld exclusive lock and otherwise remembers what it has seen |
| `MemLocks.MemLs.CheckNodesOnPath` | src/memls.rs:245-281 | the walk with its early exits considers exactly the covering locks |
| `MemLocks.MemLs.CheckLocksToPath` | src/memls.rs:235-292 | succeeds exactly if the covering locks allow the request; otherwise names an unheld covering lock |
| `MemLocks.BelowSplits` | src/memls.rs:317-350 | the locks at or below a node are its own and those at or below its children |
| `MemLocks.MemLs.CheckLocksFromNode` | src/memls.rs:317-350 | succeeds exactly if every lock at or below the node is held, or shared where that suffices |
| `MemLocks.MemLs.CheckLocksFromPath` | src/memls.rs:294-315 | the same for a path; a path without a node has no locks below it |
| `MemLocks.MemLs.GetOrCreatePathNode` | src/memls.rs:353-364 | yields the node spelled by the path and adds only lock-free nodes |
| `MemLocks.MemLs.LookupLock` | src/memls.rs:367-390 | finds a node on the path with that token, at any depth, or there is none |
| `MemLocks.MemLs.ListLocks` | src/memls.rs:404-428 | returns each covering lock exactly once |
| `MemLocks.NoConflictIffChecksPass` | src/memls.rs:65-89 | the two checks of `lock` pass exactly if no stored lock conflicts |
| `MemLocks.MemLs.FindConflict` | src/memls.rs:65-89 | yields a conflicting lock exactly if there is one |
| `MemLocks.MemLs.Lock` | src/memls.rs:56-101 | stores exactly the new lock, made of the arguments and the deadline they give, or changes only what has expired and names a conflicting lock |
| `MemLocks.MemLs.Unlock` | src/memls.rs:103-123 | removes exactly the named lock, or fails if no live lock of that token is on the path |
| `MemLocks.MemLs.Refresh` | src/memls.rs:125-148 | moves the deadline of exactly the named lock |
| `MemLocks.MemLs.Check` | src/memls.rs:150-190 | the gate as the flat set of covering locks and, for a deep check, of locks below says |
| `MemLocks.MemLs.Discover` | src/memls.rs:192-196 | lists each live covering lock exactly once |
| `MemLocks.PerformAll` | src/memls.rs:56-205 | after any sequence of calls on a new lock system the tree stands for exactly the locks of that run, and they are compatible |
| `MemLocks.MemLs.Delete` | src/memls.rs:198-205 | removes exactly the locks at or below the path, except those on the root itself |
| `FakeLocks.DeleteTestIsSegmentPrefix` | src/fakels.rs:182-196 | the byte test of delete holds exactly for paths at or below, for normalized paths |
| `FakeLocks.FlatFilterIsCovering` | src/fakels.rs:63-85 | filtering a flat set with the byte test gives the covering locks |
| `FakeLocks.FakeLs.Discover` | src/fakels.rs:172-180 | each stored lock that passes the byte test, once |
| `FakeLocks.FakeLs.Delete` | src/fakels.rs:182-196 | removes exactly the locks that pass its byte test |
| `FakeLocks.DiscoverAgrees` | src/fakels.rs:172-180 | the tree walk and the flat filter list the same locks, each once |
| `FakeLocks.DeletesDifferOnlyAtRoot` | src/fakels.rs:182-196 | the two lock systems delete the same locks exactly if the path is not the root or the root holds none |
| `DavPaths.KeysEqualIffSegsEqual` | src/conditional.rs:102-111 | keys are equal exactly if the paths have the same segments, trailing slash or not |
| `DavPaths.ByteAncestorIsSegmentPrefix` | src/conditional.rs:114-127 | the byte-prefix test for an ancestor is the proper-prefix relation on segments |
| `DavPaths.CoveringTestIsSegmentCovering` | src/conditional.rs:114-127 | the byte-level covering test decides exactly the relation between segment sequences |
| `PathParsing.DecodeInvertsEncode` | src/davpath.rs:87-99 | percent decoding inverts percent encoding on all bytes |
| `PathParsing.NormalizePath` | src/davpath.rs:101-158 | the loop with its stack computes the stack fold of the decoded segments, with its errors |
| `PathParsing.DotsAndNames` | src/davpath.rs:122-142 | wherever they stand, a name is put at the end, ".." takes the name before it away, and "." and empty segments do nothing |
| `PathParsing.FirstErrorDecides` | src/davpath.rs:127-139 | ".." above the root is forbidden, and a NUL or a slash in a segment is invalid, whatever follows |
| `PathParsing.DotDotCancels` | src/davpath.rs:101-158 | in a request path a name and the ".." after it may be left out, encoded or not |
| `PathParsing.DotIsNothing` | src/davpath.rs:101-158 | and so may "." and repeated slashes |
| `PathParsing.NoWayOut` | src/davpath.rs:101-158 | no request path leads above the root, and no encoding gets a slash or a NUL into a segment |
| `PathParsing.QueryIsDropped` | src/davpath.rs:107-114 | what follows a question mark is dropped, and a fragment is refused |
| `PathParsing.UnfitIsRefused` | src/davpath.rs:102-119 | what is not printable or does not start at the root is refused |
| `PathParsing.ResultsAreNormalized` | src/davpath.rs:101-158 | a result starts with a slash and has no empty, '.' or '..' segment and no NUL |
| `PathParsing.RoundTrip` | src/davpath.rs:87-158 | normalizing the encoding of a normalized path gives the path back |
| `PathParsing.NormalizeIsStable` | src/davpath.rs:87-158 | so encoding and normalizing any result changes nothing |
| `PathParsing.StrictDecodingAgreesIff` | src/davpath.rs:92-99 | decoding agrees with a decoder that fails on invalid escapes exactly if every percent sign begins an escape |
| `PathParsing.CommentHoldsIff` | src/davpath.rs:101-158 | so normalizing does what its comment says exactly on such paths and on those it refuses |
| `PathParsing.InvalidEscapeIsKept` | src/davpath.rs:92-99 | a path with an invalid escape that is accepted |
| `PathValues.SetPrefixMatchesSegments` | src/davpath.rs:186-205 | of all byte strings exactly the segment prefixes of the path are accepted, with or without a slash, but for the path that lacks just this slash; the remaining segments are those after the prefix |
| `PathValues.ParentDropsOneSegment` | src/davpath.rs:295-313 | the parent drops one segment, keeps the prefix, and equals the path only at the root |
| `PathValues.InCollectionIsProperPrefix` | src/davpath.rs:319-327 | containment on bytes is proper containment of segments |
| `PathValues.PushAppendsSegment` | src/davpath.rs:261-266 | pushing a segment appends exactly that segment and keeps the path normalized |
| `PathValues.AddSlashKeepsPlaces` | src/davpath.rs:247-258 | a trailing slash changes no segment |
| `PathValues.EqualsIffSamePlaces` | src/davpath.rs:161-173 | under one prefix, equality is equality of segments |
| `PathValues.EnsureNoSymlink` | src/handle_gethead.rs:62-84 | the walk terminates; it looks at the path and at each ancestor down to the prefixed root, each exactly once, and stops at the first that decides |
| `PathValues.HiddenIffSymlinkOnPath` | src/handle_gethead.rs:62-84 | without metadata errors a path is hidden exactly if it or an ancestor is a symlink |
| `IfHeader.ScanUntil` | src/davheaders.rs:813-829 | the scan yields the bytes up to the closing byte and what follows |
| `IfHeader.DoScanWord` | src/davheaders.rs:832-842 | a word ends at whitespace or a special byte |
| `IfHeader.GetToken` | src/davheaders.rs:845-873 | the lexer agrees with the lexical function |
| `IfHeader.TokenShortensInput` | src/davheaders.rs:845-873 | every token but the end strictly shortens the input, so the parser terminates |
| `IfHeader.Decode` | src/davheaders.rs:881-955 | the state machine computes the parse of the header |
| `IfHeader.ETagRoundTrip` | src/davheaders.rs:463-508 | parsing a printed entity tag gives it back |
| `IfHeader.DecodeInvertsPrint` | src/davheaders.rs:876-955 | decoding any printed list of condition lists, with any padding, gives the same lists |
| `IfHeader.AcceptedHeaderIsItsPrint` | src/davheaders.rs:881-955 | the tokens of an accepted header are those of the print of what it decodes to exactly if it has no dangling Not |
| `IfHeader.DanglingNotIsForgotten` | src/davheaders.rs:905-940 | a Not right before the closing parenthesis is accepted and has no effect |
| `IfHeader.TagBindsOneList` | src/davheaders.rs:881-955 | anywhere in a header, a resource tag binds to the list right after it and not to an untagged list that follows |
| `IfEvaluation.CheckList` | src/conditional.rs:150-225 | a list holds exactly if each of its conditions does |
| `IfEvaluation.DavIfMatch` | src/conditional.rs:137-240 | the header matches exactly if some list holds; the tokens collected are the ones it names |
| `IfEvaluation.NotNegates` | src/conditional.rs:173-230 | of two headers that differ in the Not of their one condition exactly one holds |
| `IfEvaluation.NoLockListHolds` | src/conditional.rs:173-230 | a header with a list of nothing but Not conditions on tokens of the "DAV:" namespace holds whatever is locked |
| `IfEvaluation.TokenHoldsIff` | src/conditional.rs:173-230 | a token holds exactly if it is outside the "DAV:" namespace and names a live lock that covers the resource; with Not exactly if it does not |
| `IfEvaluation.EntityTagHoldsIff` | src/conditional.rs:194-215 | an entity tag holds exactly if it is strongly that of the resource; with Not exactly if it is not |
| `IfEvaluation.ListsAndConditions` | src/conditional.rs:150-236 | the conditions of a list are a conjunction, the lists of a header a disjunction, and no list is none that holds |
| `IfEvaluation.TaggedIsElsewhere` | src/conditional.rs:167-192 | a tagged list says of the tagged resource what an untagged one would there; where the tag leads nowhere only Not holds |
| `IfEvaluation.SubmittedAreNamed` | src/conditional.rs:155-166 | a token is submitted exactly if it stands in the header |
| `IfEvaluation.HttpIfMatch` | src/conditional.rs:59-100 | a request is refused first if the resource is not as required, and then if the client has it already; only reads are answered as not modified |
| `IfEvaluation.StarsDecide` | src/conditional.rs:43-91 | with a star, If-Match never lets a write create and If-None-Match never lets one replace |
| `IfEvaluation.TagsDecide` | src/conditional.rs:41-91 | If-Match with entity tags passes exactly if one is strongly that of the resource, If-None-Match exactly if none is weakly so |
| `IfEvaluation.DatesDecide` | src/conditional.rs:16-99 | a date alone decides by the whole second it is in; If-Modified-Since is for reads only |
| `IfEvaluation.HeadersTogether` | src/conditional.rs:59-100 | an entity tag makes the date beside it void, and all headers together are the first pair and then the second |
| `IfEvaluation.IfMatchGetTokens` | src/conditional.rs:262-282 | the tokens submitted, or the first precondition that fails |
| `IfEvaluation.GuardWrite` | src/handle_put.rs:255-279 | a write passes exactly if the HTTP preconditions and the If header hold and the locks allow it, and is told the first that fails |
| `IfEvaluation.GateNamesExclusiveLock` | src/handle_put.rs:269-279 | whoever passes under an exclusive covering lock named its token and is its principal |
| `IfEvaluation.DeepGateNamesEveryLockBelow` | src/handle_delete.rs:154-164 | whoever passes a gate for a whole subtree named every lock at or below the path |
| `IfEvaluation.AllowedIff` | src/memls.rs:150-190 | in every run the gate passes exactly if nothing covers the path or the request owns a lock that does, and for a subtree owns every lock in it |
| `IfEvaluation.NoHeaderNoLocks` | src/memls.rs:150-190 | without tokens the gate passes exactly if no lock covers the path |
| `IfEvaluation.StateTokenMeansCoveringLock` | src/conditional.rs:167-215 | a state token condition holds exactly if a live lock of that token covers the resource |
| `TreeViews.ShownMapIsUnique` | src/memfs.rs:29-39 | a tree shows exactly one map from paths to nodes |
| `FsModel.PrefixStored` | src/memfs.rs:687-720 | every prefix of a stored path is stored, as a directory if proper |
| `FsModel.ResolvesIffStored` | src/memfs.rs:687-704 | a lookup succeeds exactly on stored paths |
| `FsModel.CreateDirKeepsWellFormed` | src/memfs.rs:193-205 | creating a directory keeps every parent a directory |
| `FsModel.OpenKeepsWellFormed` | src/memfs.rs:96-132 | opening keeps the filesystem well formed and ends at a file |
| `FsModel.MoveKeepsWellFormed` | src/memfs.rs:233-251 | a rename keeps the filesystem well formed; files never gain children |
| `FsModel.CreateDirReachableIff` | src/memfs.rs:193-205 | creating a directory leaves every node reachable exactly if the path is not the root |
| `FsModel.CreateDirMeans` | src/memfs.rs:193-205 | a directory is created exactly where nothing is, in a directory that is there; it is empty |
| `FsModel.OpenMeans` | src/memfs.rs:96-132 | opening succeeds exactly on a file that need not be new, or where one may be created; it empties or makes just this file |
| `FsModel.RemoveMeans` | src/memfs.rs:207-231 | removal succeeds exactly for a path other than the root with nothing below, and takes out just this |
| `FsModel.RenameMeans` | src/memfs.rs:233-251 | a rename goes ahead exactly from something other than the root to a place in a directory outside of it that holds no directory |
| `FsModel.RenamedAt` | src/memfs.rs:233-251 | after it, what was at or below the source is at or below the destination, and nothing else is there or has changed |
| `FsModel.CopyFileMeans` | src/memfs.rs:253-272 | a file is copied exactly over a file or to a free place in a directory, and nothing else changes |
| `FsModel.RemoveUndoesCreateDir` | src/memfs.rs:193-231 | removing what was just created gives the filesystem back |
| `FsModel.RenameBack` | src/memfs.rs:233-251 | renaming there and back gives the filesystem back if nothing was replaced |
| `FsModel.PatchedIsKeyed` | src/memfs.rs:318-334 | patching keeps every property under its own key |
| `FsModel.LastPatchDecides` | src/memfs.rs:318-334 | of all patches of one property the last decides, and the properties that none is about stay |
| `FsModel.PropKeysEqualIff` | src/memfs.rs:402-404 | when two properties share a storage key |
| `FsModel.PropKeyCollides` | src/memfs.rs:402-404 | every property shares its key with another one |
| `MemFiles.MoveRefusalIsRenameRefusal` | src/memfs.rs:233-251 | the tree refuses a move exactly when the rename of the map is refused |
| `MemFiles.TouchesTwice` | src/tree.rs:47-58 | operations that lose, move and mistake no node, and change data at one path only, compose |
| `MemFiles.MemFs.constructor` | src/memfs.rs:89-94 | a new filesystem is an empty root directory |
| `MemFiles.MemFs.LookupSegs` | src/memfs.rs:687-696 | walking the tree finds the node of the path, or fails as the lookup in the map does |
| `MemFiles.MemFs.LookupParent` | src/memfs.rs:708-719 | finds the directory that holds or would hold the path |
| `MemFiles.MemFs.Metadata` | src/memfs.rs:144-152 | describes the node at the path |
| `MemFiles.MemFs.ReadDir` | src/memfs.rs:158-179 | lists each direct child exactly once, described rightly |
| `MemFiles.MemFs.DoOpen` | src/memfs.rs:96-132 | acts on the map as opening does and hands out a handle on that very node; every other node keeps its id, place and data |
| `MemFiles.MemFs.CreateDir` | src/memfs.rs:193-205 | acts as inserting a directory into the map; every node there was keeps its id, place and data |
| `MemFiles.MemFs.Remove` | src/memfs.rs:207-231 | acts as taking a childless path out of the map; exactly that node goes, and every other keeps its id, place and data |
| `MemFiles.MemFs.Rename` | src/memfs.rs:233-251 | re-roots the subtree in the map; every node but a replaced one keeps its id and data; breaks the tree exactly when a file is renamed to itself |
| `MemFiles.MemFs.Copy` | src/memfs.rs:253-280 | acts as copying a file's bytes and properties in the map; every other node keeps its id, place and data |
| `MemFiles.MemFs.PatchProps` | src/memfs.rs:307-338 | acts as the patches one after another on the node's properties; every other node keeps its id, place and data |
| `MemFiles.MemFs.GetProps` | src/memfs.rs:340-352 | lists every property of the node exactly once |
| `MemFiles.MemFs.GetProp` | src/memfs.rs:354-366 | the value stored under the property's key, or not found |
| `MemFiles.MemFs.Mark` | src/memfs.rs:369-399 | marks directories only, and no mark is taken off; every other node keeps its id, place and data |
| `MemFiles.MemFsFile.ReadBytes` | src/memfs.rs:449-468 | reads the bytes at the position and moves it by as many; not found once the node is gone |
| `MemFiles.MemFsFile.WriteBytes` | src/memfs.rs:470-486 | changes only the handle's own node, to the written bytes laid over the zero-extended old ones |
| `MemFiles.MemFsFile.WriteBuf` | src/memfs.rs:488-512 | writing in chunks is one write of their concatenation |
| `MemFiles.MemFsFile.Seek` | src/memfs.rs:518-545 | the position is where the seek says, or unchanged if that is outside the 64-bit range |
| `FileContents.SplicedByte` | src/memfs.rs:429-486 | each byte after a write: the written one, the old one, or the zero of a hole |
| `FileContents.ReadAfterWrite` | src/memfs.rs:449-486 | reading back what was written gives it back |
| `FileContents.AppendIsConcat` | src/memfs.rs:475-481 | a write at the end is concatenation |
| `FileContents.SplicedTwice` | src/memfs.rs:488-512 | two consecutive writes are one |
| `FileContents.WriteAllOrNothing` | src/memfs.rs:470-486 | a write either leaves the bytes alone or keeps every byte outside its range |
| `FileContents.SeeksMean` | src/memfs.rs:518-545 | a seek by nothing tells the position, opposite seeks cancel, and one to so many bytes before the end leaves these to be read |
| `FileHandles.StepFollowsFile` | src/memfs.rs:96-280 | every operation leaves a handle on its file: re-rooted by a rename, gone exactly by its removal or replacement; its bytes change only by an operation naming its current path or through a handle on it |
| `FileHandles.RunKeepsBytes` | src/memfs.rs:447-545 | over any run the bytes behind a handle stay what they are unless a step names the file's current path or goes through a handle on it |
| `FileHandles.RunKeepsApart` | src/memfs.rs:447-545 | over any run handles on one file stay on one file, and handles on different files never meet |
| `FileHandles.GoneStaysGone` | src/memfs.rs:449-545 | once its file is gone, every later read, write and seek from the end through a handle is not found |
| `FileHandles.ReadSeesLastWrite` | src/memfs.rs:449-486 | what was written through one handle is what another on the same file reads there, wherever the file was moved since |
| `FileHandles.StepKeepsReachable` | src/memfs.rs:96-280 | no operation but that one makes a node that no path reaches |
| `FileHandles.RunKeepsGood` | src/memfs.rs:96-545 | every run keeps each property under its own key, and leaves every node reachable exactly if it never creates a directory at the root: what DELETE, COPY and MOVE ask of a filesystem |
| `FileHandles.Perform` | src/memfs.rs:96-545 | one call on the real filesystem and its open files does what the machine does and answers alike |
| `FileHandles.PerformAll` | src/memfs.rs:96-545 | any interleaving of path operations with reads, writes and seeks through any number of handles: the id each holds stands for the node at its place in the machine, or for nothing ever after |
| `FileHandles.PerformRun` | src/memfs.rs:87-545 | the same for every run on a new filesystem, which ends with every node reachable exactly if no directory was created at the root |
| `Deletion.RemoveOne` | src/handle_delete.rs:46-59 | one removal, which fails for the root, a directory in use, or at random |
| `Deletion.DeleteItems` | src/handle_delete.rs:38-118 | what survives, whether all went well and what is reported are exactly as the failing steps determine: removals, listings, entries, and errors in a listing that belong to no entry |
| `Deletion.DeleteChildren` | src/handle_delete.rs:71-106 | the loop over the entries, with its accumulated result |
| `Deletion.SuccessMeansGone` | src/handle_delete.rs:38-118 | success means that nothing remains at or below the path; nothing else changes |
| `Deletion.NoFaultsNoSurvivors` | src/handle_delete.rs:38-118 | without failing steps a subtree other than the whole is deleted without a report |
| `Deletion.FailingStepsLeaveThings` | src/handle_delete.rs:38-118 | each failing step that the walk gets to leaves what it stands in the way of, unchanged, and is reported |
| `Deletion.SurvivorsExplained` | src/handle_delete.rs:61-118 | whatever survives has a report at, below or above it; at or below it if all listings are complete |
| `Copying.PropsReplaced` | src/handle_copymove.rs:150-163 | the patch of a collection copy makes the destination's dead properties exactly the source's |
| `Copying.CollectionKindAt` | src/fs.rs:268-286 | the kind of a collection from its marks or, failing that, its marker properties |
| `Copying.KindMeans` | src/fs.rs:223-286 | a mark that is set makes the kind, a calendar mark above all; without marks the marker property does, and without that a collection is plain |
| `Copying.KindCopiedIff` | src/handle_copymove.rs:140-178 | the destination gets the source's kind exactly if it has no mark that outranks it |
| `Copying.SameKindStays` | src/handle_copymove.rs:371-387 | a destination of the same kind keeps it, which is what Depth 0 checks for |
| `Copying.CopyCollectionProperties` | src/handle_copymove.rs:140-178 | properties and kind are copied as specified |
| `Copying.MakeCollection` | src/handle_copymove.rs:61-75 | makes the destination collection, or with Depth 0 accepts one that exists |
| `Copying.CopyOne` | src/handle_copymove.rs:50-59 | the file case: the bytes and properties of the source, over an existing file too; a collection at the destination is left alone |
| `Copying.DoCopy` | src/handle_copymove.rs:29-138 | terminates; changes nothing outside the destination; failures are reported; a copy to a free place apart from the source is complete |
| `Copying.CopyEntries` | src/handle_copymove.rs:94-135 | the loop over the entries, skipping hidden ones |
| `Copying.CopiedNodeIsSame` | src/handle_copymove.rs:140-178 | a copied node has the same bytes, properties and kind |
| `CopyMoves.NestedIffNotApart` | src/handle_copymove.rs:317-331 | the guard on bytes refuses exactly equal or nested paths |
| `CopyMoves.ReadFileToEnd` | src/fs.rs:1029-1039 | reads the file up to the limit |
| `CopyMoves.ValidateDestination` | src/handle_copymove.rs:180-216 | the object may go into the destination collection, or the request is refused |
| `CopyMoves.CheckSource` | src/handle_copymove.rs:250-286 | the checks on the request and its source, in order |
| `CopyMoves.CheckDest` | src/handle_copymove.rs:288-331 | the checks on where the destination lies, in order |
| `CopyMoves.CheckRest` | src/handle_copymove.rs:333-390 | conditions, locks and collection kinds, in order |
| `CopyMoves.HandleCopyMove` | src/handle_copymove.rs:244-447 | a request is refused without touching anything, or the old destination is deleted and the copy or rename done as specified; failing paths are reported, and none exactly on success |
| `CopyMoves.CarriedOutIff` | src/handle_copymove.rs:244-390 | exactly which requests are carried out, from the request and what is stored |
| `CopyMoves.AdmittedIsValid` | src/handle_copymove.rs:180-216 | after a successful COPY or MOVE into a calendar or address book there is a file of at most 1 MiB at the destination that is valid for it, and the collection is as before |
| `CopyMoves.DepthZeroKeepsKind` | src/handle_copymove.rs:367-387 | a COPY with Depth 0 onto a collection leaves it the kind it has |
| `CopyMoves.OthersAreSpared` | src/handle_copymove.rs:394-445 | whatever happens, nothing changes outside the destination and, for a move, the source |
| `CopyMoves.CopyIsComplete` | src/handle_copymove.rs:394-427 | after a successful COPY every visible name, byte, property and kind below the source is there, and the source is unchanged |
| `CopyMoves.MoveIsComplete` | src/handle_copymove.rs:222-242 | after a successful MOVE everything at or below the source is at the destination as it was, and gone from the source |
| `CopyMoves.SucceedsIff` | src/handle_copymove.rs:394-427 | a request that is not refused succeeds unless it copies a file with Depth 0 onto a collection, or what is to be replaced cannot be deleted |
| `TypedPuts.PlansAreSafe` | src/handle_put.rs:161-253 | a range write has a known length, fits, and leaves no hole in an existing file |
| `TypedPuts.PlainPlan` | src/handle_put.rs:124-253 | a request without a range always gets a plan, with or without an announced length |
| `TypedPuts.ContentRangePlanIff` | src/handle_put.rs:206-253 | a Content-Range alone is accepted exactly if it is one, agrees with the announced length, ends where a file can end, and does not start past the end of an existing file |
| `TypedPuts.PatchPlanIff` | src/handle_put.rs:161-253 | exactly which PATCH requests without a Content-Range are accepted, for each form of range |
| `TypedPuts.BothRangesPlanIff` | src/handle_put.rs:161-253 | and with one |
| `TypedPuts.PlanRefusals` | src/handle_put.rs:161-253 | what a refused range is answered with |
| `TypedPuts.RangeWriteMeans` | src/handle_put.rs:161-253 | the body replaces exactly the bytes from where it lands, and keeps the others; a Content-Range overrides the other forms of range, and the body lands at its start exactly if the request does not append or this start is the end |
| `TypedPuts.AppendIgnoresContentRange` | src/handle_put.rs:197-231 | an append with a Content-Range for the start of the file is accepted, and its bytes go to the end |
| `TypedPuts.RangeWriteToNewFile` | src/handle_put.rs:161-253 | a range write that creates its file leaves zeros up to where it starts |
| `TypedPuts.PredictionNeverUnderestimates` | src/handle_put.rs:49-65 | the predicted size is never less than the length the file ends with |
| `TypedPuts.WriteBody` | src/handle_put.rs:389-434 | the loop succeeds exactly if the body is unbroken, as long as announced and within the limit, and every write finds room; the pieces that were written are in the file |
| `TypedPuts.Stage` | src/handle_put.rs:302-327 | an object is staged exactly if it is unbroken, within the limit, as long as announced, and valid; it is the body |
| `TypedPuts.RestoreOrRemove` | src/handle_put.rs:567-575 | puts the old bytes back, or removes what was created |
| `TypedPuts.Undo` | src/handle_put.rs:442-447 | undoing leaves the filesystem exactly as before: the emptied vector still has room for the old bytes |
| `TypedPuts.CheckStored` | src/handle_put.rs:455-462 | the result of a range write is kept exactly if it is valid, and else undone |
| `TypedPuts.Store` | src/handle_put.rs:337-462 | open, write, check and undo together: exactly which bodies are stored, and all-or-nothing in calendars and address books |
| `TypedPuts.CheckPut` | src/handle_put.rs:133-299 | what a request is refused for before its body is looked at, in order: malformed times to be set, no such place, a collection, the headers of a PATCH, the ranges, conditions and locks, the announced size |
| `TypedPuts.HandlePut` | src/handle_put.rs:104-489 | exactly which requests are carried out; nothing but the target changes; success stores exactly what the request says; in calendars and address books the object afterwards is valid and within the limit, or everything is as before |
| `TypedPuts.PlainPutAcceptedIff` | src/handle_put.rs:104-489 | exactly which PUTs of a whole file are stored, from the request and what is there; what is stored is the body |
| `TypedPuts.PlainPutIsStored` | src/handle_put.rs:104-489 | an unbroken PUT, of announced length or not, to a visible place in a plain directory is stored |
| `TypedPuts.RangePutAcceptedIff` | src/handle_put.rs:104-489 | exactly which range writes are stored |
| `TypedPuts.AcceptedRangeIsStored` | src/handle_put.rs:104-489 | an accepted range write to a file that is there replaces just the bytes from where it lands |
| `TypedPuts.PutLeaves` | src/handle_put.rs:104-489 | after a PUT that was carried out the file holds the body, or has it where the range says, with the properties it had, and nothing else has changed |
| `GuardedWrites.ShutOutIsNotAllowed` | src/handle_put.rs:269-279 | another's exclusive lock over the path, or for a subtree any lock of another in it, keeps the gate shut |
| `GuardedWrites.PassesIff` | src/handle_put.rs:255-279 | in every run a request passes exactly if its HTTP conditions and its If header hold and, unless nothing is locked there, it owns a lock over the path, and for a subtree every lock in it |
| `GuardedWrites.PassesTwiceIff` | src/handle_copymove.rs:333-365 | the same for COPY at the destination, and for MOVE at both ends |
| `GuardedWrites.DeleteMeans` | src/handle_delete.rs:38-182 | after a successful DELETE nothing is left at or below the path and all else is as before; without a failing step it succeeds |
| `GuardedWrites.FollowedLocksMean` | src/handle_copymove.rs:394-445 | where something was replaced, moved away or deleted nothing is locked any more, and elsewhere all is locked as before |
| `GuardedWrites.DeletableIff` | src/handle_delete.rs:129-131 | a DELETE is not refused exactly if something is stored there and no name on the way is hidden |
| `GuardedWrites.DepthZeroDeletesNoMembers` | src/handle_delete.rs:46-75 | with Depth 0 a collection goes only if it is empty |
| `GuardedWrites.GuardedPut` | src/handle_put.rs:133-489 | a PUT is carried out exactly if it passes the gate and the handler accepts it; one that is shut out, or to a hidden place, changes nothing |
| `GuardedWrites.GuardedDelete` | src/handle_delete.rs:120-182 | a DELETE is carried out exactly if there is something to show at the path and the request passes the gate for the whole subtree; one that is refused, or at a hidden place, changes nothing; after a successful one no lock is left at or below the path, and every other lock is |
| `GuardedWrites.GuardedCopyMove` | src/handle_copymove.rs:333-447 | exactly which COPY and MOVE requests are carried out, none from or to a hidden place; the locks of what was replaced or moved away are gone, and no others |
| `GetRanges.ClampedIsExistingPart` | src/handle_gethead.rs:247-272 | an accepted range is not empty and lies inside the file; the loop gives the part that RFC 7233 means, or refuses where there is none, exactly unless the range is a suffix longer than the file |
| `GetRanges.ClampAll` | src/handle_gethead.rs:246-272 | ranges are accepted all together or not at all |
| `GetRanges.ServedByte` | src/handle_gethead.rs:374-389 | byte by byte the file where there is one, and zeros where it ends too early or there is no buffer |
| `GetRanges.SendRange` | src/handle_gethead.rs:374-389 | one range is sent exactly, however short the reads, and the position stays in step |
| `GetRanges.SendRanges` | src/handle_gethead.rs:337-396 | each range in order exactly; the file's own bytes if the buffer is positive and the file has not shrunk |
| `GetRanges.HandleGet` | src/handle_gethead.rs:243-397 | the whole file, or exactly the requested parts, or nothing |
| `GetRanges.ServedIsFileIff` | src/handle_gethead.rs:374-388 | of a file that has not shrunk the file's own bytes are sent exactly if there is a buffer, or those bytes are zeros |
| `BusyIntervals.Sorted` | src/caldav.rs:872-886 | sorting keeps the members, orders them, and keeps separated intervals separated |
| `BusyIntervals.Sweep` | src/caldav.rs:873-885 | the sweep keeps the covered instants of each type and separates the intervals |
| `BusyIntervals.MergeBusyIntervals` | src/caldav.rs:868-888 | the covered instants of each type stay the same for any input, and the result is ordered by start; well-formed input comes out strictly separated |
| `BusyIntervals.CanonicalUnique` | src/caldav.rs:868-888 | a sorted, separated list is determined by what it covers |
| `BusyIntervals.MergingTwice` | src/caldav.rs:868-888 | merging is idempotent |
| `BusyIntervals.OrderDoesNotMatter` | src/caldav.rs:868-888 | the result does not depend on input order or repetition |
| `DuCaches.OldestIsUnneeded` | src/localfs_macos.rs:62-75 | the least recent entry is never a file that a cached directory still needs |
| `DuCaches.ListedKeepsSound` | src/localfs_macos.rs:178-220 | listing a directory keeps the cache sound, evictions included |
| `DuCaches.LookedKeepsSound` | src/localfs_macos.rs:89-133 | a lookup keeps the cache sound, dropping a stale directory or not |
| `DuCaches.PurgedKeepsSound` | src/localfs_macos.rs:54-79 | the age purge keeps the cache sound |
| `DuCaches.PurgeForgetsOld` | src/localfs_macos.rs:54-79 | in every run a purge forgets exactly what was listed 61 seconds ago or before |
| `DuCaches.AnswerMeans` | src/localfs_macos.rs:89-133 | for any file, in a sound cache: it is said not to exist exactly if its directory has a current entry and the file is not in it, or that entry is the directory's own record as a file |
| `DuCaches.AnswerIsRight` | src/localfs_macos.rs:89-133 | for a file whose directory has a plain name, or is never a '._' file at a time at which the file is there: does not exist is said exactly when the directory's entry is there and current and the file is not in it |
| `DuCaches.EveryRunIsSound` | src/localfs_macos.rs:28-220 | every run of listings, lookups, evictions and purges over harmless directories keeps the cache sound |
| `DuCaches.EveryAnswerIsRight` | src/localfs_macos.rs:89-133 | after every run over harmless directories such a file, if said not to exist, does not, and a current directory gives exact answers |
| `DuCaches.CachedListingFits` | src/localfs_macos.rs:178-220 | a directory whose listing does not fit into the cache is never in it as a directory |
| `DuCaches.RightIffSafe` | src/localfs_macos.rs:89-220 | for any set of directories listed and looked into: no file anywhere is ever denied in any run exactly if these directories are harmless and none has a '._' directory in it that holds a '._' file at the same modification time |
| `DuCaches.NeverDeniedIffClear` | src/localfs_macos.rs:89-133 | over harmless directories a single file is never denied in any run exactly if its directory has a plain name or is never a '._' file itself at a time at which the file is there |
| `DuCaches.ListingDotDirectoryFools` | src/localfs_macos.rs:178-206 | listing an existing directory named with '._' after its parent, with any other names, makes the cache deny it |
| `DuCaches.LookingIntoDotDirectoryFools` | src/localfs_macos.rs:107-118 | so does looking for a '._' file below it, directory or not |
| `DuCaches.FileInDotDirectoryDenied` | src/localfs_macos.rs:93-131 | after one honest listing, a file in a '._' directory of the same modification time is denied |
| `DuCaches.DUCache.PurgeOld` | src/localfs_macos.rs:60-76 | the loop drops the least recent entries as long as they are too old |
| `DuCaches.DUCache.Negative` | src/localfs_macos.rs:89-133 | answers as specified for any path; in a sound cache the answer about a file whose directory cannot be mistaken is exact, and a harmless lookup keeps it sound |
| `DuCaches.DUCache.Insert` | src/localfs_macos.rs:193-219 | puts in the directory first and then each of its files |
| `DuCaches.DUCacheBuilder.Add` | src/localfs_macos.rs:154-172 | keeps only names that start with '._' |
| `DuCaches.DUCacheBuilder.Finish` | src/localfs_macos.rs:174-220 | enters the listing once, and only if the directory's time can be had; an honest listing of a harmless directory keeps the cache sound |

## Left out

* HTTP, adapters, async scheduling, mutexes and streams: every method is one atomic step. The negative cache
  takes its lock twice during one lookup; the model takes it once.
* Timestamps of files and directories, and the lookups that only update them (`set_modified`, `set_created`).
* XML, property reports, calendar and vCard syntax, recurrence and filters: validity is a predicate passed in.
* `url::Url`: a tag or token of an If header is its text with a validity predicate and a host comparison.
* Other backends and their operating system behaviour (`localfs.rs`, `localfs_windows.rs`); the filesystem
  under COPY, MOVE and PUT is the in-memory one, which has no symbolic links.
* The UTF-8 check of paths on Windows.
* `DavPath` is a value: the methods that change its buffer in place are functions that return the new path.
* The mutable references that the tree and the filesystem hand out are modelled as writing the changed node
  back with `SetNode`.
* The node's own copy of its id in the tree, which nothing reads, and `remove_child`, which nothing calls.
* Overflow of the 64-bit counters for node ids and directory ids.
* Name filters of the visibility check (collection markers, leading dots) are one predicate on names.
* The symbolic links that DELETE and MOVE look for, which the in-memory filesystem does not have.
* Status codes of single failures inside DELETE and COPY: paths are reported, codes are not modelled.
* Headers and boundaries of multipart range responses: the model sends the parts.
* Tagged `If` lists with several lists per tag, which RFC 4918 allows: the code binds a tag to one list
  (`TagBindsOneList`).
* DuCaches.EveryAnswerIsRight: assumes that a listing is as the directory is when it is entered, and that the
  modification time of a directory determines its contents.
* GuardedWrites.GuardedPut: the gate is asked before the handler's own checks, which is the same to the caller
  because it only drops expired locks; the handler's checks still decide first.
* LockModel.RunTraces: no token is given out twice in a run, which random UUIDs are taken to provide.
* FileHandles.PerformAll: renaming a file to itself, which breaks the tree, is not a step of a run.
* GetRanges.HandleGet: the file does not change while it is being sent, and seeking in it does not fail.
* Deletion.DeleteItems: failures are given per path, which is general because a run removes and lists each
  path at most once; how often a path is reported, and in which order, is not part of the contract.
* TypedPuts.HandlePut: of a request refused while its body is read or stored the status is not part of the
  contract. The verdicts of the allocator are a set of sizes it would grant.
