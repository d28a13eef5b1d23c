# A model of the synchronisation cycle of csync, with proofs

csync is a three-phase file synchroniser. For two replicas and a journal (the "statedb") it detects what changed,
reconciles the two trees of changes, propagates files, merges the trees and writes a new journal. This project models
that cycle for regular files, the data structures it runs on, the push of a file and the lock file with their failures,
and a few exact algorithms; the last section says what is not part of it.

| files | what they model |
|---|---|
| `RedBlack.dfy`, `RbTree.dfy` | the red-black tree with parent links, a shared sentinel and fix-up loops |
| `SyncRules.dfy`, `SyncLaws.dfy` | what a run does at one path, and what follows at that path |
| `World.dfy`, `WorldLaws.dfy` | whole replicas: convergence, deletions, failed transfers, conflict copies, over runs and histories |
| `Csync.dfy`, `FileStats.dfy` | the run itself: walks over two heap trees that change records, files and the journal in place |
| `Push.dfy`, `TmpNames.dfy` | the push of a file through a temporary file, with failures and crashes |
| `Lock.dfy` | the lock file, as processes that take one step at a time |
| `CList.dfy`, `MergeSort.dfy`, `DirRemoval.dfy` | the doubly linked list with its sort, and the removal of directories that uses it |
| `SplitPath.dfy`, `ParseUri.dfy`, `JHash.dfy` | the in-place path splitter, the URI parser, the 64-bit hash |
| `Options.dfy`, `Powers.dfy`, `Strings.dfy`, `Decimals.dfy` | shared vocabulary |

How the parts hold together:

* **Tree.** `RedBlack.Graph` is a tree as a value: a map from nodes to cells with all links, plus for every node the
  interval of keys that may stand below it and its black height. The rules are local predicates of a node, so that a
  rotation or a repainting is checked node by node, once for both mirrored halves. `RbTree` is the heap object; each of
  its steps is proved to change the heap as the corresponding function changes the graph (`Shows(g)` before,
  `Shows(f(g))` after), and each public method is stated on `Index`, the map from hashes to nodes that the tree stands
  for.
* **Run.** `SyncRules.Run` says what a run does at one path, as a function of the two files, the journal row and luck.
  `Csyncs.Synchronize` is the imperative run. Its contract, `Worlds.RunOf`, says that whatever the order of directory
  listings and of tree walks, every path changes as `Run` says, conflict copies appear under their names, and nothing
  else happens. The theorems of `WorldLaws` are about every pair of worlds related by `RunOf`, so about every run.
* **Files** are what the two replicas map paths to; a path is known by its 64-bit hash, as in the source. Parameters
  (`Weather`) say which files the listings of the run come to see, how every push ends (it works; it works but the time
  cannot be set; it fails before the rename; or it fails after it, with the new content in place and some other time),
  which backups and removals work, the inodes of new files, and the names of conflict copies.

Things the proofs brought to light, each stated exactly:

* A run can remove files that nobody removed. The walk of a replica skips a directory that it may not open, a file whose
  stat fails, and the rest of a directory when readdir fails, and the run goes on as if these files were gone. A run sets
  out to remove a file that the other replica still has if and only if the listing missed the other one, and the file has
  a single link and is not newer than its row in the journal (`SyncLaws.MissedIsRemovedExactly`).
* There is a second way, with conflict copies on. If both files were edited to the same time, the local one is moved
  aside, and the push of the remote one fails before the rename, then the journal keeps the row of the local file, and
  the next run takes it for removed and removes the remote one. What survives in the conflict copy is the local content.
  `SyncLaws.NextRunRemovesExactly` says that, if nobody touches the files in between, these are the only two ways;
  `WorldLaws.DeletionsWereAsked` is the theorem over histories, with missed and displaced files as its exceptions.
* A push that failed before the rename is scheduled again by the next run if and only if the other replica has no file, a
  linked one or an older one (`WorldLaws.NextRunRetries`). So a push that broke a tie is forgotten, and so is one that
  went ahead because the newer rival was taken for a renamed file, or missed.
* Content that somebody wrote since the run before is lost in a run if and only if a fresh rival with a different content
  lands on it without a backup: because conflict copies are off or the backup fails, but also with conflict copies on,
  when one of the two files is linked, taken for renamed, or missed by the listing (`SyncLaws.LostExactly`).
* When utimes fails on the local replica, which the source does not notice, the journal records the time of writing, and
  the remote file is older than its row ever after; `SyncLaws.SoundExactly` says which failures leave a path from which
  the next run can converge.
* A push whose temporary name is taken never gets a second name: the template is used up, the retry fails, and the
  clean-up unlinks the file that had the name. `Pushes.PushFile` says that, when nothing else fails, all other files are
  kept if and only if nothing had the temporary name.
* The lock excludes, while nobody dies, exactly when every competing pid fits in sixteen bits
  (`Locks.PidWidthExactly`): the lock of a bigger pid reads as broken and is removed. With deaths it excludes exactly
  when at most two processes compete (`Locks.RaceExactly`), unless reading the lock is taken as one step
  (`Locks.MutualExclusionDespiteDeaths`).
* `c_rbtree_node_delete` frees the node that it is asked to delete if and only if that node has at most one child
  (`RbTrees.RbTree.Delete`); otherwise it splices the least node below it in (`RbTrees.RbTree.Substitute`) and frees that
  one. The sanity check loses a fault of the black heights exactly where both subtrees of a node are at fault: then the
  two error values agree, and count as a height (`RedBlack.EvenExactly`, with five nodes in `RedBlack.FaultsMissed`).
  `c_rbtree_dup` of an empty tree makes a root without data (`RbTrees.RbTree.Dup`). csync itself does neither: it
  deletes nodes only by draining a tree, and copies none.
* `c_dirname` of a name behind two slashes or more, and nothing else, is the empty string, which is no directory
  (`Pushes.DirnameIs`); one slash gives "/".
* `c_parse_uri` ignores no character of what it accepts: result 0 means that the text is what separable parts render to
  (`ParseUris.AcceptedExactly`).
* `c_list_sort` puts tied elements in the order of the lowest bit in which their positions differ. It is stable on
  exactly the lists where that is their order (`MergeSorts.StableExactly`), so not on three equal elements
  (`MergeSorts.Unstable`).

The documentation (doc/csync.txt) says that the newer file wins; for ties the code decides by the journal, see
`SyncLaws.NewestWins`.

## Model

| member | source | states |
|---|---|---|
| RbTrees.RbTree.LeftRotate | src/std/c_rbtree.c:302-337 | the in-place rotation gives the four nodes around `x` exactly the links of a left rotation, moves the root if `x` was the root, and touches no other node |
| RbTrees.RbTree.RightRotate | src/std/c_rbtree.c:339-373 | the mirror image |
| RedBlack.RotShape | src/std/c_rbtree.c:302-373 | a rotation of any valid tree keeps the search order, all parent and child links, distinct keys and the gaps between keys |
| RbTrees.RbTree.StepUp | src/std/c_rbtree.c:431-470 | one turn of the insert fix-up, in both mirrored halves, changes heap and cursor as `InsertStep` says |
| RedBlack.InsertStepOk | src/std/c_rbtree.c:428-471 | a turn keeps the fix-up invariant (all rules but one red edge at the cursor) and either ends the loop or climbs |
| RbTrees.RbTree.FixUp | src/std/c_rbtree.c:428-472 | the fix-up loop terminates in a tree that meets every red-black rule |
| RbTrees.RbTree.FindPlace | src/std/c_rbtree.c:386-400 | the descent finds the node of the hash, or the one place where it belongs |
| RbTrees.RbTree.Insert | src/std/c_rbtree.c:375-477 | result 1 exactly when the hash is there, and then nothing changes; otherwise the tree stays valid and the index gains exactly the new datum on a fresh node |
| RbTrees.RbTree.Unlink | src/std/c_rbtree.c:502-520 | a node with at most one child leaves the parent chain, its child or the sentinel takes its place, and the parent field of the sentinel is set as scratch |
| RbTrees.RbTree.Victim | src/std/c_rbtree.c:491-500 | the node taken out of the parent chain is the node itself exactly if it has at most one child, and else the least node below it |
| RbTrees.RbTree.Substitute | src/std/c_rbtree.c:502-551 | for a node with two children, after the splice and before the fix-up, every link in the heap: the node taken out of the parent chain has the links of the other one, whose children and parent lead to it, and its only child or the sentinel is where it was; no other node changes |
| RbTrees.RbTree.StepRepair | src/std/c_rbtree.c:555-610 | one turn of the delete fix-up, in both halves, changes heap and cursor as `RepairStep` says |
| RedBlack.RepairStepOk | src/std/c_rbtree.c:554-611 | a turn keeps the invariant "one side is one black node short", pays the debt or moves it up, and gets closer to the end |
| RbTrees.RbTree.Repair | src/std/c_rbtree.c:554-612 | the delete fix-up terminates in a valid tree and leaves the sentinel black |
| RbTrees.RbTree.Delete | src/std/c_rbtree.c:479-620 | the node that is freed is the one to be deleted if and only if that has at most one child; then the tree keeps all rules, loses exactly that hash and does not lead to the node any more; otherwise a node with a lesser hash is freed |
| RbTrees.RbTree.Destroy | src/std/c_rbtree.h:182-194 | the drain loop terminates with an empty tree and hands every record to the destructor once, by ascending hash |
| RbTrees.RbTree.Find | src/std/c_rbtree.c:276-300 | finds the node exactly when the hash is in the index, and 2 to the number of comparisons is at most (size+1) squared |
| RedBlack.NoLongPath | src/std/c_rbtree.h:53-59 | in every valid tree, 2 to the number of nodes on the way from the root to any node is at most (size+1) squared |
| RbTrees.RbTree.Head | src/std/c_rbtree.c:204-215 | the node with the least hash, or NULL exactly for the empty tree |
| RbTrees.RbTree.Tail | src/std/c_rbtree.c:217-228 | the node with the greatest hash |
| RbTrees.RbTree.Next | src/std/c_rbtree.c:230-252 | the node with the next greater hash, or NULL if there is none |
| RbTrees.RbTree.Prev | src/std/c_rbtree.c:254-274 | the node with the next smaller hash, or NULL if there is none |
| RbTrees.RbTree.ThereAndBack | src/std/c_rbtree.c:230-274 | next and prev are inverse to each other |
| RbTrees.RbTree.Walk | src/std/c_rbtree.c:139-174 | the walk meets the nodes by ascending hash, every node once unless the visitor answers below 0, and then it stops right there with -1 |
| RbTrees.RbTree.WalkStepsByNext | src/std/c_rbtree.c:163-274 | next and prev enumerate the sequence that the walk visits |
| RbTrees.RbTree.BlackHeight | src/std/c_rbtree.c:622-639 | on any tree with right links, whatever its colors, the recursive check computes the value that `EvenExactly` is about |
| RbTrees.RbTree.CheckSanity | src/std/c_rbtree.c:641-754 | on any tree with right links and hashes, whatever its colors and its size field: -14 or -15 exactly if a red node has a red child; otherwise -18 exactly if the size is wrong; otherwise -19 exactly if the check of the black heights fails, and else 0 |
| RedBlack.EvenExactly | src/std/c_rbtree.c:622-639 | all ways down meet equally many black nodes if and only if the check of the black heights passes and nowhere both subtrees of a node are at fault |
| RedBlack.FaultsMissed | src/std/c_rbtree.c:632-638 | the instance of five black nodes that the check passes although the ways down differ |
| RedBlack.CheckedIsBh | src/std/c_rbtree.c:622-639 | on every tree that keeps the black-height rule the check returns the black height and finds no fault |
| RbTrees.RbTree.Dup | src/std/c_rbtree.c:64-100 | the copy is valid if and only if the tree is not empty, and then it has the same records and colors, node for node, on new nodes; of an empty tree it gets a root without data |
| RedBlack.CopyInOrder | src/std/c_rbtree.c:64-100 | a walk of the copy meets the copies of the nodes in the same order |
| SyncLaws.AtMostOneActs | src/csync_reconcile.c:43-279 | for all instructions that one shared journal can give a path, after both passes at most one side carries NEW, SYNC, CONFLICT or REMOVE |
| SyncLaws.DecisionTable | src/csync_reconcile.c:43-279 | update detection and both passes together, for all files, rows and switches: the instruction of each side as one table by who is missing, linked, renamed, changed, newer |
| SyncLaws.VisitRules | src/csync_reconcile.c:84-235 | the visitor at any two instructions: which side is pushed, as a conflict or plainly, which rests, and when it rules on the other side |
| SyncLaws.ConflictExactly | src/csync_reconcile.c:84-235 | a conflict is declared if and only if copies are on and both files are fresh, single-linked and not taken for renamed; on the side of the newer one, and remotely in a tie of two edits |
| SyncLaws.RemovalExactly | src/csync_reconcile.c:65-82 | an entry ends as REMOVE exactly when its path is in the journal, it is not newer than its row, it has one link and the other replica lacks it |
| SyncLaws.NewestWins | src/csync_reconcile.c:84-235 | when both sides changed the strictly newer one is pushed; a tie pushes nothing if both are new, and the remote file if both were edited |
| SyncLaws.ConvergesExactly | src/csync.c:401-514 | after an error-free run the replicas agree at a path if and only if they agreed before or something was to be done there |
| SyncLaws.Converges | src/csync.c:401-514 | from a sound path an error-free run with complete listings makes files and journal row equal, and the next run does nothing there, whatever else its luck, if and only if its listings show enough of the path |
| SyncLaws.RunExactly | src/csync_propagate.c:589-680 | everything a run leaves at a path, by the two instructions and whatever fails: both files, both conflict copies and the journal row |
| SyncLaws.VanishesExactly | src/csync_propagate.c:589-680 | with conflict copies on or off, whatever fails and whatever the listings miss, a file vanishes from its path in a run exactly when it is removed (single link, as journalled, none listed on the other replica) or moved aside for a winner that does not arrive |
| SyncLaws.MissedIsRemovedExactly | src/csync_update.c:228-301 | a run sets out to remove a file that the other replica has if and only if the listing missed the other one, and the file has a single link and is not newer than its row |
| SyncLaws.RowsMeanBoth | src/csync_statedb.c:291-345 | right after any run, whatever failed or was missed, a journalled path lacks its local file exactly if the run displaced it, and its remote file exactly if that was gone before and the removal of the local one failed |
| SyncLaws.RowsDescribe | src/csync_statedb.c:291-345 | the row describes the local file, unless a push to it failed after the rename |
| SyncLaws.NextRunRemovesExactly | src/csync_propagate.c:589-602 | if nobody touches the files in between, the next run sets out to remove a remote file if and only if the run before displaced its rival in a tie (complete listings, both files edited to the same time, single links, backup made, push lost) or the next listing misses the local one and the remote one is as journalled; and a local file if and only if the run before tried to, or the next listing misses its rival |
| SyncLaws.SoundExactly | src/csync_statedb.c:291-345 | after a run, whatever fails or is missed, a sound path is one from which the next run can converge if and only if times that could not be set do not contradict the rows, a tie between different contents was ended, and no file without a row looks renamed beside its rival |
| SyncLaws.FailedPushIsRetried | src/csync_propagate.c:424-430 | a push that fails before the rename is scheduled again by a next run with complete listings if and only if the rival is gone, linked or older, up to what renames then change; without a backup the files stay as they were |
| SyncLaws.LostExactly | src/csync_reconcile.c:84-235 | conflict copies on or off, whatever fails or is missed: content written since the last run is lost in a run if and only if a fresh rival with a single link and a different content is pushed over it and arrives, and no backup is made: it was the only one listed, or one of the two is linked or renamed, or it won the comparison without conflict copies or with a failing backup |
| SyncLaws.NothingLost | src/csync_propagate.c:589-621 | so with conflict copies on, complete listings, working backups, single links and no rename, no fresh content is lost, however pushes and removals end |
| SyncLaws.ConflictOutcome | src/csync_propagate.c:469-621 | in an error-free run a conflict leaves the winner at the path and the loser in the copy beside it; a local loser is dropped only when it equals the winner |
| WorldLaws.RunConverges | src/csync.c:401-514 | from a sound world an error-free run, conflict copies off, ends with the same paths, contents and times on both sides and a journal of exactly those |
| WorldLaws.ConvergedStays | src/csync_update.c:105-135 | a run of a converged world changes nothing, whatever else happens to it, if and only if its listings show every file, or miss only remote ones whose local twins then cannot be removed |
| WorldLaws.SecondRunIsIdle | src/csync.c:401-514 | after an error-free run a second one, with conflict copies on or off, does nothing if and only if its listings show as much |
| WorldLaws.TwoRunsConverge | src/csync.c:401-514 | with conflict copies on or off: one error-free run settles every path that was there, and a second one, which carries the copies over, makes the replicas and the journal equal |
| WorldLaws.DeletesExactly | src/csync_reconcile.c:65-82 | which files a run makes vanish from either replica, with conflict copies on or off, whatever fails and whatever the listings miss, as an equivalence |
| WorldLaws.DeletionsWereAsked | src/csync_reconcile.c:65-82 | in every history of runs, conflict copies on or off in each, whatever fails or is missed, and edits, that starts without a journal: when a file vanishes in a run, it is in its conflict copy, or an edit had removed it from the other replica, where it has been absent since; or else the listing of this run missed the file on the other replica, or the file is a remote one whose local rival an earlier run displaced |
| WorldLaws.NoCopiesNoException | src/csync_reconcile.c:198-227 | while conflict copies are off the exception does not occur |
| WorldLaws.RunKeepsSteady | src/csync_statedb.c:291-345 | a run in which listings miss files, and pushes (before or after the rename), backups and removals fail leaves a steady world (sound paths, distinct inodes, no tie between different contents), from which the next run can converge, if it was steady before, new files get inodes of their own and times that could not be set do not contradict the rows |
| WorldLaws.EventuallyConverges | src/csync.c:401-514 | after any number of such runs, conflict copies on or off in each, an error-free run with complete listings settles every path that is there, and without conflict copies makes the replicas equal |
| WorldLaws.NextRunRetries | src/csync_propagate.c:424-430 | in whole worlds with distinct inodes: a push that failed before the rename is scheduled again by a next run with complete listings if and only if the other replica has no file, a linked or an older one; a removal follows exactly after a displacement in a tie |
| WorldLaws.ContentLostExactly | src/csync_propagate.c:469-621 | in whole worlds, conflict copies on or off: fresh content is neither at the path nor in the copy beside it after a run if and only if the rival overwrote it, as in `LostExactly` |
| WorldLaws.NoContentLost | src/csync_propagate.c:469-621 | so with conflict copies on, a backup that works, both files listed, single links and no rename, no fresh content is lost |
| WorldLaws.CopiesExactly | src/csync_propagate.c:589-621 | in whole worlds, whatever fails or is missed: a conflict copy appears if and only if both files were listed, fresh and compared, copies are on and the backup worked; on the side of the loser, unless it is a local one that equals what arrived and can be removed |
| WorldLaws.RenamedGivesWay | src/csync_update.c:105-127 | a local file without a row whose inode some row has gives way to a remote file at its path, whatever their times |
| Csyncs.Instruct | src/csync_update.c:92-135 | the branches of update detection give the instruction of the per-path rule |
| Csyncs.DetectUpdate | src/csync_update.c:46-174 | a file's record is inserted in the tree under its hash with that instruction; a hash that is there keeps its record |
| Csyncs.Update | src/csync_update.c:211-353 | after the walk of a replica, in any listing order and with any files missing from the listing, its tree holds exactly the records of the listed files |
| Csyncs.OnBoth | src/csync_reconcile.c:83-236 | the visitor's switch on two entries changes both instructions as the per-path rule says |
| Csyncs.MergeAlgorithmVisitor | src/csync_reconcile.c:43-279 | the visitor changes its record and its partner in the other tree, and no other |
| Csyncs.ReconcileUpdates | src/csync_reconcile.c:281-301 | a whole pass equals the per-path rule applied at every hash, whatever the key order |
| Csyncs.ReconcileBoth | src/csync.c:401-456 | both passes, the second seeing what the first changed, equal the two-pass rule at every hash |
| Csyncs.ConflictFile | src/csync_propagate.c:589-621 | backup, push and comparison leave destination, copy and instruction as the per-path rule says |
| Csyncs.PushFile | src/csync_propagate.c:375-440 | as far as the run can tell: after result 0 the destination has the content and the time of the record, or some other time if utimes failed; after a failure before the rename what it had, after a later one the content with another time; the record says UPDATED exactly after result 0 |
| Csyncs.RemoveFile | src/csync_propagate.c:623-680 | the file goes and its record says DELETED, or it stays and its record says NONE |
| Csyncs.PropagationFileVisitor | src/csync_propagate.c:1004-1055 | the visitor carries out the instruction of a file on both stores and touches nothing but its path and its conflict name |
| Csyncs.PropagateFiles | src/csync_propagate.c:1120-1122 | the walk over the files equals the per-path rule at every hash, conflict names included |
| Csyncs.MergeFileTreesVisitor | src/csync_util.c:106-232 | a pushed remote record is found or inserted in the local tree and takes over inode and time of the local file |
| Csyncs.MergeFileTrees | src/csync_util.c:234-261 | the merged local tree equals the per-path merge rule at every hash |
| Csyncs.InsertMetadata | src/csync_statedb.c:278-385 | the journal has a row, with time and inode of the record, for exactly the local records that are NONE, UPDATED or CONFLICT |
| Csyncs.Synchronize | src/csync.c:340-514 | the whole run over heap trees, in any listing and walking order, whatever the listings miss, relates the world before and after as `RunOf` says |
| TmpNames.TmpName | src/std/c_path.c:121-152 | fills in the six X of a template, or fails and changes nothing |
| TmpNames.DrawnOnce | src/csync_propagate.c:190-196 | a drawn name is no template: the retry after EEXIST always fails |
| TmpNames.SuffixIsRead | src/std/c_path.c:135-145 | the six characters are 0 to 9 and a to v and give the drawn digits back, so different draws are different names |
| Pushes.CreateTemp | src/csync_propagate.c:174-233 | the open loop terminates; it creates the temporary file only under a free name and in a directory that is there, and besides only directories above the destination; what failed last tells the result |
| Pushes.DirnameIs | src/std/c_path.c:40-79 | the directory of any name behind any path, with any slashes between and after: that path; "." without one; "/" behind one slash; the empty string behind more |
| Pushes.Vio.Mkdirs | src/vio/csync_vio.c:398-458 | only the directory and those above it may appear, and none without the one it lies in, also when an operation fails; when none fails the directory is there |
| Pushes.Copy | src/csync_propagate.c:235-271 | on success the temporary file holds the whole source, and at every moment nothing else has changed |
| Pushes.Override | src/csync_propagate.c:273-372 | the destination is replaced by the temporary file in one step, and only after the size was right |
| Pushes.PushFile | src/csync_propagate.c:62-440 | for all failures and at every step: the destination is the old file or the whole source and no other path is touched; no directory appears without the one it lies in; result 0 means the destination is the source with the right mode, a default mode as the umask cuts it, in a directory that is there, with all above it; -1 exactly if what failed last was a lack of memory (but for reading and writing), of space on closing, or a taken name, 1 exactly after any other failure that ends the push or a wrong size; without failures result and files are given exactly, and all other files are kept if and only if nothing had the temporary name |
| Locks.MutualExclusion | src/csync_lock.c:43-201 | in every interleaving of single steps without deaths at most one process has the lock, the file names its pid, and no reader gets part of a pid |
| Locks.MutualExclusionDespiteDeaths | src/csync_lock.c:122-201 | the same with deaths at any moment when reading the lock is one step |
| Locks.RaceExactly | src/csync_lock.c:152-171 | with deaths and single steps the lock excludes in all runs exactly for at most two competing processes |
| Locks.PidWidthExactly | src/csync_lock.c:140-153 | without deaths the lock excludes in all runs exactly when all pids fit in sixteen bits (or there is no rival) |
| Locks.ReadBackExactly | src/csync_lock.c:136-140 | a pid reads back as itself through the eight-byte buffer if and only if it has up to seven digits |
| Locks.StaleLockIsTaken | src/csync_lock.c:43-186 | in single steps: left alone, an idle process gets the lock if and only if there is no lock file, or one that can be read and names no live process of sixteen bits |
| Locks.RemovedExactly | src/csync_lock.c:189-201 | csync_lock_remove() of an idle process, left alone: the lock file goes exactly if it names that process, which then no longer has the lock, or reads as broken; nothing else changes, and the lock of another living process stays |
| Locks.FailedLockChangesNothing | src/csync_lock.c:43-120 | a process that cannot create, write or link its temporary file gives up and leaves the lock as it is |
| CLists.Merge | src/std/c_list.c:379-404 | merges two lists in place into the list that the sequence merge gives, keeping the first prev link |
| CLists.Split | src/std/c_list.c:409-439 | takes alternate nodes into a second well-formed list |
| CLists.Sort | src/std/c_list.c:444-460 | terminates with a well-formed list over the same nodes in the order of the merge sort |
| MergeSorts.SortIsRight | src/std/c_list.c:444-460 | the merge sort is ascending for the comparator and a permutation |
| MergeSorts.TiesExactly | src/std/c_list.c:409-460 | of two tied elements the one whose position has the 0 at the lowest differing bit comes out first, and only that one |
| MergeSorts.StableExactly | src/std/c_list.c:409-460 | on a list of distinct elements all tied pairs keep their order if and only if no tied pair has, at the lowest bit where its positions differ, the 1 first |
| MergeSorts.Unstable | src/std/c_list.c:409-460 | the instance for three equal elements: the second comes out last |
| CLists.Links | src/std/c_list.c:255-321 | in a well-formed list next and prev are inverse, the ends are NULL, and no node occurs twice |
| CLists.Prepend | src/std/c_list.c:60-78 | puts a new node in front, given any node of the list |
| CLists.InsertSorted | src/std/c_list.c:127-175 | puts a new node before the first that is not smaller, keeping the list well-formed |
| CLists.InsertedAscends | src/std/c_list.c:127-175 | a sorted list stays sorted |
| CLists.Free | src/std/c_list.c:239-255 | frees every node once, given any node of the list, and uses none after it was freed |
| DirRemovals.BelowIsGreater | src/csync_propagate.c:43-50 | what lies below a directory compares greater than it |
| DirRemovals.FirstDifferenceDecides | src/csync_propagate.c:43-50 | the first place where two paths differ decides how they compare |
| DirRemovals.Site.RemoveDir | src/csync_propagate.c:862-947 | removes an empty directory, puts one with content on the list, and gives up with 1 and NONE on any other error |
| DirRemovals.Site.Cleanup | src/csync_propagate.c:949-1002 | the sorted reverse sweep removes every deferred directory that can go |
| DirRemovals.Site.RemoveDirs | src/csync_propagate.c:1124-1130 | for every visiting order, and whatever directories rmdir refuses, exactly the directories go that can be removed together with all below them, and the records tell which |
| DirRemovals.GoneExactly | src/csync_propagate.c:862-1002 | equivalently: those below which no entry survives |
| DirRemovals.Site.FreeList | src/std/c_list.c:239-255 | the stale head that is left after the sort still frees the whole list |
| SplitPaths.SplitPath | src/std/c_path.c:393-461 | within length+3 bytes the three strings are the directory, name and extension of the path |
| SplitPaths.SplitsOneWay | src/std/c_path.c:393-461 | that contract fixes the three strings: no path splits in two ways |
| SplitPaths.BackupsApart | src/csync_propagate.c:442-467 | at one moment different paths get different conflict names |
| SplitPaths.BackupSplits | src/csync_propagate.c:442-467 | a conflict name splits into the directory of the path, its name with the mark and the moment, and its extension |
| ParseUris.ParseUri | src/std/c_path.c:154-381 | the loops over the text parse as the grammar function does: the same result, and the same fields stored, also before a -1, with a port read as strtoul reads it, blanks and signs included |
| ParseUris.RoundTrip | src/std/c_path.h:84-89 | parsing a URI rendered from separable parts, with a port in any base, returns their fields |
| ParseUris.AcceptedExactly | src/std/c_path.c:154-381 | result 0 if and only if the whole text is what separable parts render to: no character of an accepted text is ignored |
| ParseUris.PortsMean | src/std/c_path.c:346-358 | a port written in decimal, octal or hexadecimal is that number, cut down to an unsigned int |
| ParseUris.SignedIsRead | src/std/c_path.c:346-358 | blanks and a sign before a number, as strtoul reads them: a minus is taken modulo the size of an unsigned int |
| JHashes.MixUndone | src/std/c_jhash.h:89-103 | the mix has an explicit inverse |
| JHashes.JHash64 | src/std/c_jhash.h:186-239 | the loop and the fall-through tail compute the hash of the key cut into blocks of three little-endian words, the last padded with zeros |
| JHashes.FirstDifference | src/std/c_jhash.h:195-205 | keys that first differ within one block have different states after it |
| JHashes.OneBlockDiffers | src/std/c_jhash.h:186-239 | keys of one length that differ within one whole block only have different final states |
| JHashes.TailDiffers | src/std/c_jhash.h:207-237 | so have keys that differ in what is left after the same whole blocks, also in how much is left |
| JHashes.StartIsRead | src/std/c_jhash.h:189-192 | from the state of the empty key the inverse mix reads the start value, twice, and the golden ratio |
| JHashes.EmptyKey | src/std/c_jhash.h:89-103 | the hash of the empty key, to the last bit: it fixes the twelve shifts |

## Left out

- Delete: what the fix-up loop and the free make of the tree after a node with two children was spliced out (src/std/c_rbtree.c:553-616). Heights need not agree there, and the loop starts from links that still lead to the deleted node.
- CheckSanity: trees whose links or hashes are wrong, for which the other error values stand.
- Update: the order of the listing and what it misses are parameters; why a file is missed (errors, exclude lists, the skipped names of the journal) and the recursion into directories are not part of this model.
- PropagateFiles: each pass takes the list of records that a walk of its tree gives; no pass changes the shape of a tree. Directories are propagated and merged in the source too; here they appear only in the removal of directories.
- Csyncs.PushFile: the steps inside a push, which `Pushes.PushFile` has.
- Synchronize: errors that abort a walk (ENOMEM and the like, opendir failing otherwise than with EACCES), so that no journal is written; directories; files that change while the run is under way; the temporary files of its pushes.
- DeletionsWereAsked: runs that are aborted; a file that has the drawn name of a temporary file, which `Pushes.PushFile` has; and a file that has the name of a conflict copy, for these names are taken to be new.
- FailedPushIsRetried: a next run whose listings miss one of the files.
- Pushes.PushFile: pushing without a temporary file when the module stores files atomically, chown, and the source file itself changing during the copy.
- RemoveDir: ENOMEM, which aborts the walk.
- Sort: comparators are functions of the data; `SortIsRight` asks that they order the elements totally and transitively, as strcmp() does.
- JHash64: keys are sequences of bytes; the 32-bit hash c_jhash is the same construction and is not modelled. That distinct paths hash differently is an assumption everywhere: paths are named by their hashes.
- Rows of the journal are a finite map; SQLite, the conversions of its columns, and crash safety of copying the journal back are not part of this model.
- Locks: reuse of pids, and a value of errno left over from before the read.
- Network modules, logging, configuration, iconv and Windows branches.
