# Verification of rgit's core protocols

A Dafny model of the parts of rgit that carry state across requests, and proofs of what they
promise. `dafny verify dfyconfig.toml` checks everything.

| file | models |
|---|---|
| `LfsStore.dfy` | the content-addressed Git LFS store: streaming uploads, batch links, forks, downloads, crashes and restarts over disk and tables |
| `Flatten.dfy`, `Materialize.dfy` | the GitLab migration: nested groups become a flat list of names, inherited memberships are copied onto descendants |
| `Access.dfy` | levels, visibility and the authorizer |
| `Lifecycle.dfy` | create, fork, push-time creation and deletion of projects, the disk-id allocator, directories and compensation |
| `Ownership.dfy` | triggers and cascades that keep an active administrator and group owners, and the handlers that check before they write |
| `Operations.dfy` | the operation tracker, graceful shutdown and the Git slots |
| `Throttle.dfy` | the login throttle against the history of failures |
| `SshKey.dfy` | SSH public keys: wire format, field checks, normalized line |
| `ShellCommand.dfy` | the forced SSH command |
| `GitOutput.dfy` | parsing `git log -z` and `git ls-tree -z --long` |
| `Backup.dfy`, `BackupRuns.dfy` | splitting large files for the backup repository and restoring them; the exclude file and the commits over many runs |
| `Members.dfy`, `ProjectList.dfy` | project member edits over whole runs; the project list, its filter and its pages |
| `Prelude.dfy`, `Numerals.dfy`, `Text.dfy` | options and results, sorting, decimal numbers, string functions |

Concurrent handlers are step machines: an event is one statement, one transaction, one file-system
call or one await point; a state holds the tables, the disk and the requests in flight; a run is any
sequence of enabled events. Invariants are proved for every event and then for every run. Where the
program changes things in place, a class has the same fields and its methods are proved against the
step functions or against a specification on values.

What the parts compute is stated twice where it matters: the theorems below speak of whole runs and
round trips, and small lemmas beside them, most without a row of their own, give the meaning of single
definitions in literals (levels, characters, names, sizes, the stages of a request, the effect of one
step on each table), so that a slip in a definition that a theorem merely carries along shows as well.

Assumptions: SHA-256 has no collisions among the contents that occur (`LfsStore.CollisionFree`), and
distinct disk ids have distinct hashes (directories in `Lifecycle` are keyed by disk id); base64
decoding is strict and inverts encoding (`SshKey.Strict`); an SQLite statement with its triggers and
foreign-key actions is atomic; the crash model is process death.

What the proofs show beyond the promises kept:

- A deletion that is abandoned or killed after its first rename leaves a project row without its
  repository (`Lifecycle.AbandonedDeleteStrands`). In general a step strands a project exactly when it
  is a failure (an abandoned request, a refused rename back, a failed final statement) of the only
  request that answers for a project whose repository is not at its path
  (`Lifecycle.StrandsExactly`).
- Deletion and the withdrawal of a create end in a statement by row id, and SQLite gives the row id of
  the newest project out again once it is deleted. The later of two deletions of that project, and a
  create that finds its repository gone, can then remove a newer project's row
  (`Lifecycle.LateDeleteHitsNewProject`, `Lifecycle.LateWithdrawalRemovesNewProject`).
- Disk ids of migrated projects are not in the allocation table, so the largest one can be issued again
  while a second deletion of its project is in flight, which then takes the new repository
  (`Lifecycle.MigratedProjectHit`). The first id issued while no deletion is in flight ends this for
  good (`Lifecycle.FirstReservationCovers`, `Lifecycle.CoveredStays`).
- On the same kind of installation a deletion that failed can put a deleted project's repository back
  at the path of the project that was given its id; the new project's own repository can then not be
  put back, although every rename that is possible succeeds (`Lifecycle.BlockedRestoreLosesProject`).
- These are all the ways: projects are safe exactly while no repository is built where a deletion in
  flight has yet to look or still holds one, and no row id is given out that a request may still delete
  by. Then a project at rest has its repository if and only if no step stranded it
  (`Lifecycle.ProjectsKeepTheirRepositories`, `Lifecycle.SafeExactly`).
- Whether a user who solely owns a group created by their own push may be deleted depends on an
  undocumented cascade order; the handler always refuses (`Ownership.DeleteUserAgrees`).
- With n logins for one key in flight at a time the key's failures can pass the limit by n - 1, and by
  no more (`Throttle.ConcurrentLoginsBounded`, `Throttle.BoundIsReached`).
- A member's removal that read a row before it is raised can remove the raised row
  (`Members.RaisedRowRemoved`); `Members.HigherRowExactly` says when a write does such a thing.
- Every path the backup ever split stays in the work tree's exclude file. A file that was large once and
  is small at a later backup is not committed then, and restoring that backup succeeds without it
  (`BackupRuns.ShrinkingFileIsLost`).
- A backup gives its tree back, for all orders of both walks, if and only if no file is named like a
  marker or like a chunk of a large file, chunks are at most the threshold or every large file fits in
  100 of them and a threshold, and every file of the mirror is tracked or not passed over by `git add`,
  and not below a `.git` directory
  (`BackupRuns.BackupExactly`); for plain names the last part means that none is, or is below, a path
  that an earlier run split (`BackupRuns.HistoryExactly`).

## Model

| member | source | states |
|---|---|---|
| `LfsStore.StepKeepsInv` | crates/rgit-http/src/handlers/lfs.rs:400-464 | one step of any request, crash or restart keeps every row backed by an honest file, every link sound and every upload's temporary file its own |
| `LfsStore.RunKeepsInv` | crates/rgit-http/src/handlers/lfs.rs:400-464 | over every interleaving of uploads, batch links, forks, downloads, deletions, abandoned requests, process death and restarts, each object row has a file at its sharded path whose hash is the oid and whose length is the recorded size, and each link names existing rows |
| `LfsStore.EmptyStoreIsSound` | crates/rgit-core/src/storage.rs:66-94 | a fresh installation satisfies the invariant |
| `LfsStore.RunKeepsContent` | crates/rgit-http/src/handlers/lfs.rs:441-462 | over any run no object row is lost or altered and no file at a final path changes content, although renames overwrite |
| `LfsStore.DownloadStreamsWhatItAnnounced` | crates/rgit-http/src/handlers/lfs.rs:316-353 | a download that read its row at one step and opens the file at any later one streams exactly the announced length, and bytes that hash to the oid |
| `LfsStore.CommittedUploadIsStored` | crates/rgit-http/src/handlers/lfs.rs:444-462 | an upload that commits links its project to a row of its oid, and that row and a file with exactly the received bytes stay for the rest of the run |
| `LfsStore.ForkSharesLinks` | crates/rgit-http/src/handlers/api/projects.rs:557-570 | over any run, after a fork the new project has exactly the links of its source, and can download exactly the objects the source can |
| `LfsStore.LinksChange` | crates/rgit-http/src/handlers/lfs.rs:225-290 | over any run, a project has a link after a step if and only if it had it and was not deleted, or the step is a commit of its own upload or batch link, or a fork from a project that has the link |
| `LfsStore.BatchLinksWhatItFound` | crates/rgit-http/src/handlers/lfs.rs:257-290 | a batch upload that commits has linked the object it found to the project it was made for |
| `LfsStore.UploadStoresWhatArrived` | crates/rgit-http/src/handlers/lfs.rs:400-464 | an upload that commits was opened for a project and an oid: the project is linked to a row of that oid and of the length received, the bytes of all chunks that arrived since hash to the oid, and they are at its path for the rest of the run |
| `LfsStore.DownloadRemembers` | crates/rgit-http/src/handlers/lfs.rs:316-353 | a download serves the row it read, of an object linked to its project |
| `LfsStore.RunKeepsLimit` | crates/rgit-http/src/handlers/lfs.rs:417-429 | nothing larger than the configured limit is ever recorded |
| `LfsStore.CrashKeepsStore` | crates/rgit-http/src/handlers/lfs.rs:400-464 | process death ends every request and leaves tables and final files as they were |
| `LfsStore.RestartCleansUp` | crates/rgit-core/src/storage.rs:78-94 | after a restart no fragment of any upload is left, whatever its oid, process and number, and every final file is as it was |
| `LfsStore.NamesNeverClash` | crates/rgit-http/src/handlers/lfs.rs:406-410 | temporary names of uploads in flight differ from each other and from every final path |
| `LfsStore.TempPathInjective` | crates/rgit-http/src/handlers/lfs.rs:409-410 | a temporary name of one process determines its oid and its sequence number |
| `LfsStore.LfsPathInjective` | crates/rgit-core/src/storage.rs:54-64 | different valid oids have different sharded paths |
| `LfsStore.LfsPathShards` | crates/rgit-core/src/storage.rs:54-59 | the sharded path is two directories of two digits and a name of sixty, in the order of the oid |
| `LfsStore.OidIsHex` | crates/rgit-core/src/storage.rs:61-64 | a valid oid is 64 digits out of 0-9 and a-f |
| `LfsStore.TempPathIsPart` | crates/rgit-http/src/handlers/lfs.rs:406-410 | the temporary name of every upload is one the clean-up removes, and no final path is |
| `LfsStore.ReceiveComplete` | crates/rgit-http/src/handlers/lfs.rs:417-429 | a body is received whole exactly when no chunk is broken and the total is within the limit, and then the bytes are the concatenated chunks |
| `LfsStore.Server.ReceiveBody` | crates/rgit-http/src/handlers/lfs.rs:417-437 | the chunk loop ends in success, oversize or failure as the specification of the body says, with exactly the received bytes in the temporary file, and is a run of the machine |
| `LfsStore.Server.CommitRows` | crates/rgit-http/src/handlers/lfs.rs:444-462 | the transaction adds at most one row for the oid and links exactly that row, or changes nothing when the project is gone |
| `LfsStore.Server.Publish` | crates/rgit-http/src/handlers/lfs.rs:441-462 | verified content replaces the temporary file at the final path, and rows follow only while the project exists |
| `LfsStore.Server.StoreStreaming` | crates/rgit-http/src/handlers/lfs.rs:400-464 | the whole upload, alone: its result, the exact new disk and tables for success and for each failure, whatever else is in the temporary directory, and that its steps are a run of the machine above |
| `LfsStore.Server.CleanupTemp` | crates/rgit-core/src/storage.rs:78-94 | start-up clean-up removes exactly the upload fragments and returns their number; no temporary file of any upload remains |
| `Flatten.ChainUnique` | crates/rgit-migrate/src/main.rs:409-430 | a namespace has at most one root-to-self parent chain |
| `Flatten.BaseFollowsParents` | crates/rgit-migrate/src/main.rs:429-435 | the joined path of a root group is its own path, and that of every other group is its parent's joined path, two dashes and its own path, one level deeper |
| `Flatten.ResolveChain` | crates/rgit-migrate/src/main.rs:409-430 | the parent walk terminates; it returns the chain when there is one, and otherwise the error of the first ancestor that repeats, is missing or is no group, all before it being different groups, and then no chain exists |
| `Flatten.FailsOnce` | crates/rgit-migrate/src/main.rs:413-426 | a parent walk can fail at one ancestor only and with one error |
| `Flatten.NamesDistinctAndShort` | crates/rgit-migrate/src/main.rs:441-457 | names given by the rule are at most 255 bytes and pairwise distinct up to ASCII case |
| `Flatten.NamingUnique` | crates/rgit-migrate/src/main.rs:439-457 | the naming rule (by depth, then id) determines every path |
| `Flatten.NoNeedlessRenaming` | crates/rgit-migrate/src/main.rs:444-453 | a path is changed only if it is longer than 255 bytes or taken by a namespace of smaller depth and id |
| `Flatten.StuckOnlyOnUnsuffixed` | crates/rgit-migrate/src/main.rs:454-459 | naming stops at a namespace only when its suffixed path meets the unsuffixed path of one named before (ids not negative) |
| `Flatten.StopsOnce` | crates/rgit-migrate/src/main.rs:454-459 | naming can stop at one namespace only |
| `Flatten.NegativeIdsCollide` | crates/rgit-migrate/src/main.rs:445-452 | with a negative id two different suffixed paths can be equal, so the previous statement needs its condition |
| `Flatten.BoundariesCut` | crates/rgit-migrate/src/main.rs:446-450 | in a UTF-8 text the character boundaries are exactly the positions at which it can be cut into two UTF-8 texts |
| `Flatten.SuffixedIsUtf8` | crates/rgit-migrate/src/main.rs:444-453 | a truncated and suffixed path is still UTF-8 |
| `Flatten.SuffixShape` | crates/rgit-migrate/src/main.rs:445 | the suffix is two dashes and the id in decimal |
| `Flatten.MakeRoom` | crates/rgit-migrate/src/main.rs:444-453 | the truncation loop stops at the last character boundary that leaves room for the suffix |
| `Flatten.FlatteningUnique` | crates/rgit-migrate/src/main.rs:394-479 | a forest has at most one flattening |
| `Flatten.InputOrderIrrelevant` | crates/rgit-migrate/src/main.rs:394-479 | two inputs with the same rows flatten to the same list |
| `Flatten.FlatListKeepsAncestry` | crates/rgit-migrate/src/main.rs:432-477 | the flat list has exactly the input ids, each group with its unique parent chain |
| `Flatten.FlatListPathsDistinct` | crates/rgit-migrate/src/main.rs:441-457 | paths of the flat list are at most 255 bytes and pairwise distinct up to ASCII case |
| `Flatten.FlatPathOfChild` | crates/rgit-migrate/src/main.rs:429-477 | in the flat list a group that is not renamed, below a parent that is not renamed, has the parent's path, two dashes and its own path |
| `Flatten.NameAll` | crates/rgit-migrate/src/main.rs:439-476 | the naming loop with its set of used names builds the naming of the rule; or it returns the id of the namespace whose name is one of those named before it, those having the names of the rule, and then no naming exists |
| `Flatten.FlattenNamespaces` | crates/rgit-migrate/src/main.rs:394-479 | succeeds exactly when a flattening of the forest exists, and then returns it, in id order; otherwise the error is that of the first row whose parent walk fails, or names the namespace where naming stops |
| `Materialize.UpsertKeepsMaxima` | crates/rgit-migrate/src/main.rs:749-752 | the upsert with MAX keeps a table of the largest level given per key |
| `Materialize.Target.WriteProjectMembers` | crates/rgit-migrate/src/main.rs:742-763 | direct memberships end up as the largest level per project and user, or the run aborts on an illegal level |
| `Materialize.Target.CollectGroupLevels` | crates/rgit-migrate/src/main.rs:767-787 | the nested loops collect, per flattened group and user, the largest level of any membership whose source is in the group's ancestry |
| `Materialize.Target.WriteGroupMembers` | crates/rgit-migrate/src/main.rs:788-800 | writing the level map in any iteration order stores exactly the map, or aborts on an illegal level |
| `Materialize.Target.WriteMemberships` | crates/rgit-migrate/src/main.rs:742-800 | on success both tables hold those maxima and only legal levels; legal input always succeeds |
| `Materialize.ChainIsAncestors` | crates/rgit-migrate/src/main.rs:409-430 | membership in a chain is the same as being an ancestor or the group itself |
| `Materialize.AccessPreserved` | crates/rgit-migrate/src/main.rs:765-800 | for every forest that flattens, every membership list, migrated project and user, the flat lookup is the maximum of project membership, memberships on the group or any ancestor, and namespace ownership |
| `Materialize.LegalLookup` | crates/rgit-core/src/auth/mod.rs:19-45 | with legal levels stored, the server's effective level is that maximum |
| `Materialize.Migrate` | crates/rgit-migrate/src/main.rs:394-800 | flattening and writing together: on success the server grants every migrated user on every project the greatest level the nested namespaces granted, and every namespace keeps its owner; it fails only without a flattening, on a project without a namespace, or on an illegal level |
| `Access.MemberMayAct` | crates/rgit-core/src/auth/mod.rs:49-87 | an active member may read if some source gives at least 10 or the project is internal or public, write if one gives at least 30 and the project is not archived, administer if one gives at least 40, and not otherwise |
| `Access.GreatestDecides` | crates/rgit-core/src/auth/mod.rs:19-45 | whatever numbers are stored, the greatest decides, and only the five levels count: a larger number that is none of them hides the smaller ones |
| `Access.NoSourceNoAccess` | crates/rgit-core/src/auth/mod.rs:49-87 | a user without a membership or the namespace can at most read public and internal projects |
| `Access.AdminsAndInactive` | crates/rgit-core/src/auth/mod.rs:66-76 | an active administrator is granted everything but a write to an archived project, an inactive user nothing |
| `Access.AnonymousMayRead` | crates/rgit-core/src/auth/mod.rs:56-66 | an anonymous caller is granted exactly the reading of public projects, and Forbidden exactly for a write to an archived one |
| `Access.ActionsNest` | crates/rgit-core/src/auth/mod.rs:49-87 | administering implies writing unless archived, and writing implies reading |
| `Lifecycle.FileNamesDistinct` | crates/rgit-git/src/repo.rs:195-200 | live and trash names of repository, wiki and design directories are distinct across kinds, times and hashes |
| `Lifecycle.FileNames` | crates/rgit-core/src/storage.rs:24-52 | the names of repository, wiki and design directories, live and renamed aside, spelled out |
| `Lifecycle.NextIds` | crates/rgit-http/src/handlers/api/projects.rs:55-69 | ids begin at 1 and go on after the largest; once the last row id is in use any free one may be given |
| `Lifecycle.StepKeepsInv` | crates/rgit-http/src/handlers/api/projects.rs:234-303 | one safe step of any create, fork, push-time creation or deletion keeps every project stranded or answered for (its repository at its path, in the trash of a deletion of that very project, or with a create about to withdraw), only its own repository at a project's path, and every request that may delete a row by id a request of the project that has it |
| `Lifecycle.RunKeepsInv` | crates/rgit-http/src/handlers/api/projects.rs:396-434 | the same over every run of safe steps |
| `Lifecycle.RemovalsAreOwn` | crates/rgit-http/src/handlers/api/projects.rs:286-300 | while that holds, a row is deleted only by a deletion or withdrawal of its own project |
| `Lifecycle.ProjectsKeepTheirRepositories` | crates/rgit-http/src/handlers/api/projects.rs:234-303 | over every run of safe steps from a sound state, with any failure and abandonment, a project at rest has at its path the very repository it was created with if and only if no step stranded it, and no row is removed by a request about another project |
| `Lifecycle.StrandsExactly` | crates/rgit-http/src/handlers/api/projects.rs:286-303 | in every sound state and for every step: a project that something answers for is left with nothing answering exactly when the step is a failure of the only request that does, while its repository is not at its path |
| `Lifecycle.StrandedSince` | crates/rgit-http/src/handlers/api/projects.rs:407-447 | over a run, the projects noted as stranded are those for which such a step occurred |
| `Lifecycle.SafeExactly` | crates/rgit-http/src/handlers/api/projects.rs:421-431 | a step is safe (no repository built where a deletion has yet to look or still holds one, no row id given out that a request may still delete by) if and only if no continuation by safe steps removes a foreign row or loses the repository of a project that no step stranded |
| `Lifecycle.CoveredStays` | crates/rgit-http/src/handlers/api/projects.rs:55-69 | once the allocation table reaches beyond all live ids it stays so, and then no repository is ever built under a deletion |
| `Lifecycle.FirstReservationCovers` | crates/rgit-http/src/handlers/api/projects.rs:55-76 | the first id issued while no deletion is in flight puts the table ahead, on a migrated installation too |
| `Lifecycle.CoveredProjectsKeepTheirRepositories` | crates/rgit-http/src/handlers/api/projects.rs:55-76 | from then on only row ids matter: while none is given out that a request may still delete by, each project at rest has its repository exactly when no step stranded it |
| `Lifecycle.QuietStateIsSound` | crates/rgit-http/src/handlers/api/projects.rs:256-300 | an empty installation, and a migrated one with every repository in place, satisfy the invariant |
| `Lifecycle.StepTouchesOwnDisk` | crates/rgit-http/src/handlers/api/projects.rs:78-84 | each handler creates, renames and removes directories of its own disk id only |
| `Lifecycle.CompensationSparesProjects` | crates/rgit-http/src/handlers/api/projects.rs:78-84 | compensating removal never reaches another live project's directory, also when the directory already existed |
| `Lifecycle.CleanUpFreesPath` | crates/rgit-http/src/handlers/api/projects.rs:286-292 | a create whose build or insert failed leaves its path free, unless the file system refuses the removal, every other directory in place and its id unused |
| `Lifecycle.RowsChange` | crates/rgit-http/src/handlers/api/projects.rs:396-434 | rows come by inserts and go by committed deletions and withdrawals of their id, and no step changes one |
| `Lifecycle.VisitRenames` | crates/rgit-http/src/handlers/api/projects.rs:407-418 | a visit of a deletion renames the directory aside with its contents, if there is one, and touches no other |
| `Lifecycle.RestoreRenames` | crates/rgit-http/src/handlers/api/projects.rs:436-447 | a rename back brings the contents back exactly when the directory is still aside and nothing is in its way |
| `Lifecycle.OnlyFailuresStrand` | crates/rgit-http/src/handlers/api/projects.rs:436-447 | in every sound state a project is left with nothing answering for it only by an abandoned request, a refused rename back or a failed final statement |
| `Lifecycle.HoldsAlone` | crates/rgit-http/src/handlers/api/projects.rs:407-447 | while a deletion holds a live project's repository no other deletion holds one of its disk id and nothing is at its path, so nothing can block the rename back |
| `Lifecycle.IssuedIdsIncrease` | crates/rgit-http/src/handlers/api/projects.rs:55-76 | every id issued exceeds all ids issued before and all live disk ids, whatever was deleted |
| `Lifecycle.LateDeleteHitsNewProject` | crates/rgit-http/src/handlers/api/projects.rs:396-434 | from every quiet state a run of two deletions of one project, the second late, and a creation: the late deletion removes the new project's row exactly when its row id was given again, and has taken its repository exactly when its disk id was |
| `Lifecycle.MigratedProjectHit` | crates/rgit-http/src/handlers/api/projects.rs:55-69 | on a freshly migrated installation both ids of the newest project are given again, so its second deletion takes the new project's repository and row |
| `Lifecycle.LateWithdrawalRemovesNewProject` | crates/rgit-http/src/handlers/api/projects.rs:293-300 | from every quiet state a run in which a create withdraws after its project was deleted and its row id given again: it removes the new project's row, whose repository stays |
| `Lifecycle.BlockedRestoreLosesProject` | crates/rgit-http/src/handlers/api/projects.rs:424-447 | from every quiet state with the largest disk id migrated a run in which no request is abandoned and every possible rename happens, and which ends at rest with a deleted project's repository at a new project's path |
| `Lifecycle.AbandonedDeleteStrands` | crates/rgit-http/src/handlers/api/projects.rs:407-434 | a deletion abandoned after its first rename leaves a live project without its repository, stranded unless a withdrawing create still answers for it |
| `Lifecycle.UndoRename` | crates/rgit-http/src/handlers/api/projects.rs:436-447 | undoing the last rename restores the directories before it |
| `Lifecycle.Storage.RestoreSoftDeleted` | crates/rgit-http/src/handlers/api/projects.rs:436-447 | the reverse loop computes the undo of all renames |
| `Lifecycle.Storage.Delete` | crates/rgit-http/src/handlers/api/projects.rs:396-434 | it succeeds exactly when the project exists, each of its directories can be renamed aside and the statement succeeds, and then removes the row and renames whichever directories exist aside, contents kept; a failed one leaves rows and directories exactly as they were (when the renames back succeed) |
| `Ownership.StatementKeepsAdmin` | crates/rgit-core/migrations/0003_protect_ownership_invariants.sql:4-28 | no statement takes away the last active administrator |
| `Ownership.StatementKeepsOwner` | crates/rgit-core/migrations/0003_protect_ownership_invariants.sql:30-56 | no statement, cascades included, leaves a group that had an owner without one |
| `Ownership.StatementKeepsWellFormed` | crates/rgit-core/migrations/0005_membership_constraints.sql:4-34 | foreign keys hold and memberships are of groups at legal levels after every statement |
| `Ownership.UsersAfter` | crates/rgit-http/src/handlers/api/admin.rs:154-193 | each account after every statement: created active, deleted, with the flags an update gave, or as it was |
| `Ownership.NamespacesAfter` | crates/rgit-core/migrations/0001_init.sql:26-35 | each namespace after every statement: only creations bring one and only the deletion of it or of its owner takes it |
| `Ownership.MembersAfter` | crates/rgit-core/migrations/0003_protect_ownership_invariants.sql:30-56 | each membership after every statement: set by its own upsert or as the owner of a new group, taken by its own deletion or with its user or namespace, or as it was |
| `Ownership.WritesWereChecked` | crates/rgit-http/src/handlers/api/groups.rs:248-337 | every write of a run was decided by an earlier check of the same request, is the write that request asks for, and has its whole effect or none |
| `Ownership.RequestsAskForWrites` | crates/rgit-http/src/handlers/api/groups.rs:248-362 | what passes a check is the write that was asked for, and group writes pass for administrators, owners of the group and members removing themselves only |
| `Ownership.OwnersRunGroups` | crates/rgit-http/src/handlers/api/groups.rs:248-362 | adding, removing and group deletion answer NotAllowed exactly when the caller is neither administrator nor has level 50 in the group (nor removes their own membership) |
| `Ownership.RunKeepsActiveAdmin` | crates/rgit-http/src/handlers/api/admin.rs:141-193 | however checks and writes of handlers interleave, an active administrator remains |
| `Ownership.RunKeepsGroupOwner` | crates/rgit-http/src/handlers/api/groups.rs:248-337 | a group that has an owner at some point is at every later point gone or still owned |
| `Ownership.FromEmptyEveryGroupIsOwned` | crates/rgit-http/src/handlers/api/groups.rs:113-152 | from an empty database every group always has an owner that is a user, and every membership is legal |
| `Ownership.UpdateUserAgrees` | crates/rgit-http/src/handlers/api/admin.rs:141-153 | the handler's count refuses exactly the updates the last-admin trigger would abort |
| `Ownership.AddMemberAgrees` | crates/rgit-http/src/handlers/api/groups.rs:261-299 | the handler's count refuses exactly the changes the last-owner trigger would abort; what passes fails only for an unknown user |
| `Ownership.RemoveMemberAgrees` | crates/rgit-http/src/handlers/api/groups.rs:313-337 | the same for removals |
| `Ownership.DeleteGroupAgrees` | crates/rgit-http/src/handlers/api/groups.rs:339-362 | the project count refuses exactly what the foreign key would |
| `Ownership.DeleteUserAgrees` | crates/rgit-http/src/handlers/api/admin.rs:198-248 | a deletion that passes the checks is never aborted; the sole-owner conflict agrees with the trigger when memberships cascade first, and otherwise exactly unless every such group is the user's own namespace |
| `Ownership.OwnGroupConflict` | crates/rgit-git/src/autocreate.rs:94-123 | a group created by a push shows the difference between the two cascade orders |
| `Ownership.Database.CascadeMembers` | crates/rgit-core/migrations/0003_protect_ownership_invariants.sql:44-56 | row-by-row removal of a user's memberships succeeds exactly when the trigger refuses no row |
| `Ownership.Database.CascadeNamespaces` | crates/rgit-core/migrations/0001_init.sql:26-35 | row-by-row removal of a user's namespaces takes their memberships along and reports remaining projects |
| `Ownership.Database.DeleteUser` | crates/rgit-http/src/handlers/api/admin.rs:238-247 | the statement run row by row in either cascade order, with rollback, does what the set-based statement says |
| `Ownership.Database.HandleUpdateUser` | crates/rgit-http/src/handlers/api/admin.rs:117-193 | the handler alone, without evaluating the trigger, refuses as checked and otherwise leaves exactly the statement's result |
| `Ownership.Database.HandleAddMember` | crates/rgit-http/src/handlers/api/groups.rs:248-299 | the handler alone refuses as checked and otherwise leaves exactly the statement's result; it answers NotAllowed exactly when the group exists and the caller is neither administrator nor an owner of it, and an unknown user is the only failure left |
| `Ownership.Database.HandleRemoveMember` | crates/rgit-http/src/handlers/api/groups.rs:301-337 | the same for removing a group member, which members may also do to themselves; not found exactly when there was no row |
| `Ownership.Database.HandleDeleteGroup` | crates/rgit-http/src/handlers/api/groups.rs:339-362 | the same for deleting a group, which is left to administrators and owners |
| `Ownership.Database.HandleDeleteUser` | crates/rgit-http/src/handlers/api/admin.rs:198-248 | the same for deleting a user, cascades included |
| `Operations.StepKeepsInv` | crates/rgit-core/src/state.rs:38-67 | each step keeps the counter equal to the live guards, the slots conserved and no wake-up lost |
| `Operations.RunKeepsInv` | crates/rgit-core/src/state.rs:38-67 | in every interleaving of begins, two-step drops, waiters and Git operations, a sleeper with no newer broadcast implies a live guard or a dropper about to notify |
| `Operations.ReturnMeansIdle` | crates/rgit-core/src/state.rs:58-66 | whatever the step by which a waiter returns, no guard is alive at that moment |
| `Operations.SlotsBoundGitOperations` | crates/rgit-core/src/state.rs:100-112 | running Git operations never exceed the slots, and a waiting one can proceed exactly when a slot is free |
| `Operations.SlotsAreHandedOn` | crates/rgit-core/src/state.rs:100-112 | an operation gives its slot back once its guard is gone and not before, and then a waiting one can have it |
| `Operations.WaitersMove` | crates/rgit-core/src/state.rs:58-66 | a waiter registers before it reads the counter, returns by reading zero only, and reads it again after every wake-up |
| `Operations.DrainStepDescends` | crates/rgit-core/src/state.rs:58-66 | each remaining step brings a waiter strictly closer to returning |
| `Operations.DrainNeverStuck` | crates/rgit-core/src/state.rs:58-66 | a waiter that has not returned always has a step left |
| `Operations.ShutdownTerminates` | crates/rgit-core/src/state.rs:58-66 | without new operations waiting returns after a bounded number of steps in any order |
| `Operations.OperationTracker.Begin` | crates/rgit-core/src/state.rs:47-52 | beginning is the machine's begin step |
| `Operations.OperationTracker.Drop` | crates/rgit-core/src/state.rs:39-43 | dropping is the machine's decrement step followed, from one, by its notify step |
| `Throttle.StreakCountsFailures` | crates/rgit-http/src/handlers/api/session.rs:52-72 | the recursive streak is the longest unbroken run of failures ending the history |
| `Throttle.ThrottleKeysDistinct` | crates/rgit-http/src/handlers/api/session.rs:30-32 | login keys coincide only for the same address and the same login up to ASCII case, and never with an address key |
| `Throttle.LowerIsAscii` | crates/rgit-http/src/handlers/api/session.rs:30-32 | exactly the 26 capital letters of a login are changed |
| `Throttle.FailureMap.CheckLockout` | crates/rgit-http/src/handlers/api/session.rs:34-50 | locked exactly when the current streak has reached the maximum and its last failure is less than one lockout old |
| `Throttle.FailureMap.RecordFailure` | crates/rgit-http/src/handlers/api/session.rs:52-72 | counts the failure, evicting one entry only when the map is full of other keys, and never exceeds 10,000 keys |
| `Throttle.FailureMap.ClearFailures` | crates/rgit-http/src/handlers/api/session.rs:74-82 | ends the key's streak and nothing else |
| `Throttle.FailureMap.Login` | crates/rgit-http/src/handlers/api/session.rs:119-156 | a serial login is limited exactly when the login key has reached the limit or the address five times as many (at most 4,294,967,295), counts or clears both keys otherwise, and never pushes a login key past its limit |
| `Throttle.ConcurrentLoginsBounded` | crates/rgit-http/src/handlers/api/session.rs:119-156 | however logins interleave, with at most n in flight for a login key its count stays within the limit plus n - 1 |
| `Throttle.BoundIsReached` | crates/rgit-http/src/handlers/api/session.rs:34-72 | a run reaches that bound for every limit and n |
| `Throttle.MapStaysSmall` | crates/rgit-http/src/handlers/api/session.rs:52-72 | however logins interleave, the map never holds more than 10,000 keys, and gives one up for another only when it holds that many |
| `SshKey.BitsAreBitLength` | crates/rgit-core/src/auth/sshkey.rs:163-169 | the computed bit count of a validated mpint is the bit length of the number it denotes |
| `SshKey.MpintUnique` | crates/rgit-core/src/auth/sshkey.rs:152-161 | two validated mpints denote the same number only if equal byte for byte (section 5 of RFC 4251) |
| `SshKey.MpintExists` | crates/rgit-core/src/auth/sshkey.rs:152-161 | every positive number has a validated mpint, and zero has none |
| `SshKey.SerializeInjective` | crates/rgit-core/src/auth/sshkey.rs:130-150 | a sequence of length-prefixed fields can be read off its serialization unambiguously |
| `SshKey.Reader.ReadField` | crates/rgit-core/src/auth/sshkey.rs:130-150 | the cursor stays in bounds and reads exactly the field at the head of the input, or reports truncation |
| `SshKey.Reader.ValidateEcdsa` | crates/rgit-core/src/auth/sshkey.rs:106-123 | succeeds exactly when curve name and uncompressed point of the right length follow |
| `SshKey.Reader.ValidateKeyBlob` | crates/rgit-core/src/auth/sshkey.rs:65-104 | succeeds exactly when the fields of such a key follow, and consumes them |
| `SshKey.AcceptsMeansParses` | crates/rgit-core/src/auth/sshkey.rs:37-50 | being the serialization of a valid key is the same as parsing field by field with nothing left |
| `SshKey.CheckBlob` | crates/rgit-core/src/auth/sshkey.rs:37-50 | accepts a blob exactly when it is the serialization of the algorithm name and valid fields |
| `SshKey.KeyIsUnique` | crates/rgit-core/src/auth/sshkey.rs:65-104 | the fields of an accepted blob are determined by it |
| `SshKey.AcceptedRsaIsStrong` | crates/rgit-core/src/auth/sshkey.rs:70-82 | an accepted RSA key has a modulus of at least 2^2047 and a positive exponent below 2^64 |
| `SshKey.AcceptedEd25519` | crates/rgit-core/src/auth/sshkey.rs:65-69 | the accepted Ed25519 blobs are exactly those of 51 bytes: length 11, the name, length 32, any 32 bytes |
| `SshKey.PlainKeyFields` | crates/rgit-core/src/auth/sshkey.rs:65-82 | the fields of Ed25519 and RSA keys, with their lengths |
| `SshKey.Nistp256` | crates/rgit-core/src/auth/sshkey.rs:83-123 | a P-256 key is its curve name and an uncompressed point of 65 bytes |
| `SshKey.Nistp384` | crates/rgit-core/src/auth/sshkey.rs:83-123 | a P-384 key is its curve name and an uncompressed point of 97 bytes |
| `SshKey.Nistp521` | crates/rgit-core/src/auth/sshkey.rs:83-123 | a P-521 key is its curve name and an uncompressed point of 133 bytes |
| `SshKey.HardwareKeyFields` | crates/rgit-core/src/auth/sshkey.rs:86-104 | the fields of the two hardware-backed kinds, each with a non-empty application |
| `SshKey.NoOtherKeys` | crates/rgit-core/src/auth/sshkey.rs:65-104 | no other algorithm is accepted |
| `SshKey.ParsePublicKey` | crates/rgit-core/src/auth/sshkey.rs:23-63 | the parser computes the specified key of a line, or none |
| `SshKey.KeyLineRoundTrip` | crates/rgit-core/src/auth/sshkey.rs:23-63 | a line built from valid fields and any comment words is parsed back to them |
| `SshKey.NormalizedIsFixed` | crates/rgit-core/src/auth/sshkey.rs:52-62 | the normalized line parses to itself with the same fingerprint |
| `ShellCommand.EverySpellingParses` | crates/rgit-ssh/src/shell.rs:49-146 | every spelling (dashed or not, bare or quoted, slash, suffix, any whitespace) parses to its command |
| `ShellCommand.ValidNamesParse` | crates/rgit-core/src/path.rs:17-36 | names the server accepts elsewhere can be written in every spelling |
| `ShellCommand.SegmentRules` | crates/rgit-core/src/path.rs:17-36 | the names the server accepts: 1 to 255 letters, digits, underscores, dots and dashes, a letter or digit first, and none of three endings |
| `ShellCommand.AcceptedIsSpelled` | crates/rgit-ssh/src/shell.rs:49-146 | whatever is accepted is a spelling of the command it is accepted as |
| `ShellCommand.AcceptedExactlySpellings` | crates/rgit-ssh/src/shell.rs:49-146 | a raw string is accepted as a command if and only if it spells that command |
| `ShellCommand.CanonicalReparses` | crates/rgit-ssh/src/shell.rs:49-100 | printing an accepted command in canonical form parses to the same command, whose names are non-empty, slash-free and control-free |
| `GitOutput.ParseCommits` | crates/rgit-git/src/read.rs:224-243 | the chunk loop returns the commits of the complete groups of six pieces |
| `GitOutput.LogRoundTrip` | crates/rgit-git/src/read.rs:150-243 | every log of NUL-free records, separated or terminated, is read back record by record |
| `GitOutput.CommitsRoundTrip` | crates/rgit-git/src/read.rs:224-243 | every list of commits without NULs or stray whitespace survives printing and parsing |
| `GitOutput.ListTree` | crates/rgit-git/src/read.rs:76-107 | the result is a permutation of the readable entries, directories first, names ascending |
| `GitOutput.LexDecides` | crates/rgit-git/src/read.rs:101-105 | names are ordered by their first difference, a prefix first |
| `GitOutput.NumbersAreRead` | crates/rgit-git/src/read.rs:97 | a size is read from its digits, with or without a sign, exactly when it fits in 64 bits |
| `GitOutput.EntryRoundTrip` | crates/rgit-git/src/read.rs:77-99 | a printed entry is read back as itself, tabs in its name included |
| `GitOutput.DirectoryRoundTrip` | crates/rgit-git/src/read.rs:76-107 | for every directory the listing of what git prints is an ordered permutation of its entries |
| `Backup.ChunksConcat` | scripts/rgit-backup.sh:158-175 | the chunks concatenate to the file |
| `Backup.ChunkCount` | scripts/rgit-backup.sh:206 | the number of chunks written is the ceiling stated in the marker |
| `Backup.MarkerFields` | scripts/rgit-restore.sh:49-52 | each field the backup writes is the one the restore reads |
| `Backup.MarkerLines` | scripts/rgit-backup.sh:208-214 | the marker, line by line, with the number of chunks written |
| `Backup.Mirror.SplitFile` | scripts/rgit-backup.sh:158-175 | the chunk writer writes exactly the chunks, numbered from zero |
| `Backup.Mirror.SplitLargeFiles` | scripts/rgit-backup.sh:193-219 | the loop over the walk does what its specification says for any order of paths, and adds exactly the paths it splits to the exclude file |
| `Backup.Mirror.BackUp` | scripts/rgit-backup.sh:221-231 | one run: the tree is mirrored and split, and what git add stages of it is committed, given the exclude file and commit of the runs before |
| `Backup.Mirror.AppendChunks` | scripts/rgit-restore.sh:56-65 | the counted loop appends and removes the chunks in order, or stops at a missing one |
| `Backup.Mirror.AppendLegacyChunks` | scripts/rgit-restore.sh:66-76 | the uncounted loop appends as many chunks as follow one another |
| `Backup.Mirror.RestoreMarker` | scripts/rgit-restore.sh:47-85 | one marker is restored, or the script stops on a missing chunk, size or checksum mismatch |
| `Backup.Mirror.RestoreSplitFiles` | scripts/rgit-restore.sh:46-86 | the loop over markers in any order, stopping at the first failure |
| `Backup.LargePiece` | scripts/rgit-backup.sh:193-204 | the walk takes a chunk for a large file exactly when it is above the threshold, its number has three digits or more and it is not below a .git directory |
| `Backup.LargeMeans` | scripts/rgit-backup.sh:193-204 | the walk takes exactly the files above the threshold that are neither named .gitignore, nor below a .git directory, nor named like a marker, nor end in a dot and one or two digits |
| `Backup.SplitAllMixes` | scripts/rgit-backup.sh:193-219 | whatever the walk reports, also files created meanwhile, only original files of a restorable tree are split |
| `Backup.NothingLargeRemains` | scripts/rgit-backup.sh:193-219 | when the walk reports every original of a restorable tree, no splittable file above the threshold remains |
| `Backup.BackupThenRestore` | scripts/rgit-restore.sh:46-86 | splitting and putting together is the identity on every restorable file tree, for every order of both walks |
| `Backup.MarkerIsRemoved` | scripts/rgit-restore.sh:46-86 | a file named like a marker, of which no marker exists, does not survive a restore walk that reports it |
| `BackupRuns.MarkerNamedFileIsLost` | scripts/rgit-restore.sh:46-86 | with an original named like a marker no commit gives the tree back, whatever the two walks report |
| `BackupRuns.ClashingNameIsLost` | scripts/rgit-restore.sh:56-65 | an original named like any chunk of a large file is lost in some order of the two walks, over both whole loops |
| `BackupRuns.LargePieceIsMissed` | scripts/rgit-backup.sh:193-204 | a chunk the walk takes for a large file is split again in some order of the walks, and the restore then fails |
| `BackupRuns.RestorableExactly` | scripts/rgit-restore.sh:46-86 | where git passes nothing over, all orders of both walks give a tree back if and only if nothing is below a .git directory, no original is named like a marker or like a chunk of a large file, and chunks are at most the threshold or every large file fits in 100 chunks and a threshold |
| `BackupRuns.WalkIrrelevant` | scripts/rgit-backup.sh:193-219 | every walk that reports all files of a restorable tree leaves the same mirror and excludes exactly the large files |
| `BackupRuns.BackupExactly` | scripts/rgit-backup.sh:176-231 | for every tree and every exclude file and commit left by earlier runs, restoring what the run commits gives the tree back for all orders of both walks if and only if the tree is restorable and every file of its mirror is tracked already or not passed over by git add, and not below a .git directory |
| `BackupRuns.SplitNeverCommitted` | scripts/rgit-backup.sh:176-231 | once a path was split, nothing at that path or below is committed by any later run |
| `BackupRuns.HistoryExactly` | scripts/rgit-backup.sh:176-231 | over every sequence of trees, restoring backup k gives tree k for all orders of both walks if and only if the tree is restorable and no file of its mirror is, or is below, a path that an earlier run split |
| `BackupRuns.ShrinkingFileIsLost` | scripts/rgit-backup.sh:176-231 | a file large at one backup and small at the next: the first gives it back, restoring the second succeeds without it |
| `Members.NoEscalation` | crates/rgit-http/src/handlers/api/members.rs:82-118 | in every interleaving of the reads and writes of non-administrators no user's level on a project exceeds the largest level present at the start |
| `Members.SerialSparesHigherRows` | crates/rgit-http/src/handlers/api/members.rs:97-151 | a write executed in the state it was checked in changes no row above its caller's level |
| `Members.WhoMayEdit` | crates/rgit-http/src/handlers/api/members.rs:76-151 | a member edit passes exactly for administrators, for members removing themselves, and for callers of level 40 or more that reach the row and the level to be given, when that level is one of the five |
| `Members.HigherRowExactly` | crates/rgit-http/src/handlers/api/members.rs:82-151 | in every interleaved run, with level, row and write as separate statements, a write changes a row above the level its caller had when that was read if and only if the last write to the row since the row was read put it above that level, the very same write aside |
| `Members.RaisedRowRemoved` | crates/rgit-http/src/handlers/api/members.rs:128-151 | that does happen: a concrete run from legal tables |
| `Members.Memberships.AddMember` | crates/rgit-http/src/handlers/api/members.rs:76-120 | the handler, alone: its refusals and exactly the one row it sets |
| `Members.Memberships.RemoveMember` | crates/rgit-http/src/handlers/api/members.rs:123-156 | the handler, alone: its refusals and exactly the one row it removes |
| `ProjectList.FilterIsAuthorize` | crates/rgit-http/src/handlers/api/projects.rs:153-176 | the list's filter selects exactly the projects the authorizer lets the caller read |
| `ProjectList.AnonymousFilter` | crates/rgit-http/src/handlers/api/projects.rs:153-157 | for an anonymous caller they agree exactly when the project is public or no row names user -1 |
| `ProjectList.ListingExists` | crates/rgit-http/src/handlers/api/projects.rs:190-212 | every table has an ordered result |
| `ProjectList.ListingUnique` | crates/rgit-http/src/handlers/api/projects.rs:190-212 | the ordered result is determined, so separately fetched pages are cut from one list |
| `ProjectList.LatestFirst` | crates/rgit-http/src/handlers/api/projects.rs:199 | the latest update comes first, and among equally late ones the larger id |
| `ProjectList.TotalAndContents` | crates/rgit-http/src/handlers/api/projects.rs:165-189 | the total is the length of the list, and the list holds exactly the readable projects that match |
| `ProjectList.PagesConcatenate` | crates/rgit-http/src/handlers/api/mod.rs:65-78 | the first n pages concatenate to the head of the list, for every requested page size |
| `ProjectList.PageShows` | crates/rgit-http/src/handlers/api/mod.rs:60-78 | row i of page n of size s is row (n - 1) s + i of the list; a page has twenty rows by default |
| `ProjectList.OddSizes` | crates/rgit-http/src/handlers/api/mod.rs:72-74 | a size above 100 counts as 100 and a size of 0 as 1 |
| `ProjectList.AllPages` | crates/rgit-http/src/handlers/api/mod.rs:65-78 | enough pages give the whole list, and page 0 is page 1 |

## Left out

- HTTP routing, headers, JSON rendering, the web interface, deployment scripts: no state that the properties above need.
- Git subprocesses, streaming bodies, timeouts and compression: only their success or failure is a step outcome.
- The LFS `verify` and batch-download endpoints: they read a row and report it.
- Sessions, tokens, scopes, password hashing, configuration, logging: one-branch facts.
- Reading PostgreSQL, copying repositories, post-migration verification: input and output around the modelled transformation.
- Power failure and the real error codes of the file system: not covered by the program's own guarantees; a failing call is a step outcome.
- `remove_dir_all` either removes a directory or leaves it whole: a partial removal would only leave a fragment at a path no row uses, or belong to a create that withdraws its own row.
- `init_bare` and `fork_local` test for the directory and create it in one step: a directory could appear in between only by a deletion's restore of the same disk id, which cannot be in flight once the table is ahead.
- Lifecycle.SafeExactly: an id for a new row must be left; with all of SQLite's row ids in use nothing can be created.
- Lifecycle.Row: `home` and the state's `stranded`, `born` and `clock` are history for the statements; no step of the program reads them.
- Lifecycle.ProjectsKeepTheirRepositories: the repository directory of a project; wiki and design directories are renamed along but nothing is stated of their identity.
- Transfer, rename, archive and settings updates of projects: they change no directory, disk id or membership.
- Throttle.FailureMap.RecordFailure: does not model overflow of the 32-bit failure count, which takes four billion failures within one lockout each.
- Throttle.FailureMap.Login: logins run to completion one after another; concurrent ones are in the step machine of `Throttle.ConcurrentLoginsBounded`.
- LfsStore.Server.ReceiveBody: does not model overflow of the 64-bit byte count of one body.
- Operations.OperationTracker.Drop: the counter is unbounded, and the two steps of a drop run one after the other; their interleaving is in the step machine.
- Lifecycle.Storage.Delete: one deletion on its own; interleavings are in the step machine.
- BackupRuns.BackupExactly: which untracked paths `git add` passes over is a parameter (entries with glob characters and `.gitignore` files included); a push or commit that fails, an embedded repository that swallows tracked files, and a work tree replaced between runs are not modelled. Nothing below a `.git` directory is ever in a commit, so the restore's own exemption of such paths has nothing to exempt.
- BackupRuns.HistoryExactly: names are free of glob characters and trees of git's own files, and the earlier trees of the sequence are restorable; after any other runs `BackupRuns.BackupExactly` applies.
- Backup.BackupThenRestore: paths contain no newline and no trailing blank, because the shell reads them line by line; directories, links, permissions and the empty-directory manifest are not modelled.
- Backup.RestoreOne: a chunk count is digits or nothing, as the backup writes it; the shell would also read a signed number.
- GitOutput.ListTree: text is already decoded; undecodable bytes are replaced before parsing. Latest-commit annotations are not modelled.
- Materialize.Target.WriteMemberships: users, namespaces, projects, forks, keys and LFS rows of the migration carry no inherited access and are only parameters.
- ProjectList.TotalAndContents: search, namespace and visibility filters are one arbitrary predicate on rows, and timestamps are numbers.
- The standard library's stable sort is a stable insertion sort (`Prelude.Sort`): same order and same permutation.
- Error messages: refusals that the program distinguishes only by their text are one error.
