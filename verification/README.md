# configfs, verified

configfs is a server that keeps small configuration files in a SQLite database and a client that
mounts them as a file system. This project is a Dafny model of its core and a proof of what that core
keeps: the store (`internal/store/sqlite/store.go`), the access-gated service over it
(`internal/api/server.go`), the access rule (`internal/proto/extra.go`) and the client's snapshot
(`internal/fs/fs.go`).

`dafny verify dfyconfig.toml` checks the whole project.

## How the model is laid out

The database is one value, `Tables.Tables`: the config, config_content and directory tables as maps by
id, the two ACL tables as sequences in row order, and the largest inode handed out. `StoreSpec` says for
each transaction which tables it commits, or `None` when it rolls back; `SqliteStore.Store` is the store
itself, a class whose fields are the tables and whose methods run the statements and loops one by one.
Each method is proved against the function of `StoreSpec`, so what is proved about runs of those
functions (`StoreSpec.Run`) holds of the store.

| Modules | What they hold |
|---|---|
| Paths, SqlLike | splitting, trimming, joining, sorting and searching of path strings; SQLite's LIKE |
| Messages, Tables, StoreSpec | messages and the access rule; rows, the invariant; the transactions |
| StoreInvariant, Versions, RoundTrip, Deletion | what every transaction keeps; versions as a log; reading back what was written; deleting directories |
| Access, Queries, Readable, AccessRule | the recursive READ rule, the chain query that decides it, the bulk fold that decides it; the rule spelled out |
| Tree, TreeShape, TreeQuery, Listing | building a listing, and what is in it |
| Ensuring, SqliteStore | the loop that creates missing directories; the store class |
| Handlers, Server, Answers, Protection | the handlers as programs of store calls, as methods, what they answer, and what they protect |
| Interleaving, StaleGates | what every interleaving keeps; what is left of authorisation under it |
| ClientIndex, ClientLookup, FileWrite, ClientFs | the snapshot's maps, what lookups find in them, chunked writes, the snapshot class |
| Migration | opening a database of any age |
| Counterexamples | reachable states in which the code departs from its documentation |

The main results, hardest first:

- **A listing of one directory is that part of the whole listing** (`Listing.FilterPushdown`), although
  its configs pass a LIKE prefilter, a second check in Go, and a search of the finished tree.
- **A listing is exact and agrees with single reads** (`Listing.TreeIsExact`, `Listing.ListAgreesWithGet`):
  the bulk fold over all directories and the per-path chain query decide one recursive rule
  (`Readable.ReadableDirectories`, `TreeQuery.OpenIsTraversable`, `Access.ChainDecidesRule`).
- **The invariant holds in every reachable state and under every interleaving of handlers**
  (`StoreInvariant.ReachableInv`, `Interleaving.InterleavingsAreSafe`): the two encodings of the directory
  tree agree, every config has a place, every current version exists and is its config's newest.
- **Creating directories is all or nothing over every pair of strings, and exact**
  (`SqliteStore.Store.CreateDirectory`, `StoreInvariant.EnsuredExactly`).
- **Versions are an append-only log, and permanent** (`Versions.VersionLogRefinement`,
  `Versions.VersionPermanence`).
- **Write protection over whole runs** (`Protection.RunProtected`, `Protection.RunProtectsDirectories`), and
  exactly when the gate of CreateDirectory is enough (`Protection.GateSufficesIff`); under every interleaving,
  each change was let through by gates that held on the way (`StaleGates.EveryChangeWasLetThrough`).
- **Handlers do what they answer**, and every answer has its exact condition in terms of entries, tags and
  what reads answer (`Answers.OkIffCommitted`, `Answers.SetConfigAnswers`, `AccessRule.CanGetConfigIff`,
  `Messages.GrantsIff`).
- **Migration can be stopped anywhere and started again** (`Migration.MigrationRestartable`).
- **The client's index is the tree** (`ClientIndex.IndexedIffReached`, `ClientIndex.RemoveResolves`), and
  **chunked writes compose** (`FileWrite.ChunksCompose`).

## Where the code and its comments disagree

The model follows the code.

- `DirectoryChain` is documented to return the path components that do not exist
  (internal/store/sqlite/store.go:1014). It reports at most the path it was asked for
  (internal/store/sqlite/store.go:551-556). `Ensuring.ChainReportsMissing` says exactly when that is the
  documented list and `Counterexamples.ChainOmitsParent` gives a path for which it is not. That the READ
  gate is right all the same is a consequence of the tree invariant, `Access.ChainDecidesRule`.
- `DeleteDirectory` is documented to refuse directories that hold something
  (internal/store/sqlite/store.go:1114-1116). It also refuses some empty ones, since LIKE reads `_` and `%`
  in the directory's own name as wildcards and ignores the case of ASCII letters. `Deletion.DeletesIff` and
  `Deletion.PlainPathDeletesIff` give the exact condition, `Deletion.EmptyDirectoryRefused` an instance.
- Unrecognised ACL entries are dropped on insert because they "grant nothing"
  (internal/store/sqlite/store.go:756-757). For a directory whose whole list is dropped this changes what
  is granted, since no entries means transparent. `Messages.DirectoryGrantsSurviveStorage` says exactly
  when, `Counterexamples.CreatedOpen` shows a request.
- The gate of `CreateDirectory` is documented to look at the deepest existing ancestor
  (internal/api/server.go:351-353). It looks at that of the parent path. The two differ exactly when a
  directory already exists at the parent path followed by the first part of the name, which takes a name
  with a slash. `Protection.GateSufficesIff` gives the exact condition under which the gate is enough,
  `Counterexamples.SlashedNamePassesGate` an input for which it is not.
- `content_size` is described as the size of the content (internal/store/sqlite/store.go:52). It is
  whatever the client sent. The mount, the provider and the migration all set it to the length
  (internal/fs/fs.go:542-544, internal/fs/fs.go:636, cmd/pulumi/main.go:395), but nothing in the service
  insists on it.
  `Versions.SizesStayLengths` says exactly when sizes stay lengths, `Counterexamples.SizeIsNotLength` gives
  a state in which one is not.
- A config whose stored path is empty is shown at the root next to one stored at "/", but the client can
  remove only the latter there (internal/fs/fs.go:515-522). `ClientIndex.RootRemoveResolves` says exactly
  which, `Counterexamples.RootConfigMissed` gives a state with one that is missed.

## Model

| member | source | states |
|---|---|---|
| Messages.ConfigGrantsSurviveStorage | internal/proto/extra.go:62-77 | Dropping unrecognised entries never changes what a config grants to any caller at any level |
| Messages.DirectoryGrantsSurviveStorage | internal/store/sqlite/store.go:755-760 | For a directory it changes what is granted exactly when a non-empty list has no recognised entry, and then what was closed to everyone is open to everyone |
| Messages.WriteImpliesRead | internal/proto/extra.go:45-56 | Whoever holds WRITE holds READ, on configs and directories alike |
| Messages.GrantsIff | internal/proto/extra.go:47-77 | READ takes an entry of level READ or WRITE, WRITE one of level WRITE, and the entry must be for everyone or carry a non-empty tag the caller has; no other level is ever granted |
| Messages.TagOpens | internal/proto/extra.go:69-74 | A caller who carries an entry's tag is granted what the entry gives |
| Messages.StrangerRefused | internal/proto/extra.go:62-77 | A caller whom no entry names and none for everyone admits is granted nothing |
| Messages.DirectoryGrantsIff | internal/proto/extra.go:99-118 | A directory without entries grants everything, one with entries what a config with them grants |
| Messages.RecognisedMembers | internal/store/sqlite/store.go:752-772 | The persisted entries are exactly those at level READ or WRITE |
| Messages.RecognisedConcat | internal/store/sqlite/store.go:755-767 | Recognised entries keep their order and number |
| Paths.CleanPathParts | internal/store/sqlite/store.go:586-595 | The loop over the split path gives its non-empty trimmed parts in order |
| Paths.TrimSpaceCuts | internal/store/sqlite/store.go:588-589 | Trimming cuts white space off both ends and nothing else |
| Paths.PaddingTrimmed | internal/store/sqlite/store.go:1031 | White space around a name, by the code points of Unicode, makes no difference |
| Paths.JoinSplit | internal/store/sqlite/store.go:586-599 | Joining the split parts gives the string back |
| Paths.SplitJoin | internal/store/sqlite/store.go:586-599 | Splitting joined slash-free parts gives the parts back |
| Paths.CanonicalRoundTrip | internal/store/sqlite/store.go:586-599 | A path is canonical exactly when splitting, trimming and joining give it back, for every string |
| Paths.PartsOfFull | internal/store/sqlite/store.go:596-599 | A path joined from components is canonical and splits into those components |
| Paths.FullOfInjective | internal/store/sqlite/store.go:596-599 | Two component lists name the same path only when they are equal |
| Paths.PartsOfChild | internal/store/sqlite/store.go:1039-1048 | The parts of a composed path are the parent's parts followed by the name's, whatever slashes or spaces either holds |
| Paths.CanonicalChild | internal/store/sqlite/store.go:1039-1048 | A proper component under a canonical path gives a canonical path with one more part |
| Paths.LastSlashOfFull | internal/store/sqlite/store.go:610-615 | Cutting a joined path at its last slash gives back its last component and the path of the others |
| Paths.PrefixPathsSorted | internal/store/sqlite/store.go:608 | Lexicographic order puts every prefix of a path before its extensions, so no child is created before its parent |
| Paths.SortedUnique | internal/store/sqlite/store.go:608 | Sorting has one result, so the order in which the missing paths arrive does not matter |
| Paths.LastNameUnique | internal/fs/fs.go:515-522 | A slash-free last name determines how a full path divides into directory and name |
| SqlLike.LikePrefix | internal/store/sqlite/store.go:341-348 | A pattern made of a literal prefix and % matches every string with that prefix, even when the prefix itself holds % or _ |
| SqlLike.LikeBeneath | internal/store/sqlite/store.go:1144-1146 | The test for configs beneath a directory never misses one |
| SqlLike.LikeExactly | internal/store/sqlite/store.go:1144-1146 | For a prefix without % the pattern matches exactly the strings that begin like it, up to ASCII case and with _ for any character |
| SqlLike.LikePercent | internal/store/sqlite/store.go:341-348 | A leading % matches exactly when the rest of the pattern matches some suffix |
| SqlLike.FoldsIff | internal/store/sqlite/store.go:1144-1146 | Two characters match when they are equal or the two cases of one ASCII letter, and only then |
| SqlLike.LikeOverMatches | internal/store/sqlite/store.go:1144-1146 | It does match paths that are not beneath the directory |
| Tables.LoadInserted | internal/store/sqlite/store.go:752-779 | What is inserted for an owner is loaded back as its recognised entries in order, and for no other owner |
| Tables.LoadReplaced | internal/store/sqlite/store.go:793-800 | Replacing an owner's entries gives it the recognised new ones and leaves every other owner's entries alone |
| Tables.RowPartsOfPath | internal/proto/extra.go:20-28 | A well-placed row's full path is canonical and its parts are its path's parts and its name |
| Tables.RowAtPath | internal/proto/extra.go:20-28 | A directory's full path determines its path and its name |
| Tables.AncestorsExist | internal/store/sqlite/store.go:42-48 | Every ancestor of an existing directory exists |
| Tables.DirectoriesCanonical | internal/store/sqlite/store.go:42-48 | Every directory's full path is canonical and not the root |
| Queries.BuildConstraints | internal/store/sqlite/store.go:499-516 | The collected constraints select exactly the rows at a prefix of some target's parts |
| Queries.LoadACLs | internal/store/sqlite/store.go:717-738 | Entries come back grouped by owner, each group in row order |
| Queries.InsertACLs | internal/store/sqlite/store.go:752-779 | The rows appended are the recognised entries in order |
| Queries.ChainRootFirst | internal/store/sqlite/store.go:1012-1023 | The chain of one path is ordered root first: full paths grow strictly |
| Access.OnPathIsPrefix | internal/store/sqlite/store.go:500-516 | A well-placed directory is fetched for a target exactly when its full path is one of the prefixes of the target's parts |
| Access.ChainDecidesRule | internal/api/server.go:125-142 | For every string and every tag list the chain gate holds exactly when the path is the root, or an existing directory that grants READ and so do all above it |
| Access.TraversableAt | internal/api/server.go:125-142 | A directory is open exactly when it grants READ and its parent path is open |
| Access.TraversableByPrefixes | internal/api/server.go:125-142 | A directory is open exactly when every directory at a prefix of its path, itself included, grants READ |
| AccessRule.TraversableIff | internal/api/server.go:125-142 | For every string: a path may be walked exactly when it is the root or a directory and every directory at it or above it, by full path, grants READ |
| AccessRule.CanGetConfigIff | internal/api/server.go:237-266 | A config is answered exactly when its own entries and every directory at or above its path grant READ |
| AccessRule.CanGetDirectoryIff | internal/api/server.go:373-394 | A directory is answered exactly when it and every directory above it grant READ |
| AccessRule.TagDecidesGet | internal/api/server.go:248-250 | A config at the root with one entry for a tag is answered exactly to callers who carry the tag |
| AccessRule.PlaceGrantsIff | internal/api/server.go:307-309 | A place grants WRITE exactly when the directory there, if it has one, does |
| AccessRule.DeepestGrantsIff | internal/api/server.go:182-194 | The gate for new directories is open exactly when the deepest existing directory on the way, if there is one, grants WRITE |
| Readable.SortByDepth | internal/store/sqlite/store.go:467-471 | The sorted list holds the same directories, none before a shallower one |
| Readable.ReadableDirectories | internal/store/sqlite/store.go:466-478 | On any ancestor-closed list the fold gives true for a path exactly when every directory on it grants READ, whatever the order of input and ties |
| Readable.OpenClosed | internal/store/sqlite/store.go:412-420 | The readable directories are closed under taking parents |
| TreeQuery.TableAncestorClosed | internal/store/sqlite/store.go:331-339 | In a valid state the list of all directories is ancestor-closed |
| TreeQuery.OpenIsTraversable | internal/store/sqlite/store.go:466-478 | Over the whole table the bulk rule and the per-path rule give the same answer for every path |
| TreeQuery.IncludeDirectories | internal/store/sqlite/store.go:415-420 | The loop keeps exactly the readable directories, each once |
| TreeQuery.PrefilterMissesNothing | internal/store/sqlite/store.go:341-348 | Whatever passes the exact prefix check passes the LIKE prefilter |
| TreeQuery.ShownAll | internal/store/sqlite/store.go:379-411 | Once every candidate is decided the kept configs are exactly the visible ones in the subtree, each once |
| Tree.PopulateDirectory | internal/store/sqlite/store.go:309-323 | Unless an entry is its own parent, full paths grow strictly, so the recursion ends, and it gives the recursive filling of the directory |
| Tree.DeepensIff | internal/store/sqlite/store.go:316-320 | An entry that is its own parent is one at the root with an empty name, and only that |
| Tree.PopulatedTally | internal/store/sqlite/store.go:309-323 | An item occurs below a directory as often as it was listed exactly when the directory is on the way to the item's home, and otherwise not at all |
| TreeShape.PopulatedShape | internal/store/sqlite/store.go:309-323 | Whatever the order of the lists, the built tree is the same up to the order of siblings |
| TreeShape.SubtreeShape | internal/store/sqlite/store.go:379-383 | Leaving out configs outside a subtree does not change the subtree |
| TreeShape.FindsIffPresent | internal/api/server.go:196-206 | The search finds a directory exactly when its id occurs |
| TreeShape.FoundIsPopulated | internal/api/server.go:196-206 | What it finds is the listed directory with everything that belongs below it |
| Listing.TreeIsExact | internal/store/sqlite/store.go:325-428 | Each readable directory and each visible config occurs exactly once in a caller's tree, and nothing else occurs |
| Listing.TreeIsWellPlaced | internal/store/sqlite/store.go:309-323 | Every entry lies under the directory whose full path its own path names |
| Listing.ListAgreesWithGet | internal/api/server.go:208-266 | A config or directory is in the caller's tree, once, exactly when the caller can get it by id, and otherwise not at all |
| Listing.FilterPushdown | internal/api/server.go:208-235 | Listing with a directory id gives, up to sibling order, the subtree found in the unfiltered tree, each entry at most once, and nothing in both cases when the caller may not read it |
| Ensuring.TargetFetchedIff | internal/store/sqlite/store.go:551-557 | For every string a single target is reported missing exactly when it is no directory's full path |
| Ensuring.ChainReportsMissing | internal/store/sqlite/store.go:551-557 | On every path but the root a chain reports exactly the components that do not exist when the path is canonical and the directory above its last component exists or is the root, and otherwise a different list |
| Counterexamples.ChainOmitsParent | internal/store/sqlite/store.go:1012-1023 | On a fresh store the chain of /x/y reports /x/y alone, though /x is missing too |
| Ensuring.MissingPrefixes | internal/store/sqlite/store.go:596-608 | What is missing is the tail of the prefix list, and sorting leaves it as it is |
| Ensuring.EnsuringStarts | internal/store/sqlite/store.go:596-608 | When the loop starts, the fetched directories are exactly the existing prefixes |
| Ensuring.NextLevel | internal/store/sqlite/store.go:609-630 | Each iteration finds the parent and inserts the next missing prefix under it |
| StoreInvariant.EnsuredExactly | internal/store/sqlite/store.go:578-632 | A commit adds exactly the missing prefixes, each with the recognised supplied entries in order, keeps every existing directory's id, row and entries, and keeps the invariant, right parent_id included |
| StoreInvariant.ChildEncodingsAgree | internal/store/sqlite/store.go:42-48 | A directory is a child by path exactly when it is a child by parent_id |
| StoreInvariant.DeletedWasVacant | internal/store/sqlite/store.go:1134-1151 | A delete that succeeds had no child directory by either encoding and no config at or beneath it |
| StoreInvariant.StepInv | internal/store/sqlite/store.go:33-37 | Every transaction, whatever its arguments, keeps the invariant of the tables |
| StoreInvariant.ReachableInv | internal/store/sqlite/store.go:33-37 | The invariant holds in every state any run of transactions reaches from a fresh database |
| Deletion.DeleteRemovesOnly | internal/store/sqlite/store.go:1117-1166 | A successful delete removes that row and its entries, and nothing else |
| Deletion.DeletesIff | internal/store/sqlite/store.go:1134-1151 | A directory is deleted exactly when it is empty and no config path anywhere matches its own path as a LIKE prefix |
| Deletion.PlainPathDeletesIff | internal/store/sqlite/store.go:1144-1151 | For a path without %, the refusing configs are exactly those under a path that agrees with it up to ASCII case and with _ for any character |
| Deletion.RefusedThoughEmpty | internal/store/sqlite/store.go:1144-1151 | For any names where such a match exists there is a reachable state in which an empty directory is refused |
| Deletion.EmptyDirectoryRefused | internal/store/sqlite/store.go:1144-1151 | Deleting an empty directory does not always succeed |
| Versions.VersionLogRefinement | internal/store/sqlite/store.go:1168-1270 | Over every run, each live config's rows in id order are exactly the contents supplied by its create and its later content-carrying updates, and current_content_id is the last of them |
| Versions.StepRefines | internal/store/sqlite/store.go:1228-1258 | One transaction changes the log as the request and its answer say: an ACL-only update leaves it alone |
| Versions.VersionPermanence | internal/store/sqlite/store.go:939-960 | A version answers with the same bytes and size in every later state in which its config lives; after deletion neither resolves again, and it never resolves through another config |
| Versions.UpsertSize | internal/store/sqlite/store.go:1241-1248 | The version an Upsert writes has its content's length as size exactly when the request's size was its content's length |
| Versions.SizesStayLengths | internal/store/sqlite/store.go:1196-1203 | One transaction keeps every size a length exactly unless it commits content with another size |
| Versions.RunSizes | internal/store/sqlite/store.go:1168-1270 | Over every run of requests whose sizes are lengths, every version's size is its length |
| Counterexamples.SizeIsNotLength | internal/store/sqlite/store.go:1196-1203 | A reachable state with a version of one byte and size 0 |
| RoundTrip.CreateThenGet | internal/store/sqlite/store.go:1168-1214 | A created config reads back as supplied under a fresh id, with a first version and its entries filtered to the recognised ones |
| RoundTrip.UpdateThenGet | internal/store/sqlite/store.go:1216-1270 | An updated config reads back with the supplied entries and, when content was sent, the supplied content and size; everything else but the time of change is as before |
| RoundTrip.CurrentIsDefault | internal/store/sqlite/store.go:926-938 | In a valid state every config has a readable current version, and naming it or no version reads the same |
| RoundTrip.CreateDirectoryThenGet | internal/store/sqlite/store.go:1062-1072 | A created directory reads back under a new id at the composed path, its name the last component, with the recognised entries and no children |
| RoundTrip.UpdateDirectoryThenGet | internal/store/sqlite/store.go:1105-1108 | Replaced entries read back as the recognised ones; name and path stay |
| RoundTrip.UpdatedDirectoryGrants | internal/store/sqlite/store.go:1105-1108 | After an update a directory grants what the supplied entries grant, unless they were all unrecognised; then it grants everything |
| RoundTrip.SameWithoutContent | internal/store/sqlite/store.go:884-961 | A read without content answers what the read with content does, size included, less the bytes, whatever version is named |
| RoundTrip.SizeIsLatest | internal/store/sqlite/store.go:353-355 | The size a config is shown with is that of the last version written |
| RoundTrip.CreateThenSee | internal/store/sqlite/store.go:1360 | A created config answers without its content with everything else as supplied, size included |
| RoundTrip.UpdateThenSee | internal/store/sqlite/store.go:1360 | So does an updated one, with its size as before when no content was sent |
| RoundTrip.UpdateDirectoryCommitsIff | internal/store/sqlite/store.go:1092-1104 | A directory's entries are replaced exactly when it exists and the name and path sent, if any, are those a read answers |
| RoundTrip.SendingBackCommits | internal/store/sqlite/store.go:1099-1104 | Sending back the name and path a read answered always commits |
| RoundTrip.CreateDirectoryCommitsIff | internal/store/sqlite/store.go:1030-1074 | A directory is created exactly when the trimmed name is not empty, splitting, trimming and joining the composed path give it back, and no directory reads back at it |
| RoundTrip.PlaceIff | internal/store/sqlite/store.go:639-651 | A config's directory is the root under either name or one that reads back at the path |
| RoundTrip.UpdateCommitsIff | internal/store/sqlite/store.go:1341-1350 | An Upsert with an id commits exactly when the config reads back with the same name and path |
| RoundTrip.CreateCommitsIff | internal/store/sqlite/store.go:1317-1338 | An Upsert without an id commits exactly when content was sent, the directory exists and no config reads back with the same path and name |
| RoundTrip.DeleteThenGet | internal/store/sqlite/store.go:1272-1309 | A delete always commits; then neither the config nor any version of it is left, and an unknown id deletes nothing |
| Counterexamples.CreatedOpen | internal/store/sqlite/store.go:755-760 | A directory created with one unrecognised entry, which grants nobody anything, is stored open to everybody |
| SqliteStore.Store.constructor | internal/store/sqlite/store.go:112-159 | A fresh database is empty and valid |
| SqliteStore.Store.GetDirectoriesByPathString | internal/store/sqlite/store.go:498-558 | Gives the rows at a prefix of some target, each once, ordered by path and with their entries, and the targets no row has as its full path |
| SqliteStore.Store.DirectoryChain | internal/store/sqlite/store.go:1018-1023 | Gives the rows at the prefixes of one path and the path itself when no row has it as its full path; for the root under either name, nothing found and nothing missing |
| SqliteStore.Store.GetDirectoryByID | internal/store/sqlite/store.go:982-1010 | Fails on a malformed id, finds nothing or the one message with its entries |
| SqliteStore.Store.EnsureDirectories | internal/store/sqlite/store.go:584-632 | Ends in the tables with all prefixes ensured, and returns messages covering all of them |
| SqliteStore.Store.CreateDirectory | internal/store/sqlite/store.go:1030-1077 | For every parent and name commits exactly when the composed path is canonical and free and the trimmed name is not empty; otherwise everything is as it was |
| SqliteStore.Store.UpdateDirectory | internal/store/sqlite/store.go:1082-1112 | Replaces the entries of an existing directory whose name and path match, and otherwise changes nothing |
| SqliteStore.Store.DeleteDirectory | internal/store/sqlite/store.go:1117-1166 | Commits the removal or changes nothing; an existing directory is refused only as not empty |
| SqliteStore.Store.RequireDirectoryExists | internal/store/sqlite/store.go:639-651 | True exactly for the root under either name and for existing directories |
| SqliteStore.Store.GetConfigByID | internal/store/sqlite/store.go:884-961 | Finds a config, and a version only by its own id and the config's together |
| SqliteStore.Store.Insert | internal/store/sqlite/store.go:1168-1214 | Writes the config, its first version and its entries; without content it fails with two inodes taken and the config row already written |
| SqliteStore.Store.Update | internal/store/sqlite/store.go:1216-1270 | Bumps the time, replaces the entries, and appends a version only when content is supplied |
| SqliteStore.Store.Upsert | internal/store/sqlite/store.go:1311-1364 | Creates, updates or changes nothing at all, and answers with the stored message |
| SqliteStore.Store.Delete | internal/store/sqlite/store.go:1272-1309 | Removes the config, all its versions and its entries; an unknown id removes nothing |
| SqliteStore.Store.ShowConfigs | internal/store/sqlite/store.go:378-411 | In a valid state never fails with a missing directory, and keeps exactly the visible candidates |
| SqliteStore.Store.TreeForACLTags | internal/store/sqlite/store.go:325-428 | In a valid state never fails, and answers with a tree of the readable directories and visible configs |
| Server.ConfigServer.constructor | internal/api/server.go:34-42 | The allow-list holds exactly the trimmed, non-blank tags it was given |
| Server.ConfigServer.PathReadable | internal/api/server.go:125-142 | Decides the recursive READ rule for every string |
| Server.ConfigServer.ContainingDirectory | internal/api/server.go:148-165 | The directory at a path when it exists; the root exists and has no row |
| Server.ConfigServer.DirectoryGate | internal/api/server.go:295-309 | FailedPrecondition exactly when the directory does not exist, PermissionDenied exactly when it exists and does not grant WRITE, and OK otherwise |
| Server.ConfigServer.DeepestExistingAncestor | internal/api/server.go:186-194 | The member of the chain with the longest full path, and nothing only for an empty chain |
| Server.ConfigServer.DirectoryWritable | internal/api/server.go:171-180 | Every ancestor grants READ and the directory itself WRITE |
| Server.ConfigServer.List | internal/api/server.go:208-235 | Answers with the caller's tree; for a directory id with what any unfiltered tree of the same state holds there, and nothing exactly when the directory may not be read |
| Server.ConfigServer.GetConfig | internal/api/server.go:237-266 | Answers exactly when the config (and the version asked for) exists and is visible to the caller, with each refusal for its exact reason |
| Server.ConfigServer.GetDirectory | internal/api/server.go:373-394 | Answers exactly when the directory exists and its whole chain grants READ, with each refusal for its exact reason |
| Server.ConfigServer.SetConfig | internal/api/server.go:268-316 | Needs WRITE on an existing config, or permission to create, and WRITE on an existing directory; changes the store and reports as the handler program run undisturbed does, and on success answers with the stored config |
| Server.ConfigServer.DeleteConfig | internal/api/server.go:318-336 | Needs WRITE on the existing config; changes the store and reports as the handler program run undisturbed does |
| Server.ConfigServer.CreateDirectory | internal/api/server.go:338-371 | Needs permission to create and WRITE on the deepest existing ancestor of the parent path; changes the store and reports as the handler program run undisturbed does, and on success answers with the stored directory at the composed path |
| Server.ConfigServer.UpdateDirectory | internal/api/server.go:396-423 | Needs READ on every ancestor and WRITE on the directory; changes the store and reports as the handler program run undisturbed does, and on success answers with the directory as stored |
| Server.ConfigServer.DeleteDirectory | internal/api/server.go:425-450 | Needs READ on every ancestor and WRITE on the directory; changes the store and reports, emptiness included, as the handler program run undisturbed does |
| Server.ChainMeaning | internal/api/server.go:125-142 | With nothing missing, the loop over the chain decides the gate |
| Server.LongestIsDeepest | internal/api/server.go:182-194 | The longest directory of a chain is the deepest existing one on the way to the path |
| Server.SubtreeOfAny | internal/api/server.go:196-235 | What is found in the filtered tree is what is found in every unfiltered tree of the same state |
| Handlers.RunsAlone | internal/api/server.go:268-316 | Gates change nothing: an undisturbed handler ends in the tables as they were, or with its one transaction |
| Answers.OkIffCommitted | internal/api/server.go:268-450 | A handler answers OK exactly when its caller was authorised and the transaction committed; any other answer means that nothing changed |
| Answers.AuthorisedCommits | internal/api/server.go:268-450 | An authorised request whose transaction can commit is carried out and answered OK |
| Answers.CanCreateIff | internal/api/server.go:46-56 | With an allow-list exactly the callers carrying one of its tags may create, without one everybody |
| Answers.DeleteConfigAnswers | internal/api/server.go:318-336 | Each answer of DeleteConfig with its exact condition; with WRITE it is OK and the config no longer reads back |
| Answers.SetConfigAnswers | internal/api/server.go:268-316 | Each answer of SetConfig with its exact condition, in the order of its checks |
| Answers.CreateDirectoryAnswers | internal/api/server.go:338-371 | Each answer of CreateDirectory with its exact condition, in the order of its checks |
| Answers.UpdateDirectoryAnswers | internal/api/server.go:396-423 | Each answer of UpdateDirectory with its exact condition |
| Answers.DeleteDirectoryAnswers | internal/api/server.go:425-450 | Each answer of DeleteDirectory with its exact condition; OK means the directory no longer reads back |
| Answers.EmptyRequests | internal/api/server.go:271-273 | A request without a message is refused |
| Protection.OutcomeIsAuthorised | internal/api/server.go:268-450 | A handler changes nothing or commits one transaction that its caller was authorised for |
| Protection.ConfigProtected | internal/api/server.go:268-336 | A config's row, entries or versions change only by a DeleteConfig or SetConfig with its id, from a caller holding WRITE on it and, for SetConfig, on its directory |
| Protection.CreationProtected | internal/api/server.go:286-309 | A config appears only by a SetConfig without an id, of a caller allowed to create, at the path it names, and that place grants the caller WRITE |
| Protection.DirectoryProtected | internal/api/server.go:396-450 | A directory changes or goes only by an UpdateDirectory or DeleteDirectory with its id, from a caller who may walk to it and holds WRITE on it |
| Protection.CreateAddsPrefixes | internal/store/sqlite/store.go:1049-1077 | A committed CreateDirectory adds exactly the missing prefixes of the composed path and changes no other row |
| Protection.GateSeesDeepest | internal/api/server.go:351-362 | The gate looks at the deepest existing directory on the way to the new one exactly when none exists at the parent path followed by the first part of the name; when one does, it looks at a different directory |
| Protection.NewDirectoryProtected | internal/api/server.go:338-371 | Directories appear only by a CreateDirectory that passed the gate, and, unless one exists at the first level of the name, only below a deepest existing ancestor that granted the caller WRITE |
| Protection.GateSufficesIff | internal/api/server.go:351-362 | Whatever entries directories carry and whoever asks, passing the gate means WRITE on the deepest existing directory on the way to the new one, exactly when no directory exists at the first level of the name |
| Protection.SlashFreeFirstLevel | internal/api/server.go:351-362 | For a name without a slash the first level is the new directory itself, so none exists there |
| Counterexamples.SlashedNamePassesGate | internal/api/server.go:351-362 | A reachable state in which /x refuses WRITE and the name x/y at the root is created all the same |
| Protection.RunProtected | internal/api/server.go:268-450 | Every request of a run leaves a given config as it was unless it names it and its caller holds WRITE there and then (for SetConfig on its directory too), and adds one only for a caller allowed to create in a place that grants WRITE |
| Protection.ChangeIsAccountedFor | internal/api/server.go:268-450 | Over a whole run a config that is not as it was at the start was first changed by a request that named it, from a caller who held WRITE on it at that moment |
| Protection.RunProtectsDirectories | internal/api/server.go:338-450 | Every request of a run changes or removes a given directory only when it names it and its caller may, and adds one only through the gate |
| Interleaving.ScheduleIsRun | internal/api/server.go:268-450 | Every interleaving of any handlers changes the tables as some sequence of transactions does |
| Interleaving.InterleavingsAreSafe | internal/api/server.go:299-309 | No interleaving leaves a config in a missing directory, a directory without its parent, or a current version that is missing or another config's |
| Interleaving.VersionsSurviveInterleaving | internal/api/server.go:268-450 | Versions stay permanent under any interleaving |
| Interleaving.RemovalBetweenGateAndUpsert | internal/store/sqlite/store.go:1317-1323 | A SetConfig whose directory was removed after its gate is refused by the transaction, which changes nothing |
| StaleGates.EverybodyEarns | internal/api/server.go:268-450 | After every step of every schedule, wherever a handler stands, each gate behind it held for its caller in an earlier state, in the order in which the handler looks |
| StaleGates.EveryChangeWasLetThrough | internal/api/server.go:268-450 | Whatever a step of a schedule changes is one transaction that the handler's request asks for and whose gates each held, for its caller, in an earlier state |
| StaleGates.ConfigProtectedInterleaved | internal/api/server.go:268-336 | Under every schedule a step changes a config only for a request that names it, from a caller who held WRITE on it and, for SetConfig, on its directory, in earlier states |
| StaleGates.StillHolds | internal/api/server.go:268-336 | If nobody replaced the config's entries meanwhile, that caller still holds WRITE when the transaction commits |
| StaleGates.WriteAfterRevocation | internal/api/server.go:299-309 | For any two callers who may update a config: if the second takes the first's WRITE away between the first's gates and its transaction, the transaction commits all the same |
| StaleGates.WorldAtEnd | internal/api/server.go:268-450 | The states of a schedule, step by step, end in the one the whole schedule ends in |
| Counterexamples.WrittenWithoutWrite | internal/api/server.go:299-309 | From a reachable state, a schedule in which a config is overwritten by a caller who no longer holds WRITE |
| ClientIndex.DirectoryMap | internal/fs/fs.go:265-288 | The recursion indexes every directory of the tree by its first occurrence and every config by its last |
| ClientIndex.IndexedIffReached | internal/fs/fs.go:498-513 | After a refresh a path is indexed exactly when looking up names one by one from the top reaches it |
| ClientIndex.IdsAreVisible | internal/fs/fs.go:290-308 | The configs indexed by id are exactly those visible to the caller, each as the store has it |
| ClientIndex.TreeConfigsExact | internal/store/sqlite/store.go:325-428 | The configs in a caller's tree are exactly the visible ones, each with the fields the store has |
| ClientLookup.TreeHolds | internal/store/sqlite/store.go:309-323 | Every directory of a caller's tree holds just the visible configs and readable directories that belong in it, each with the fields single reads answer |
| ClientLookup.ListedSize | internal/store/sqlite/store.go:353-388 | Every config in a listing is the one a read without content answers, with the size of its last version |
| ClientLookup.IndexedPaths | internal/fs/fs.go:290-308 | The indexed paths are the root and the full paths of the readable directories |
| ClientLookup.LookupDirectoryIff | internal/fs/fs.go:498-506 | Looking up a name gives a directory exactly when the path is indexed and a readable directory has the name there |
| ClientLookup.LookupFileIff | internal/fs/fs.go:507-513 | Looking up a name gives a file exactly when the path is indexed, no readable directory and some visible config has the name there, and then it is such a config |
| ClientLookup.ChildResolves | internal/fs/fs.go:386-400 | The child removed under a name is the readable directory there, and none exactly when there is none |
| ClientIndex.RemoveResolves | internal/fs/fs.go:515-522 | With slash-free config names, removing a name in a directory resolves to the visible config stored under that path with that name, and to nothing when there is none |
| ClientIndex.RootRemoveResolves | internal/fs/fs.go:515-522 | A config shown at the root is found by removing its name there exactly when its stored path is / and not empty |
| Counterexamples.RootConfigMissed | internal/fs/fs.go:515-522 | A reachable state with a config stored at the empty path that everybody sees at the top of the tree, while no index has the name removed there |
| ClientFs.FilesystemSnapshot.Refresh | internal/fs/fs.go:290-308 | The maps become those of a tree for the present state; when the server cannot be reached they stay |
| ClientFs.FilesystemSnapshot.Remove | internal/fs/fs.go:336-348 | Deletes the indexed config by id and refreshes; an unknown path changes nothing |
| ClientFs.FilesystemSnapshot.Rmdir | internal/fs/fs.go:382-405 | Deletes the named child of the cached parent by id and refreshes; an unknown one changes nothing |
| ClientFs.FilesystemSnapshot.Write | internal/fs/fs.go:407-419 | Stores the spliced content as the handler program does, and refreshes |
| FileWrite.SpliceInto | internal/fs/fs.go:626-636 | The buffer holds the data at its offset, the old content elsewhere and zeros in a gap |
| FileWrite.SpliceCases | internal/fs/fs.go:626-636 | Within the content the data replaces what was there, a write across the end extends it, and a gap before a write beyond the end is filled with zeros |
| FileWrite.WriteEffect | internal/fs/fs.go:624-643 | One permitted write makes the spliced content the current version with its length as size, keeps every older version and leaves the caller's rights as they were |
| FileWrite.ChunksCompose | internal/fs/fs.go:624-643 | Writing any partition of a byte string chunk by chunk, each at its own time, into an empty config leaves its concatenation as the current content and every intermediate content as an older version |
| Migration.UnitStep | internal/store/sqlite/store.go:94-255 | Every statement or migration transaction, run when its turn comes, succeeds and keeps the database on course to the same final state |
| Migration.MigrationRestartable | internal/store/sqlite/store.go:112-255 | However often and wherever opening was stopped, a run that completes reaches the state of one undisturbed run, and another run changes nothing |
| Migration.MigrationPreserves | internal/store/sqlite/store.go:94-255 | The final state has the present schema, a valid current version for each config, every config's name, path and times, every version's bytes, times, config and size, and the length as the size of content that had none |
| Migration.MigratedVersionInv | internal/store/sqlite/store.go:181-255 | The migrated rows satisfy the store's version invariant for any bound on inodes that the old rows satisfied |
| Migration.MigratedInv | internal/store/sqlite/store.go:112-159 | With directories, places and entries in order, the migrated database satisfies the whole invariant of the store |
| Migration.Connection.NewStore | internal/store/sqlite/store.go:112-160 | Stopped anywhere the database stays well-formed with the same final state ahead; not stopped, it is that state |

## Left out

- Protection.RunProtected: handlers run one after the other. Interleaved, a gate may be out of date when its transaction runs; what then remains is `StaleGates.EveryChangeWasLetThrough`, and `Counterexamples.WrittenWithoutWrite` shows that it is no more.
- StaleGates.EveryChangeWasLetThrough: each store call of a handler is one atomic step, although GetConfigByID and getDirectoriesByPathString run two or three queries outside a transaction.
- Protection.NewDirectoryProtected: when a directory exists at the first level of the name, only that the gate was passed; `Protection.GateSufficesIff` shows that this is all the code ensures then.
- Migration.UnitStep: the two migrations that run in a transaction are single units, since an interrupted transaction rolls back; an interrupted process does not otherwise damage the database.
- Listing.ListAgreesWithGet: for one state. TreeForACLTags and GetConfigByID run several queries outside a transaction, so nothing is claimed across concurrent writers.
- FileWrite.ChunksCompose: with no other writer between the read and the write of a chunk; the client takes no lock on the server.
- Readable.ReadableDirectories: on ancestor-closed lists, the only ones the store passes it (`TreeQuery.TableAncestorClosed`).
- Tree.PopulateDirectory: on lists without an entry that is its own parent (`Tree.DeepensIff`); with one the code's recursion does not end.
- Deletion.RefusedThoughEmpty: the instance has one config; `Deletion.DeletesIff` is the statement for all states.
- gRPC transport, the Tailscale identity lookup and its interceptors: a caller is a list of tags.
- SQL text, SQLite's limits on patterns, expressions and variables, driver errors and failed commits (logged, not returned, internal/store/sqlite/store.go:283): a statement is its relational meaning and commits succeed.
- Decimal parsing of ids: an id field is empty, a number or malformed. Row ids are unbounded integers.
- Status codes picked by searching error texts (internal/api/server.go:365, 418, 445): errors are kinds, so a directory name that itself contains such a text is not distinguished.
- Upsert with an unknown id and empty name and path dereferences a nil pointer (internal/store/sqlite/store.go:1345-1351): modelled as a failed step that changes nothing.
- Strings are sequences of Unicode characters; the byte lengths the code compares are compared here in characters, and only along the prefixes of one path, where the two orders agree.
- The config path column has SQLite type STRING, whose numeric affinity does not touch stored paths: they are empty or begin with a slash.
- Content size is a natural number; the conversion between 64-bit signed and unsigned in the code is a round trip.
- Foreign keys are not enforced by the model's tables; the invariant shows that no row ever dangles.
- Messages in a tree are values; the code clones each one before filling it, so they share nothing.
- The inode table is its largest id: its rows are only ever inserted.
- A transaction's rollback restores the tables as they were when it began.
- FilesystemSnapshot.Create and Mkdir, the refresh lock, ReadDirAll, attributes, access times, FUSE mounting, the refresh timer and logging: I/O or trivial state.
- cmd/ and the generated protobuf code: flags, wiring and plumbing.
