# Miniverse: a verified model

Miniverse runs Minecraft servers ("miniverses") in containers. It keeps their rows and their users' roles in a
database, edits their data folders, installs and upgrades mods, routes players by host name, caches the state of the
servers, and sends events to subscribers. These Dafny modules model the parts of the backend with the most state and
branching, and prove what they promise.

| part | modules |
|---|---|
| data folders: paths, tree, operations, archives | `text`, `paths`, `path_laws`, `file_tree`, `extraction`, `files_service`, `file_safety`, `escaping_requests`, `file_effects`, `file_requests`, `archive`, `archive_names` |
| roles and event delivery | `role_events`, `role_effects` |
| version grammar and order | `versions`, `version_order` |
| status cache and players online | `status_cache`, `router_players`, `status_effects` |
| routes | `routes` |
| mods | `mods`, `mods_safety`, `mods_effects` |
| creating, starting, stopping, updating, deleting | `lifecycle`, `lifecycle_safety`, `lifecycle_effects`, `lifecycle_runs`, `lifecycle_requests`, `controller_kinds`, `lifecycle_histories` |

A service whose methods change fields is a class; each method is proved equal to a function of the old state, and the
properties are proved about those functions, over single requests and over whole runs. Libraries are replaced by
values: the file system is a map from paths to nodes, database tables, the store and the containers are maps, the
channel is a queue, and an archive is a list of names with contents. Answers of the mod platform, the version listing,
new ids and the order of query results are parameters, which may differ from request to request.

`dafny verify dfyconfig.toml` checks everything.

## Where the code and its promise differ

The model follows the code. Each point has a lemma with the exact condition on the state before, or a
counterexample, mostly both.

- A deletion announces itself to the users loaded with the miniverse before the commit. A user who is granted a role
  in between keeps a stale cached role (`AlwaysSyncedExactlyWhen`,
  `OutdatedDeleteLeavesStaleRole`).
- An upload whose name comes to nothing, or an archive whose container name does, lands beside the data folder
  (`LeavesFolder`, `UploadEffect`, `ExtractEffect`, `DotUploadLeavesFolder`, `SlashArchiveLeavesFolder`).
- An archive whose only root is a file is never extracted, and its container stays (`LoneFileIsNotExtracted`,
  `LoneFileExample`).
- An unparsable first version raises, though None is documented; sibling prereleases tie or raise, though the
  documentation gives an order (`InvalidIsNoneExactlyWhen`, `WordRaisesOnTheLeft`, `RaisesExactlyWhen`,
  `PrereleasesAreNotOrdered`, `DocumentedOrderFails`).
- A creation whose version cannot be parsed leaves a committed row without a controller
  (`CreateKeepsAgreementExactlyWhenParsable`, `CreateOfWordFails`).
- An update refused or failing after a new subdomain was committed leaves the old routes
  (`UpdateKeepsRoutesExactlyWhen`, `RefusedVersionLeavesOldRoutes`); a changed Java version never restarts
  (`UpdateAloneRestartsNothing`).
- An update across 1.21.9 keeps the controller of the old kind (`RunKeepsKind`, `UpdateKeepsKindFitExactlyWhen`,
  `UpgradeKeepsRouter`).
- An update of a mod that fails after the old file was deleted leaves its row without a file
  (`UpdateKeepsSoundExactlyWhen`, `UpgradeAllKeepsSoundExactlyWhen`, `UnfetchedUpdateLosesFile`). The function that updates a mod does not ask whether the
  version is of the mod's project, so taken alone it could make two rows of one project; no path of the program does
  that, as the one endpoint that passes a free version id (`app/api/v1/miniverses.py:136`) assigns the result of a
  comparison and so always fails, and installs and upgrades pass versions of the mod's own project.
- A stop does not stop a container it finds only by its name (`StopLeavesContainerExactlyWhen`); in runs without
  crashes the row holds the id, and this does not happen (`StopRemovesOwnContainer`).
- The webhook handler strips letters, not a prefix, so ids that begin with one of them are not found
  (`IdIsRecoveredExactlyWhen`, `LetterIsStripped`).
- Stopping a router miniverse leaves its cached player list (`ReadAfterStopIsStale`, `StopLeavesPlayerListed`).

## Model

| member | source | states |
|---|---|---|
| `Versions.MatchIsTheRegularExpression` | `app/services/minecraft_service.py:12-20` | for each of the six formats, the scanner finds a decomposition of a text exactly when the regular expression admits it, and there is at most one |
| `Versions.FormatsOverlapOnlyOnReleases` | `app/services/minecraft_service.py:12-20` | two different formats accept one text only when both read it as a release, with the same groups |
| `Versions.ParseReadsAnyFormat` | `app/services/minecraft_service.py:54-116` | whichever format accepts a text, the record is that format's reading; the order of the attempts decides nothing but the old/new tag of a release |
| `Versions.ParsedIsPrintable` | `app/services/minecraft_service.py:54-116` | every record the parser returns keeps its text and lies in the domain of the printer, so the round trip covers all of them |
| `Versions.ParseOfPrint` | `app/services/minecraft_service.py:54-116` | round trip: parsing a printed release, prerelease or snapshot gives back kind, numbers of any size, suffix and build |
| `Versions.PrereleaseSample` | `app/services/minecraft_service.py:12-116` | such a text read in full: an old prerelease with its numbers, suffix and build |
| `Versions.NewPrereleaseSample` | `app/services/minecraft_service.py:12-116` | the same for a new prerelease |
| `Versions.SnapshotSample` | `app/services/minecraft_service.py:12-116` | the same for an old snapshot |
| `Versions.NewSnapshotSample` | `app/services/minecraft_service.py:12-116` | the same for a new snapshot |
| `VersionOrder.RaisesExactlyWhen` | `app/services/minecraft_service.py:171-198` | the comparison raises exactly for an unparsable first version against a parsable one and for a pre against an rc of one main version |
| `VersionOrder.SiblingPrereleasesAreNotOrdered` | `app/services/minecraft_service.py:195-196` | prereleases of one main version tie whatever their build numbers, or raise, since bare suffixes are compared |
| `VersionOrder.PrereleasesAreNotOrdered` | `app/services/minecraft_service.py:195-196` | the whole failing family written out: X.Y-preN ties with X.Y-preM, and X.Y-preN against X.Y-rcM raises, for all N and M |
| `VersionOrder.DocumentedOrderFails` | `app/services/minecraft_service.py:159-170` | concrete inputs against the documented order: 1.20-pre1 ties with 1.20-pre2, and against 1.20-rc1 it raises |
| `VersionOrder.NoneExactlyWhen` | `app/services/minecraft_service.py:177-198` | None is the answer exactly for different texts of which the second is invalid, or both are valid, only the dates could order them, and one is not listed |
| `VersionOrder.WordRaisesOnTheLeft` | `app/services/minecraft_service.py:177-178` | any text that does not begin with a digit is answered by None on the right and raises on the left |
| `VersionOrder.LatestRaisesOnTheLeft` | `app/services/minecraft_service.py:177-178` | such a pair: "latest" and 1.20 |
| `VersionOrder.SwappingNegates` | `app/services/minecraft_service.py:159-198` | an answer is a sign, and swapping the arguments negates it |
| `VersionOrder.AgainstRelease` | `app/services/minecraft_service.py:184-194` | a version with higher numbers than a release comes after it, one with lower numbers and a prerelease of it come before it, whatever the listing |
| `VersionOrder.AgreesExactlyOnRegularListings` | `app/services/minecraft_service.py:149-198` | the comparison equals the publish-date comparison on all listed parsable pairs if and only if dates rise with the numbers, releases follow their prereleases, and sibling prereleases are the same stage on the same date |
| `VersionOrder.TotalPreorderOnRegularListings` | `app/services/minecraft_service.py:149-198` | on such a listing the comparison is total and transitive, old snapshots included |
| `VersionOrder.DateIsFirstListed` | `app/services/minecraft_service.py:149-156` | a version has a publish date exactly when the listing has an entry for it, and it is the date of the first one |
| `VersionOrder.LaterListedComesLater` | `app/services/minecraft_service.py:149-156` | in terms of the entries: of an old snapshot and another version the one listed with the later date compares as 1, on one date they tie |
| `VersionOrder.SnapshotsByDate` | `app/services/minecraft_service.py:149-156` | such a pair: 25w37a comes after 25w36a by their dates |
| `VersionOrder.NumbersDecide` | `app/services/minecraft_service.py:184-198` | apart from old snapshots higher numbers decide, whatever the listing; with equal numbers a new snapshot is placed by date |
| `VersionOrder.IdentifiersAreOrdered` | `app/services/minecraft_service.py:131-146` | identifiers with a build are ordered pre before rc, then by build; the comparison never gets such identifiers |
| `Paths.SafeUserPath` | `app/services/files_service.py:25-33` | an accepted user path is at or below the base; which paths are accepted, and where they lead, is `PathLaws.SafePathExactlyWhen` |
| `Paths.DotSlashMakesRelative` | `app/services/files_service.py:27` | the "./" prefix drops the root of any path text and nothing else |
| `Paths.CandidatesDiffer` | `app/services/files_service.py:40-46` | the paths tried for different counters are different |
| `PathLaws.ResolveUp` | `app/services/files_service.py:28` | a last ".." leads to the parent of where the rest leads |
| `PathLaws.ResolveDown` | `app/services/files_service.py:28` | a last component that is no ".." leads from there to the entry of that name |
| `PathLaws.ResolveIsLanding` | `app/services/files_service.py:28` | a resolution is the base with its levels taken off and the components put on that are left when each ".." has taken back the component before it |
| `PathLaws.SafePathExactlyWhen` | `app/services/files_service.py:28-31` | a user path is accepted exactly when that reduced form does not go above the base, or comes back to it over the base's own last components; the target is then given by the reduced components |
| `PathLaws.LeavingIsRefused` | `app/services/files_service.py:30-31` | a path that leads out of the base and not back to it is refused |
| `PathLaws.UpAndDown` | `app/services/files_service.py:28-31` | so "../n" is refused except where n is the base's own name |
| `PathLaws.DownAndUp` | `app/services/files_service.py:28-33` | and "a/../n" is n |
| `PathLaws.StemAndSuffix` | `app/services/files_service.py:40-46` | a name is its stem and its suffix, which begins at the last dot unless that begins or ends the name |
| `PathLaws.NumberedNames` | `app/services/files_service.py:40-46` | the counter goes before the suffix of a file and behind the name of a directory |
| `FileTree.TryingUsesUpAnEntry` | `app/services/files_service.py:41` | an occupied candidate lowers the number of untried entries: why the search ends on every finite tree |
| `FileTree.FreshPathIsFirstFree` | `app/services/files_service.py:36-48` | the result is unused, has the same parent, is the path itself when that is free, and otherwise has the smallest free counter |
| `FilesService.FileService.ChangePathNameIfExists` | `app/services/files_service.py:36-48` | the loop returns that fresh path, with a termination measure for every tree |
| `FileTree.MakeDirsAddsAncestors` | `app/services/files_service.py:82` | making directories keeps every entry, adds exactly the path and its ancestors, all directories, and keeps the tree proper |
| `FileTree.CopyTreeKeepsTree` | `app/services/files_service.py:158-161` | a copy to a fresh place keeps the tree proper and every entry outside the destination |
| `FileTree.MoveTreeKeepsTree` | `app/services/files_service.py:242` | a move to a fresh place keeps the tree proper |
| `FileTree.MoveBackRestores` | `app/services/files_service.py:299` | moving there and back restores the tree |
| `FilesService.FileService.Resolved` | `app/services/files_service.py:138` | all paths are resolved before anything is touched, and one bad path refuses the request |
| `FilesService.FileService.Delete` | `app/services/files_service.py:136-144` | the new tree and the outcome, error paths included |
| `FilesService.FileService.CopyEntryTo` | `app/services/files_service.py:152-161` | one round of the copy loop: missing source, directory, file; a directory copied to a new place inside itself gets the entries it had before |
| `FilesService.FileService.Copy` | `app/services/files_service.py:147-161` | the new tree and the outcome, error paths included, up to a directory copied below one of its own subdirectories |
| `FilesService.FileService.Upload` | `app/services/files_service.py:226-242` | the new tree and the outcome, what a failure partway leaves included |
| `FilesService.FileService.GetZipRoots` | `app/services/files_service.py:51-62` | the set of first components of all members |
| `FilesService.FileService.ExtractMembers` | `app/services/files_service.py:84-98` | the loop over the members, stopping at the first that raises; which are passed over, laid out or refused is `ArchiveNames.StepsFollow` |
| `FilesService.FileService.ExtractZipFile` | `app/services/files_service.py:65-98` | container name, fresh container, and the loop |
| `FilesService.FileService.Extract` | `app/services/files_service.py:245-257` | the new tree and the outcome, error paths included |
| `FilesService.FileService.Rename` | `app/services/files_service.py:290-299` | the new tree and the outcome, error paths included |
| `FilesService.FileService.SetContent` | `app/services/files_service.py:317-327` | the new tree and the outcome, error paths included |
| `FileEffects.DeleteIsExact` | `app/services/files_service.py:136-144` | exactly the entries at or below the given paths are gone, in any order and with overlaps; the others are unchanged |
| `FileEffects.CopyIsExact` | `app/services/files_service.py:152-161` | the whole source with its contents stands at a fresh path in the destination, and apart from that at most the destination's directories are new |
| `FileEffects.UploadIsExact` | `app/services/files_service.py:240-242` | the temporary entry with its contents stands at the target, it and the information file are gone, everything else is unchanged |
| `FileEffects.RenameIsExact` | `app/services/files_service.py:290-299` | the whole entry stands under the new name, nothing under the old, everything else is unchanged |
| `FileSafety.RenameBackRestores` | `app/services/files_service.py:290-299` | renaming an entry and renaming it back restores the tree |
| `FileRequests.SafePathsExactlyWhen` | `app/services/files_service.py:138` | the paths of a request are all accepted or the request is refused, and each goes to its own target |
| `FileRequests.DeleteRequest` | `app/services/files_service.py:136-144` | a deletion returns exactly when its paths are accepted, and then what lies at or below their targets is gone and all else stays; otherwise nothing changes |
| `FileRequests.CopyPathsCopyEach` | `app/services/files_service.py:152-161` | a copy that returns has put each source that was there at its turn, whole, at a fresh path of the destination |
| `FileRequests.CopyRequest` | `app/services/files_service.py:147-161` | the same for the request, whose destination is where its own path leads |
| `FileRequests.RenameRequest` | `app/services/files_service.py:290-299` | for a plain path: a rename returns exactly when the entry exists, the new name is one component, and nothing stands there; then the whole entry has the new name, and otherwise nothing changes |
| `FileRequests.UploadRequest` | `app/services/files_service.py:226-242` | an upload returns exactly when its paths are accepted, its directories can be made and its files wait; the waiting entry then stands at the wanted path, or at the one with the smallest free counter |
| `FileRequests.ZipNameExactlyWhen` | `app/services/files_service.py:254` | the suffix test passes exactly for names that end in ".zip" in letters of any case, with something before it |
| `FileSafety.ExtractionFrame` | `app/services/files_service.py:65-98` | whether the extraction returns or raises partway, every earlier entry is unchanged and every new one is at or below one container that was not there |
| `FileSafety.UploadEffect` | `app/services/files_service.py:226-242` | an upload keeps everything outside the data folder but its temporaries if and only if its name does not come to the folder itself or its files are not there; no entry of the folder is changed |
| `FileSafety.ExtractEffect` | `app/services/files_service.py:245-257` | an extraction keeps everything outside if and only if its container name does not come to the folder itself, or the file is none or no archive by name; whether a member raises later does not matter |
| `FileSafety.RequestIsSafe` | `app/services/files_service.py:136-327` | every kind of request keeps the tree proper; it keeps everything outside the data folder if and only if it is none of those two; copies, uploads and extractions alter no entry of the folder |
| `FileSafety.RunIsSafe` | `app/services/files_service.py:136-327` | every run of requests keeps the tree proper, and nothing outside the data folder changes but consumed temporaries if and only if no request leaves the folder in the state it meets: what one adds beside it none removes |
| `EscapingRequests.DotUploadLeavesFolder` | `app/services/files_service.py:226-242` | such an input: an upload named "." to "/" |
| `EscapingRequests.SlashArchiveLeavesFolder` | `app/services/files_service.py:71-82` | such an input: an archive whose only member is "/x" |
| `Extraction.LoopKeepsFrame` | `app/services/files_service.py:84-98` | the loop touches nothing outside its container, wherever it stops |
| `Extraction.LoopLaysOut` | `app/services/files_service.py:84-98` | on a new container the loop succeeds if and only if no member leaves the container or is the container and no file is also a directory; then the container holds exactly the described files and their directories |
| `Extraction.LastMemberWins` | `app/services/files_service.py:84-98` | of several members for one path the last one decides the content |
| `Archive.ExtractionIsExact` | `app/services/files_service.py:65-98` | the same for the whole extraction, once the container name is accepted; in terms of names this is `ArchiveNames.ExtractionByNames` |
| `Archive.LoneFileIsNotExtracted` | `app/services/files_service.py:90-96` | an archive whose single root is a file itself is never extracted: the target is the container, which stays behind, empty if that was the only member, with everything else as it was |
| `Archive.LoneFileExample` | `app/services/files_service.py:90-96` | such an archive: its only member is the file "a"; in every tree the empty container is left |
| `ArchiveNames.StepsFollow` | `app/services/files_service.py:84-90` | in terms of names: a member whose name ends in a slash is passed over, and any other lands where its name leads from the container, or is refused if that is outside |
| `ArchiveNames.FoldersDoNotMatter` | `app/services/files_service.py:85-86` | an archive and the same archive without its folder members leave the same tree and outcome in one container |
| `ArchiveNames.ExtractionByNames` | `app/services/files_service.py:65-98` | in terms of names: the extraction returns exactly when every file member lands below the container and none above another, and then the container holds exactly the file members, the last of each name, and the directories they need |
| `ArchiveNames.ContainerIsNamedAfter` | `app/services/files_service.py:71-76` | the container is named after the one first component all members share, else after the archive |
| `ArchiveNames.FolderAndFile` | `app/services/files_service.py:65-98` | a folder and a file in it, as archivers write them, extract to a container of the folder's name with that file |
| `ArchiveNames.ModsArchive` | `app/services/files_service.py:65-98` | such an archive: "mods/" and "mods/a.jar" |
| `Archive.DownloadFiles` | `app/services/files_service.py:199-223` | the loops produce the specified download |
| `Archive.ManifestListsSelection` | `app/services/files_service.py:186-217` | the manifest lists exactly the files at or below a selected path, each under its path from the shared parent |
| `Archive.DirectoryRoundTrip` | `app/services/files_service.py:51-223` | extracting the download of a directory that holds a file recreates exactly its files and contents under a fresh container of its name |
| `Archive.SelectionRoundTrip` | `app/services/files_service.py:51-223` | extracting the download of a selection with several roots puts exactly its files, roots kept, below a fresh container named after the archive |
| `RoleEvents.SearchIsLookup` | `app/models/user.py:32-36` | whatever the order of a user's rows, the search with its early return finds the role stored for the miniverse, or none |
| `RoleEvents.MaxRole` | `app/api/v1/websockets.py:44` | the larger of two roles by their value |
| `RoleEvents.Subscriber.HandleMessage` | `app/api/v1/websockets.py:32-49` | the cache is reloaded exactly when the event names the user; the event is sent by the larger of the roles before and after |
| `RoleEvents.RoleService.SetUserRole` | `app/api/v1/miniverses.py:182-198` | the row is added, changed or deleted, and one event naming the user is published |
| `RoleEvents.StepKeepsSync` | `app/api/v1/websockets.py:32-49` | every step of commits, publishes and handling keeps: a cached role differs from the stored one only while the change is still announced or on its way |
| `RoleEvents.AlwaysSyncedExactlyWhen` | `app/api/v1/websockets.py:32-49` | over every interleaving: the promise to a subscriber holds in every state of the run if and only if at each deletion's commit an event naming the user is under way, or the loaded list names the user, or the cache has no role there |
| `RoleEvents.RunKeepsSync` | `app/api/v1/websockets.py:32-49` | so the promise holds at the end of every run whose deletions are in time for the subscriber |
| `RoleEvents.CoveringListsAreInTime` | `app/services/miniverse_service.py:94-99` | deletions whose lists cover every row they remove are in time for every subscriber |
| `RoleEvents.DrainedMeansEqual` | `app/api/v1/websockets.py:32-49` | once everything is published and handled in such a run, cached and stored roles agree for all miniverses |
| `RoleEvents.DeleteKeepsSyncExactlyWhen` | `app/services/miniverse_service.py:94-99` | a deletion keeps that promise to a subscriber exactly when an event naming the user is under way, or the loaded list names the user, or the cache has no role there |
| `RoleEvents.OutdatedDeleteLeavesStaleRole` | `app/services/miniverse_service.py:94-99` | a concrete run in which a role that the administrator grants while a deletion is under way stays cached after everything is drained |
| `RoleEvents.MemberReceivesEverything` | `app/api/v1/websockets.py:36-47` | a subscriber whose stored role stays at User or above receives every event about the miniverse in publish order |
| `RoleEvents.OutsiderReceivesNothing` | `app/api/v1/websockets.py:36-47` | a subscriber who never has a role there is sent no event about it |
| `RoleEvents.RevocationIsDelivered` | `app/api/v1/websockets.py:38-47` | a revocation or deletion notice is delivered if the role was cached at the commit and no other event naming the user is handled in between |
| `RoleEffects.RoleIsAnnounced` | `app/api/v1/miniverses.py:182-198` | a role set while nothing is on its way: one Updated event naming the user, whose cache then holds the stored roles; it is sent to the subscribers with a cached role there, and to the user who gets one |
| `RoleEffects.CreationIsAnnounced` | `app/services/miniverse_service.py:44-77` | a creation then: its creator alone has a role, Admin; one Created event names and reaches exactly that user |
| `RoleEffects.DeletionIsAnnounced` | `app/services/miniverse_service.py:94-99` | a deletion then: one Deleted event naming everyone who had a role, sent to who had one; all rows for the miniverse and no others are gone, from the table and from the caches |
| `RoleEffects.NoticeIsSent` | `app/events/miniverse_event.py:30-35` | an event that names nobody reloads no cache, and is sent to everyone or to those with a role on its miniverse |
| `RoleEffects.EventsMayOvertake` | `app/api/v1/miniverses.py:182-198` | two changes may be published, and so handled, in the other order than they were committed |
| `RoleEffects.NothingIsLost` | `app/api/v1/websockets.py:32-49` | over every interleaving each change's event is published exactly once or still to be, no other event is, and events are handled in publish order |
| `StatusCache.StatusStore.Set` | `app/services/connexion/server_status_store.py:18-33` | the store and the published events after a write, with the comparison of texts |
| `StatusCache.StatusStore.Get` | `app/services/connexion/server_status_store.py:35-39` | the stored value, or none |
| `StatusCache.PlayerService.GetDataCached` | `app/services/connexion/BaseMiniverseService.py:23-34` | the result is the value stored afterwards, and the source is asked only when refreshing or when nothing is stored |
| `StatusCache.PlayerService.GetPlayerList` | `app/services/connexion/BaseMiniverseService.py:36-46` | the list stored afterwards, and its merge into the players seen when it was refreshed |
| `StatusCache.PlayerService.Stop` | `app/services/connexion/MCRouterMiniverseService.py:19-20` | the dictionary is empty and the store is untouched |
| `StatusCache.PlayerService.ProcessWebhook` | `app/services/connexion/MCRouterMiniverseService.py:22-41` | the dictionary after a connect, a disconnect or another event, and the refreshed store |
| `StatusCache.PutIsUpdate` | `app/services/connexion/BaseMiniverseService.py:43` | assignment in the insertion-ordered dictionary changes one key |
| `StatusCache.PopIsRemoval` | `app/services/connexion/MCRouterMiniverseService.py:36` | removal from it removes one key |
| `StatusCache.MergeKeepsLatest` | `app/services/connexion/BaseMiniverseService.py:43` | a merge gives each merged id its last entry and keeps all others |
| `StatusCache.ReplayGivesStored` | `app/services/connexion/server_status_store.py:18-33` | through any run of reads and refreshes, replaying the published events of a key gives its stored value, however texts compare |
| `StatusCache.SeenIsMerged` | `app/services/connexion/BaseMiniverseService.py:41-44` | through any such run the players seen are the first ones with all refreshed lists merged in |
| `StatusCache.SeenHasLatest` | `app/services/connexion/BaseMiniverseService.py:36-50` | every id ever refreshed is seen with its latest entry, and an id once seen stays seen |
| `StatusEffects.PlayerRefreshIsExact` | `app/services/connexion/BaseMiniverseService.py:36-46` | a refreshed player list is stored and published as any list is, its players are seen with their latest entries, and nothing is published about the players seen |
| `StatusEffects.EveryEventIsNews` | `app/services/connexion/server_status_store.py:27-33` | where texts compare equal, over any run of reads and refreshes every published event changes what a listener holds, and none is about the players seen |
| `StatusEffects.UnrecognisedTextIsRepeated` | `app/services/connexion/server_status_store.py:27-33` | where they do not, a refresh of an unchanged list is published again |
| `StatusEffects.WebhookIsExact` | `app/services/connexion/MCRouterMiniverseService.py:32-39` | a successful connect lists the player, a disconnect takes the player off, and any other event, a failed connect included, changes nothing |
| `RouterPlayers.OnlineIsExact` | `app/services/connexion/MCRouterMiniverseService.py:32-37` | a player is online under a name exactly when the last successful connect gave that name and no disconnect followed |
| `RouterPlayers.OnlineInOrderOfArrival` | `app/services/connexion/MCRouterMiniverseService.py:32-37` | players are listed in the order of the connects with which they arrived |
| `RouterPlayers.OnlineIsHooksSinceStop` | `app/services/connexion/MCRouterMiniverseService.py:19-41` | in every run the dictionary is the fold of the webhooks since the last stop |
| `RouterPlayers.WebhookShowsOnline` | `app/services/connexion/MCRouterMiniverseService.py:22-41` | after every webhook with a player the stored list equals the dictionary |
| `RouterPlayers.StopLeavesPlayerListed` | `app/services/connexion/MCRouterMiniverseService.py:19-20` | a concrete run: connect, stop, cached read, and the player is still listed |
| `Routes.RoutesAreTheSites` | `app/services/proxy_service.py:11-17` | a host has a route exactly when some miniverse has it, and the route leads to such a miniverse |
| `Routes.OneRouteEach` | `app/services/proxy_service.py:11-17` | with distinct subdomains there is one route for each miniverse, leading to it |
| `Routes.IdIsRecoveredExactlyWhen` | `app/managers/ServerStatusManager.py:42-46` | the webhook handler recovers the id written in the route table if and only if it has no colon and is empty or does not begin with a letter of "miniverse-" |
| `Routes.LetterIsStripped` | `app/managers/ServerStatusManager.py:42-46` | such an id that is not recovered: "e1" is looked up as "1" |
| `Routes.RecoveredIdIsStripped` | `app/managers/ServerStatusManager.py:42-46` | what it finds for any colon-free id is the id without its leading letters of "miniverse-" |
| `StatusEffects.LastSiteHasTheRoute` | `app/services/proxy_service.py:11-17` | of the miniverses with one subdomain the last listed has the route "subdomain.domain", and it leads to "miniverse-id:25565" |
| `StatusEffects.StrippedLetters` | `app/managers/ServerStatusManager.py:43` | the letters stripped are those of "miniverse-" |
| `Mods.ModsService.DeleteModFile` | `app/services/mods_service.py:117-122` | the row's file is gone and no other |
| `Mods.ModsService.DownloadModFile` | `app/services/mods_service.py:92-114` | the file name, or the refusal, and the file written |
| `Mods.ModsService.UpdateMod` | `app/services/mods_service.py:156-177` | rows, files and outcome, with the old file deleted before the new one is fetched |
| `Mods.ModsService.InstallMod` | `app/services/mods_service.py:125-154` | updates the project's row if the miniverse has one, adds one otherwise |
| `Mods.ModsService.UninstallMod` | `app/services/mods_service.py:205-213` | row and file are gone, and all other rows and files stay |
| `Mods.ModsService.UpgradeMods` | `app/services/miniverse_service.py:314-318` | the loop that takes each available update, stopping at the first failure |
| `Mods.UpgradeAllSucceedsExactlyWhen` | `app/services/miniverse_service.py:314-318` | the loop succeeds if and only if the version of every available update can be put in the folder |
| `Mods.NewestFirstSorts` | `app/services/mods_service.py:230` | the sort puts the newest first and keeps exactly the versions |
| `Mods.ScanVersions` | `app/services/mods_service.py:231-239` | the loop with its else part finds the first eligible version |
| `Mods.ListPossibleModUpdates` | `app/services/mods_service.py:216-243` | exactly one entry for each mod, as specified for its project |
| `Mods.UpdateIsNewestEligible` | `app/services/mods_service.py:216-243` | an offered version is the newest of those returned that list the game version or are installed, "up to date" exactly when it is the installed one; the other two answers mean nothing returned and nothing eligible |
| `Mods.PickIsNewest` | `app/services/mods_service.py:191-202` | an automatic install takes the newest release if releases come first and there is one, else the newest version, with the retry without a game version |
| `ModsSafety.NameDeterminesVersion` | `app/services/mods_service.py:102` | a file name determines its dash-free version id |
| `ModsSafety.UpdateKeepsSoundExactlyWhen` | `app/services/mods_service.py:156-177` | an update keeps every row with its own file and one row for a project if and only if the platform gives no answer, or the new file can be put in the folder and no other mod of the miniverse is of its project |
| `ModsSafety.UnfetchedUpdateLosesFile` | `app/services/mods_service.py:160-161` | such an input: an install over a mod whose new version cannot be fetched leaves the row without its file |
| `ModsSafety.InstallKeepsSoundExactlyWhen` | `app/services/mods_service.py:125-154` | an install, however it ends, keeps this if and only if the platform gives no answer, or the new file can be put in the folder, or the miniverse has no mod of the project |
| `ModsSafety.InstallIsExact` | `app/services/mods_service.py:125-154` | an install that returns leaves exactly one row of the project, at the version asked for, and every other row as it was |
| `ModsSafety.UpgradeListsGame` | `app/services/miniverse_service.py:299-318` | an upgrade that returns takes every available update, keeps rows and files sound, and leaves each mod at a version listing the game version or at the one it had |
| `ModsSafety.UpgradeAllKeepsSoundExactlyWhen` | `app/services/miniverse_service.py:314-318` | an upgrade, whether it returns or fails partway, keeps this if and only if the first offered update that does not work is not answered at all |
| `ModsSafety.RunIsSoundExactlyWhen` | `app/services/mods_service.py:92-213` | over every run of installs, updates, uninstalls and upgrades, however they end, this holds in every state if and only if each request meets the condition above in the state it meets |
| `ModsSafety.RunKeepsSound` | `app/services/mods_service.py:92-213` | after any run of installs, updates (to projects no other mod there has), uninstalls and upgrades that return, every row has its own file holding its version and a miniverse has at most one row for a project |
| `ModsEffects.PrimaryIsFirst` | `app/services/mods_service.py:94-96` | the file taken is the first one marked primary |
| `ModsEffects.InstallableExactlyWhen` | `app/services/mods_service.py:92-114` | a version can be put in the folder exactly when it is fetched, its primary file ends in ".jar", and the new name is one component |
| `ModsEffects.CompatibleExactlyWhen` | `app/services/mods_service.py:222-242` | the status is an error exactly when nothing was returned, and "no compatible versions" exactly when no version returned lists the game version or is installed; what is offered as an update lists the game version |
| `ModsEffects.ScanIsFirstNewest` | `app/services/mods_service.py:230-239` | of several newest eligible versions of one date the first listed is offered: the sort keeps their order |
| `ModsEffects.NoCompatibleListsAll` | `app/services/mods_service.py:238-239` | when nothing is eligible every version returned is listed, with its game versions |
| `Lifecycle.MiniverseService.StartTask` | `app/services/connexion/WebSocketMiniverseService.py:18-22` | a connect task is made only where there is none |
| `Lifecycle.MiniverseService.StopTask` | `app/services/connexion/WebSocketMiniverseService.py:24-31` | the held task is cancelled and forgotten |
| `Lifecycle.MiniverseService.AddController` | `app/managers/ServerStatusManager.py:17-31` | the controller chosen by the version comparison, or the raise |
| `Lifecycle.MiniverseService.RemoveController` | `app/managers/ServerStatusManager.py:33-37` | the controller and its task are gone |
| `Lifecycle.MiniverseService.StartMiniverse` | `app/services/miniverse_service.py:175-196` | row, container, controller and task after a start, with an existing container and without |
| `Lifecycle.MiniverseService.StopMiniverseContainer` | `app/services/miniverse_service.py:199-209` | only a stored container id makes a container stop |
| `Lifecycle.MiniverseService.StopMiniverse` | `app/services/miniverse_service.py:212-222` | row, container, controller and task after a stop |
| `Lifecycle.MiniverseService.RestartMiniverse` | `app/services/miniverse_service.py:225-227` | a stop followed by a start; if it returns, the miniverse is started and its container runs under the stored id |
| `Lifecycle.MiniverseService.UpdateProxyConfig` | `app/services/proxy_service.py:19-28` | the routes file is the route map of the table |
| `Lifecycle.MiniverseService.CreateMiniverse` | `app/services/miniverse_service.py:44-79` | the state after each way a creation can end |
| `Lifecycle.MiniverseService.DropModData` | `app/services/miniverse_service.py:90-95` | rows and files of the miniverse's mods are gone, those of others stay |
| `Lifecycle.MiniverseService.DeleteMiniverse` | `app/services/miniverse_service.py:82-99` | the state after a deletion |
| `Lifecycle.MiniverseService.ApplyGameVersion` | `app/services/miniverse_service.py:314-330` | mods, stop, new version, start, stopping at the first failure |
| `Lifecycle.MiniverseService.UpdateGameVersion` | `app/services/miniverse_service.py:287-330` | the checks in their order, then the above |
| `Lifecycle.MiniverseService.UpdateMiniverse` | `app/services/miniverse_service.py:240-284` | fields, commit, version and routes; the restart flag is never set |
| `LifecycleSafety.StartedExactlyWhenRunning` | `app/services/miniverse_service.py:175-222` | under the invariant a miniverse is marked started exactly when its named container runs under the stored id, and then a websocket controller has exactly one live task, else none |
| `LifecycleSafety.StartKeepsAgreement` | `app/services/miniverse_service.py:175-196` | a start returns and keeps rows, containers, controllers and tasks in agreement |
| `LifecycleSafety.StopEffect` | `app/services/miniverse_service.py:199-222` | a stop removes this miniverse's container and task, nothing of the others |
| `LifecycleSafety.StopRemovesOwnContainer` | `app/services/miniverse_service.py:199-209` | removal by the stored id hits the container named after the miniverse and no other |
| `LifecycleSafety.StopKeepsAgreement` | `app/services/miniverse_service.py:212-222` | a stop returns and keeps the agreement |
| `LifecycleSafety.RestartKeepsAgreement` | `app/services/miniverse_service.py:225-227` | a restart returns, leaves the miniverse started and keeps the agreement |
| `LifecycleSafety.CreateKeepsAgreementExactlyWhen` | `app/services/miniverse_service.py:56-75` | for any comparison, a creation returns and keeps the agreement exactly when comparing its version with 1.21.9 does not raise: the row is committed before the comparison |
| `ControllerKinds.CreateKeepsAgreementExactlyWhenParsable` | `app/services/miniverse_service.py:56-75` | a creation returns and keeps the agreement if and only if its version can be parsed; else the row is there without a controller |
| `ControllerKinds.CreateOfWordFails` | `app/services/miniverse_service.py:56-75` | such an input: a miniverse of version "latest" |
| `LifecycleSafety.DeleteEffect` | `app/services/miniverse_service.py:82-99` | what a deletion leaves of rows, containers, controllers, tasks, mods and routes |
| `LifecycleSafety.DeleteKeepsAgreement` | `app/services/miniverse_service.py:82-99` | a deletion returns and keeps the agreement |
| `LifecycleSafety.PatchIsExact` | `app/services/miniverse_service.py:246-259` | every given field has its value afterwards, every other its old one, and the changed fields are those that differed |
| `LifecycleSafety.PatchIsRefusedExactlyWhen` | `app/services/miniverse_service.py:249-255` | an update of fields is refused exactly when a new name or subdomain is taken |
| `LifecycleSafety.UpdateKeepsAgreement` | `app/services/miniverse_service.py:240-330` | an update keeps the agreement even when it is refused or fails partway |
| `LifecycleRuns.CurrentRoutesLeadHome` | `app/services/proxy_service.py:11-28` | with distinct subdomains a current routes file has one entry for each miniverse, leading to it |
| `LifecycleRuns.CurrentRoutesAreHosts` | `app/services/proxy_service.py:11-28` | its hosts are exactly those of the miniverses, distinct or not |
| `LifecycleRuns.UpdateKeepsDistinctSubs` | `app/services/miniverse_service.py:246-257` | an update keeps subdomains distinct, whatever becomes of it |
| `LifecycleSafety.UpdateReturnsExactlyWhen` | `app/services/miniverse_service.py:246-330` | an update returns if and only if no new name or subdomain is taken and there is no new version, or one that passes the checks and whose mod updates can all be put in the folder |
| `LifecycleRuns.UpdateKeepsRoutesExactlyWhen` | `app/services/miniverse_service.py:267-279` | after an update the routes file is current if and only if no new subdomain was given, or a taken name or subdomain refused the fields, or that version part works |
| `LifecycleRuns.RefusedVersionLeavesOldRoutes` | `app/services/miniverse_service.py:267-279` | such an input: a free new subdomain together with a lower version |
| `LifecycleRuns.RefusedUpdateChangesNothing` | `app/services/miniverse_service.py:249-312` | a refused update changes no mod, version, container, controller, task or route |
| `LifecycleRuns.UpdateAloneRestartsNothing` | `app/services/miniverse_service.py:264-276` | an update without a new version restarts nothing, a new Java version included |
| `LifecycleRuns.AcceptedUpdateMods` | `app/services/miniverse_service.py:287-330` | an accepted version update sets the version and leaves each mod at a version listing it or at the one the mod had |
| `LifecycleRuns.AcceptedUpdateTakesNewest` | `app/services/miniverse_service.py:287-330` | an accepted version update takes each mod of the miniverse to the newest considered version that lists the game version or was installed, and leaves other miniverses' mods as they were |
| `LifecycleHistories.StepKeepsAgreementExactlyWhen` | `app/services/miniverse_service.py:44-330` | each request, however it ends, keeps rows, containers, controllers and tasks in agreement if and only if it creates no miniverse with a version that cannot be parsed |
| `LifecycleHistories.RunAgreesExactlyWhen` | `app/services/miniverse_service.py:44-330` | over every run of creations, starts, stops, restarts, updates and deletions that return, are refused or fail, the agreement holds in every state if and only if no such miniverse is created |
| `LifecycleHistories.UpdateKeepsModsExactlyWhen` | `app/services/miniverse_service.py:240-330` | an update, however it ends, keeps mod rows and files sound if and only if it never gets as far as the mods or the upgrade loses no file |
| `LifecycleHistories.RunIsHealthyExactlyWhen` | `app/services/miniverse_service.py:44-330` | over every such run agreement, current routes and sound mods hold in every state if and only if each request has what it needs in the state it meets: a version that can be parsed for a new miniverse; for an update no new subdomain before a version that does not go through, and no mod file lost |
| `LifecycleRuns.RunStaysHealthy` | `app/services/miniverse_service.py:44-330` | every run of creations, starts, stops, restarts, updates and deletions that return keeps agreement, current routes, and sound mods |
| `LifecycleEffects.RestartRuns` | `app/services/miniverse_service.py:225-227` | a restart, of a started or a stopped miniverse, leaves it started and connected in the new container, which is the one stored; rows, containers and controllers of the others are as before |
| `LifecycleEffects.StartRuns` | `app/services/miniverse_service.py:175-196` | a start of a stopped miniverse leaves the same |
| `LifecycleEffects.CreateRuns` | `app/services/miniverse_service.py:44-79` | a creation that returns stores the attributes, kind and version asked for and leaves the miniverse running in the new container under the controller its version gets, with its routes written |
| `LifecycleEffects.DeleteIsExact` | `app/services/miniverse_service.py:82-99` | a deletion leaves no row, container, controller, task or mod of the miniverse and everything of the others |
| `LifecycleEffects.VersionUpdateRuns` | `app/services/miniverse_service.py:320-330` | an accepted version update leaves the miniverse running in a new container at the new version, whether it was started or not, all its other attributes and everything of the others as before |
| `LifecycleEffects.VersionChecks` | `app/services/miniverse_service.py:289-312` | a version update is refused exactly for the same version, one that does not compare as at least the old one, or, for the three kinds with mods, a mod that could not be listed or has nothing compatible |
| `LifecycleEffects.KindsWithMods` | `app/services/miniverse_service.py:299-318` | an update of a fabric, forge or neoforge server takes the available update of every listed mod |
| `LifecycleEffects.FieldsRefusedExactlyWhen` | `app/services/miniverse_service.py:246-255` | fields are refused exactly when a given name or subdomain that is not the old one is that of some miniverse |
| `LifecycleEffects.UpdateSetsEveryField` | `app/services/miniverse_service.py:246-259` | unless its fields are refused an update, however it ends, gives each of the six fields the given value and keeps those not given |
| `LifecycleEffects.UpdateIsRefusedExactlyWhen` | `app/services/miniverse_service.py:240-312` | an update is refused exactly for a taken name or subdomain, or for a new version that does not pass the checks |
| `LifecycleEffects.UpdateWritesRoutesExactlyWhen` | `app/services/miniverse_service.py:246-279` | an update writes the routes of the new table exactly when it returns and gave another subdomain or another setting for Bedrock players |
| `LifecycleEffects.RoutesByAttributes` | `app/services/proxy_service.py:11-28` | current routes lead from "subdomain.domain" of each miniverse to "miniverse-id:25565" |
| `LifecycleRequests.RequestDecides` | `app/services/miniverse_service.py:44-330` | a request that returns decides which miniverses run: a creation, a start, a restart and an update to another version make theirs run, a stop and a deletion end that, and no request touches another one |
| `LifecycleRequests.LastRequestDecides` | `app/services/miniverse_service.py:44-330` | over every run of requests that return: whether a miniverse runs at the end, in its own container under the stored id, is what the last request that decides it said, or as it was at the start if none does |
| `LifecycleRuns.RunGoesUp` | `app/services/miniverse_service.py:287-323` | over any run of requests, however they end, a version goes up in every preorder that accepted comparisons respect |
| `LifecycleRuns.RunNeverLowersVersion` | `app/services/miniverse_service.py:287-323` | among versions that are not old snapshots, (major, minor, patch) never decreases over a run, refused and failed requests included |
| `ControllerKinds.ControllerByVersion` | `app/managers/ServerStatusManager.py:23-28` | versions with higher numbers than 1.21.9 get a websocket controller; lower ones, prereleases of 1.21.9 and 1.21.9 itself get the router's |
| `ControllerKinds.RunKeepsKind` | `app/managers/ServerStatusManager.py:17-31` | over any run of requests, however they end, that does not delete the miniverse its controller keeps its kind |
| `ControllerKinds.UpdateKeepsKindFitExactlyWhen` | `app/services/miniverse_service.py:287-330` | an update leaves a controller of the wrong kind if and only if it goes through and takes the version across 1.21.9 |
| `ControllerKinds.UpgradeKeepsRouter` | `app/services/miniverse_service.py:287-330` | such an input: from 1.20 to 1.22 |
| `LifecycleRuns.RoutedWebhookFindsItsController` | `app/managers/ServerStatusManager.py:42-46` | a webhook for a routed miniverse reaches its own router controller exactly under the condition on its id above |
| `VersionOrder.InvalidIsNoneExactlyWhen` | `app/services/minecraft_service.py:177-178` | one-step fact: the documented None for an invalid version is the answer exactly when the second version is invalid |
| `VersionOrder.AnswerFollowsNumbers` | `app/services/minecraft_service.py:119-128` | one-step fact: apart from old snapshots an answer never contradicts the order of (major, minor, patch) |
| `PathLaws.RootOfText` | `app/services/files_service.py:27` | one-step fact: the root of a path text is one leading slash, or exactly two |
| `FileRequests.CopyOutcome` | `app/services/files_service.py:152-161` | one-step fact: when a source is copied, passed over, refused, or copied below itself |
| `FileRequests.SetContentRequest` | `app/services/files_service.py:317-327` | one-step fact: returns exactly for a file, whose content is then the one given; no other entry ever changes |
| `FileRequests.RefusedName` | `app/services/files_service.py:226-242` | one-step fact: an upload whose name is refused leaves the destination's directories, if they can be made, and nothing else |
| `FileRequests.RefusedDestination` | `app/services/files_service.py:226-228` | one-step fact: an upload to a refused destination changes nothing |
| `FileRequests.FailedFinish` | `app/services/files_service.py:240-242` | one-step fact: an upload that fails at the end has used up its information file, if there was one, and nothing else |
| `FileRequests.ExtractRequest` | `app/services/files_service.py:245-257` | one-step fact: an extraction returns exactly for an accepted path of a readable archive with such a name whose members can be extracted |
| `FileRequests.DownloadKind` | `app/services/files_service.py:199-203` | one-step fact: exactly a single file is sent as it is; every other selection as an archive |
| `RoleEvents.SetRowIsExact` | `app/api/v1/miniverses.py:182-197` | one-step fact: afterwards the user has exactly the requested role there, and no other role of the table differs |
| `RoleEvents.GrantIsDelivered` | `app/api/v1/websockets.py:40-47` | one-step fact: a grant notice is delivered if the grant still stands when it is handled, and the cache then holds the role |
| `RoleEffects.RolesInOrder` | `app/enums/role.py:12-18` | one-step fact: None, User, Moderator, Admin, from the lowest to the highest |
| `RoleEvents.WithheldExactlyWhen` | `app/api/v1/websockets.py:38-47` | one-step fact: an event is withheld exactly when it is about a miniverse where the cached role is none and, if it names the user, so is the stored one |
| `StatusEffects.ReadIsExact` | `app/services/connexion/BaseMiniverseService.py:23-34` | one-step fact: a read changes nothing exactly where a value is stored and no refresh is asked for; else the source's answer is stored, or the value deleted; other lists stay |
| `StatusEffects.RefreshPublishes` | `app/services/connexion/server_status_store.py:18-33` | one-step fact: a refresh publishes the answer unless it is the stored one and texts compare equal, or nothing was stored and nothing is |
| `StatusEffects.PlayerlessWebhook` | `app/services/connexion/MCRouterMiniverseService.py:26-27` | one-step fact: a webhook without a player changes neither dictionary nor store |
| `RouterPlayers.ReadAfterStopIsStale` | `app/services/connexion/MCRouterMiniverseService.py:19-20` | one-step fact: a cached read right after a stop still shows the old list, which is right exactly when it is empty |
| `ModsSafety.RowsHaveOwnFiles` | `app/services/mods_service.py:92-114` | one-step fact: no two rows of a miniverse share a file |
| `ModsSafety.UninstallKeepsSound` | `app/services/mods_service.py:205-213` | one-step fact: after an uninstall neither the row nor its file is there, and every other row still has its own file |
| `ModsEffects.UninstallIsExact` | `app/services/mods_service.py:205-213` | one-step fact: the row and the file of the mod are gone, every other row and file is as it was |
| `ModsEffects.UpdateIsExact` | `app/services/mods_service.py:156-177` | one-step fact: for each answer of the platform, the row, the files and the outcome an update leaves |
| `ModsEffects.AddIsExact` | `app/services/mods_service.py:125-154` | one-step fact: the row and the file an addition leaves, or nothing when it is refused |
| `ModsEffects.InstallReturnsExactlyWhen` | `app/services/mods_service.py:125-154` | one-step fact: an install goes through exactly when the version can be put in the folder; without an answer, and where it fails for a project without a mod there, nothing changes |
| `ModsEffects.FileNameExample` | `app/services/mods_service.py:102` | one-step fact: the file name is slug, number and id, in this order, with dashes |
| `ModsEffects.ConsideredExactlyWhen` | `app/services/mods_service.py:222-229` | one-step fact: all versions are asked for exactly when there is none for the game version; a query that raises leaves nothing to consider |
| `ModsEffects.ChoicesExactlyWhen` | `app/services/mods_service.py:191-196` | one-step fact: an automatic install asks for all versions exactly when there is none for the game version and it may retry |
| `LifecycleSafety.StartRunsStored` | `app/services/miniverse_service.py:175-196` | one-step fact: whatever the state was, after a start the named container runs under the stored id; an existing one is adopted, and no other container is touched |
| `LifecycleSafety.StopLeavesContainerExactlyWhen` | `app/services/miniverse_service.py:199-222` | one-step fact: whatever the state was, a stop leaves the named container exactly when the row does not hold its id, although it was looked up by name |
| `LifecycleEffects.ControllerTasks` | `app/services/connexion/WebSocketMiniverseService.py:18-31` | one-step fact: a second start keeps the connect task a controller holds; a stop cancels that task and no other, and the next start makes a new one |
| `LifecycleEffects.AddFindsController` | `app/managers/ServerStatusManager.py:17-31` | one-step fact: where there is a controller already, adding one keeps and starts it, whatever the version |
| `LifecycleEffects.FailedCreate` | `app/services/miniverse_service.py:44-79` | one-step fact: a creation that fails leaves its row, stopped, and nothing else |
| `LifecycleEffects.DropModsIsExact` | `app/services/miniverse_service.py:90-95` | one-step fact: the miniverse's mods are gone with their files, those of the others are as they were |
| `LifecycleEffects.KindsWithoutMods` | `app/services/miniverse_service.py:299-318` | one-step fact: an update of a vanilla or paper server touches no mod |

## Left out

- HTTP and JSON: requests, JWT and Keycloak, Docker and Redis clients, DTO schemas, migrations, logging; the text of
  a stored value is only compared, and read back it may or may not compare equal to the same text written.
- Role guards of the endpoints, user and administrator bookkeeping, search facets: single branches.
- The gap between reading the user and subscribing (app/api/v1/websockets.py:97-103), and the deletion of users: the
  protocol starts once subscribed.
- `delete_miniverse_cache`: the scan of the store; the runs of the cache end before it.
- `compress_miniverse_files`: reads paths relative to the working directory of the process
  (app/services/files_service.py:276); the round trips are stated on downloads.
- `list_miniverse_files`, `get_file_content`, `compute_crc32`: read only, without branching of interest.
- Symbolic links, times, permissions, sizes, read errors inside an archive, the byte format of archives, the text and
  quoting of manifest lines, and backslashes in member names.
- `FilesService.FileService.Copy`: a directory copied below one of its own subdirectories ends as `CopiesItself`, and
  runs go on from the tree before any entry was copied; what the copy leaves below its destination before it raises
  depends on the order of directory listings and on path lengths.
- `FilesService.FileService.CopyEntryTo`: the same.
- `FilesService.FileService.Upload`: the upload id is one name, and its information file that name with its suffix
  replaced.
- A trailing newline and Unicode digits in the regular expressions.
- `get_minecraft_versions`: the listing is a parameter of each comparison.
- `Lifecycle.MiniverseService.StopTask`: the refresh of the player list a websocket controller makes first (in
  the cache it is a `ReadPlayers` access), and the connection loop itself; a task is live or not.
- `Lifecycle.MiniverseService.StartMiniverse`: icon and configuration files and the proxy mod put into the data folder
  first.
- Looking a container up by its name: containers are kept by the miniverse their name is made of, and a stopped one
  is removed at once.
- Controllers are values in the manager's map, so two holders of one controller object are not distinguished.
- `Mods.ModsService.DownloadModFile`: a file name that contains a slash is a failed write.
- Events published by requests on miniverses and mods: in the role protocol they are `Notify` steps.
- Columns of a mod that only repeat the platform's answer (title, icon, version name and number).
- Case folding of the database's text comparison, and requests that run at the same time outside the role protocol.
